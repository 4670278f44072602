/**
 * Python's ordering of `str` values, used by `sorted`: lexicographic by code
 * point, with a proper prefix ordered before any of its extensions.  Dafny's
 * own `<` on strings means "proper prefix", so the order is written out here,
 * together with the sort-and-deduplicate step `sorted(list(set(xs)))`.
 */
module CodePointOrder {

  /** `a < b` for Python strings. */
  predicate Less(a: string, b: string)
    decreases |a|
  {
    if |a| == 0 then |b| > 0
    else if |b| == 0 then false
    else if a[0] != b[0] then a[0] < b[0]
    else Less(a[1..], b[1..])
  }

  /** `a` and `b` agree on their first `k` characters and differ at `k`, with `a` smaller there. */
  predicate DiffersFirstAt(a: string, b: string, k: nat)
  {
    k < |a| && k < |b| && a[..k] == b[..k] && a[k] < b[k]
  }

  /** The textbook definition of lexicographic order agrees with `Less`. */
  lemma {:induction false} LessIff(a: string, b: string)
    ensures Less(a, b) <==>
              (|a| < |b| && a == b[..|a|]) || exists k :: DiffersFirstAt(a, b, k)
    decreases |a|
  {
    if |a| == 0 || |b| == 0 {
      if |a| == 0 && |b| > 0 {
        assert a == b[..|a|];
      }
      if |b| == 0 {
        forall k: nat ensures !DiffersFirstAt(a, b, k) { }
      }
    } else if a[0] != b[0] {
      if a[0] < b[0] {
        assert DiffersFirstAt(a, b, 0);
      }
      forall k: nat ensures !(DiffersFirstAt(a, b, k) && a[0] > b[0]) {
        if 0 < k && DiffersFirstAt(a, b, k) {
          assert a[..k][0] == b[..k][0];
        }
      }
      if a[0] > b[0] && |a| < |b| {
        assert b[..|a|][0] == b[0];
      }
    } else {
      LessIff(a[1..], b[1..]);
      if |a| < |b| && a == b[..|a|] {
        assert a[1..] == b[1..][..|a[1..]|];
      }
      if |a[1..]| < |b[1..]| && a[1..] == b[1..][..|a[1..]|] {
        assert a == [a[0]] + a[1..] && b[..|a|] == [b[0]] + b[1..][..|a[1..]|];
      }
      forall k: nat | DiffersFirstAt(a, b, k) ensures k > 0 && DiffersFirstAt(a[1..], b[1..], k - 1) {
        assert a[1..][..k - 1] == a[..k][1..] && b[1..][..k - 1] == b[..k][1..];
      }
      forall k: nat | DiffersFirstAt(a[1..], b[1..], k) ensures DiffersFirstAt(a, b, k + 1) {
        assert a[..k + 1] == [a[0]] + a[1..][..k] && b[..k + 1] == [b[0]] + b[1..][..k];
      }
    }
  }

  lemma {:induction false} LessIrreflexive(a: string)
    ensures !Less(a, a)
    decreases |a|
  {
    if |a| > 0 {
      LessIrreflexive(a[1..]);
    }
  }

  lemma {:induction false} LessAsymmetric(a: string, b: string)
    ensures Less(a, b) ==> !Less(b, a)
    decreases |a|
  {
    if |a| > 0 && |b| > 0 && a[0] == b[0] {
      LessAsymmetric(a[1..], b[1..]);
    }
  }

  lemma {:induction false} LessTransitive(a: string, b: string, c: string)
    ensures Less(a, b) && Less(b, c) ==> Less(a, c)
    decreases |a|
  {
    if |a| > 0 && |b| > 0 && |c| > 0 && a[0] == b[0] && b[0] == c[0] {
      LessTransitive(a[1..], b[1..], c[1..]);
    }
  }

  /** Any two different strings are ordered one way or the other. */
  lemma {:induction false} LessTotal(a: string, b: string)
    ensures a == b || Less(a, b) || Less(b, a)
    decreases |a|
  {
    if |a| > 0 && |b| > 0 && a[0] == b[0] {
      LessTotal(a[1..], b[1..]);
      if a[1..] == b[1..] {
        assert a == [a[0]] + a[1..] && b == [b[0]] + b[1..];
      }
    }
  }

  /** Sorted by `Less` with no element repeated. */
  predicate StrictlyIncreasing(r: seq<string>)
  {
    forall i, j :: 0 <= i < j < |r| ==> Less(r[i], r[j])
  }

  /** Inserts `x` at its place in a strictly increasing sequence, unless it is already there. */
  function Insert(x: string, r: seq<string>): (r': seq<string>)
    requires StrictlyIncreasing(r)
    ensures StrictlyIncreasing(r')
    ensures forall y :: y in r' <==> y == x || y in r
    decreases |r|
  {
    if r == [] then [x]
    else if x == r[0] then r
    else if Less(x, r[0]) then
      assert forall j :: 0 <= j < |r| ==> Less(x, r[j]) by {
        forall j | 0 <= j < |r| ensures Less(x, r[j]) {
          LessTransitive(x, r[0], r[j]);
        }
      }
      [x] + r
    else
      var tail := Insert(x, r[1..]);
      assert Less(r[0], x) by { LessTotal(x, r[0]); }
      assert forall y :: y in tail ==> Less(r[0], y) by {
        forall y | y in tail ensures Less(r[0], y) {
          if y != x {
            var j :| 0 <= j < |r[1..]| && r[1..][j] == y;
            assert r[j + 1] == y;
          }
        }
      }
      [r[0]] + tail
  }

  /** `sorted(set(xs))`: the elements of `xs`, once each, in increasing order. */
  function SortDistinct(xs: seq<string>): (r: seq<string>)
    ensures StrictlyIncreasing(r)
    ensures forall y :: y in r <==> y in xs
  {
    if xs == [] then [] else Insert(xs[0], SortDistinct(xs[1..]))
  }

  /** The first element of a strictly increasing sequence is its least. */
  lemma HeadIsLeast(a: seq<string>, y: string)
    requires StrictlyIncreasing(a) && y in a
    ensures y == a[0] || Less(a[0], y)
  {
  }

  /** A strictly increasing sequence is determined by its elements. */
  lemma {:induction false} IncreasingUnique(a: seq<string>, b: seq<string>)
    requires StrictlyIncreasing(a) && StrictlyIncreasing(b)
    requires forall y :: y in a <==> y in b
    ensures a == b
    decreases |a|
  {
    assert a == [] <==> b == [] by {
      if a != [] {
        assert a[0] in b;
      }
      if b != [] {
        assert b[0] in a;
      }
    }
    if a != [] {
      assert b[0] in a && a[0] in b;
      HeadIsLeast(a, b[0]);
      HeadIsLeast(b, a[0]);
      LessAsymmetric(a[0], b[0]);
      assert a[0] == b[0];
      forall y ensures y in a[1..] <==> y in b[1..] {
        if y in a[1..] {
          var i :| 0 <= i < |a[1..]| && a[1..][i] == y;
          assert Less(a[0], a[i + 1]);
          LessIrreflexive(y);
          assert y in b;
        }
        if y in b[1..] {
          var j :| 0 <= j < |b[1..]| && b[1..][j] == y;
          assert Less(b[0], b[j + 1]);
          LessIrreflexive(y);
          assert y in a;
        }
      }
      IncreasingUnique(a[1..], b[1..]);
      assert a == [a[0]] + a[1..] && b == [b[0]] + b[1..];
    }
  }

  /** `sorted(set(xs))` does not depend on the order or multiplicity of `xs`. */
  lemma SortDistinctBySet(xs: seq<string>, ys: seq<string>)
    requires forall y :: y in xs <==> y in ys
    ensures SortDistinct(xs) == SortDistinct(ys)
  {
    IncreasingUnique(SortDistinct(xs), SortDistinct(ys));
  }

  /** Sorting and deduplicating a sequence that is already strictly increasing leaves it as it is. */
  lemma SortDistinctFixed(r: seq<string>)
    requires StrictlyIncreasing(r)
    ensures SortDistinct(r) == r
  {
    IncreasingUnique(SortDistinct(r), r);
  }
}
