/**
 * The extraction of lexeme blocks from the gathered lemma text: the
 * `re.findall` call with the pattern  -lexeme\n(?: [^\r\n]*\n)+  written out
 * as a left-to-right scanner, and its characterisation by a structural
 * definition of a block.
 */
module LexemeScan {
  import opened Wrappers

  /** The header line that opens every block. */
  const Header: string := "-lexeme\n"

  /** One continuation line: a space, characters other than CR and LF, then LF. */
  predicate IsLine(l: string)
  {
    |l| >= 2 && l[0] == ' ' && l[|l| - 1] == '\n' &&
    forall i :: 1 <= i < |l| - 1 ==> l[i] != '\r' && l[i] != '\n'
  }

  /**
   * One or more continuation lines.  Stated without splitting into lines:
   * the text starts with a space, ends with LF, holds no CR, and every LF
   * but the last is followed by the space that opens the next line.
   */
  predicate IsBody(t: string)
  {
    |t| > 0 && t[0] == ' ' && t[|t| - 1] == '\n' &&
    (forall i :: 0 <= i < |t| ==> t[i] != '\r') &&
    (forall i :: 0 <= i < |t| - 1 ==> SpaceAfterLineFeed(t, i))
  }

  /** If `t[i]` is a line feed, the character after it is a space. */
  predicate SpaceAfterLineFeed(t: string, i: nat)
    requires i + 1 < |t|
  {
    t[i] == '\n' ==> t[i + 1] == ' '
  }

  /** A text the pattern matches in full: the header, then a body. */
  predicate IsBlock(b: string)
  {
    |b| > |Header| && b[..|Header|] == Header && IsBody(b[|Header|..])
  }

  lemma LineIsBody(l: string)
    ensures IsLine(l) ==> IsBody(l)
  {
  }

  lemma BodyConcat(a: string, b: string)
    ensures IsBody(a) && IsBody(b) ==> IsBody(a + b)
  {
    if IsBody(a) && IsBody(b) {
      var t := a + b;
      forall i | 0 <= i < |t| - 1 ensures SpaceAfterLineFeed(t, i) {
        if i < |a| - 1 {
          assert SpaceAfterLineFeed(a, i);
        } else if i >= |a| {
          assert SpaceAfterLineFeed(b, i - |a|);
        }
      }
    }
  }

  /** The part of a body after one of its line feeds is again a body. */
  lemma BodySuffix(t: string, i: nat)
    requires 0 < i < |t| && t[i - 1] == '\n'
    ensures IsBody(t) ==> IsBody(t[i..])
  {
    if IsBody(t) {
      assert SpaceAfterLineFeed(t, i - 1);
      var u := t[i..];
      forall j | 0 <= j < |u| - 1 ensures SpaceAfterLineFeed(u, j) {
        assert SpaceAfterLineFeed(t, i + j);
      }
    }
  }

  /** Within a body of `s` from `h` to `e`, a line feed before `e - 1` is followed by a space. */
  lemma BodyInside(s: string, h: nat, m: nat, e: nat)
    requires h < m <= |s| && e <= |s|
    ensures h < e && m < e && IsBody(s[h..e]) && s[m - 1] == '\n' ==> s[m] == ' '
  {
    if h < e && m < e {
      var t := s[h..e];
      assert t[m - 1 - h] == s[m - 1];
      assert t[m - h] == s[m];
      assert IsBody(t) ==> SpaceAfterLineFeed(t, m - 1 - h);
    }
  }

  /** `[^\r\n]*` run greedily from `i`: the index of the first CR or LF at or after `i`, or the end. */
  function FirstBreak(s: string, i: nat): (k: nat)
    requires i <= |s|
    ensures i <= k <= |s|
    ensures k < |s| ==> s[k] == '\r' || s[k] == '\n'
    ensures forall j :: i <= j < k ==> s[j] != '\r' && s[j] != '\n'
    decreases |s| - i
  {
    if i == |s| || s[i] == '\r' || s[i] == '\n' then i else FirstBreak(s, i + 1)
  }

  /** The group ` [^\r\n]*\n` tried at `q`: where the line ends, if one starts there. */
  function LineEnd(s: string, q: nat): (r: Option<nat>)
    requires q <= |s|
    ensures r.Some? ==> q < r.value <= |s| && IsLine(s[q..r.value])
  {
    if q < |s| && s[q] == ' ' then
      var k := FirstBreak(s, q + 1);
      if k < |s| && s[k] == '\n' then Some(k + 1) else None
    else None
  }

  /** A continuation line starts at `q` exactly when `LineEnd` finds it, and it ends where `LineEnd` says. */
  lemma LineEndExact(s: string, q: nat)
    requires q <= |s|
    ensures forall e {:trigger IsLine(s[q..e])} :: q < e <= |s| ==> (IsLine(s[q..e]) <==> LineEnd(s, q) == Some(e))
  {
    forall e | q < e <= |s| ensures IsLine(s[q..e]) ==> LineEnd(s, q) == Some(e) {
      if IsLine(s[q..e]) {
        var k := FirstBreak(s, q + 1);
        assert s[e - 1] == s[q..e][e - 1 - q];
        forall j | q + 1 <= j < e - 1 ensures s[j] != '\r' && s[j] != '\n' {
          assert s[j] == s[q..e][j - q];
        }
        assert k == e - 1;
      }
    }
  }

  /** The first line of a body is a line `LineEnd` finds, and what follows it is a body or nothing. */
  lemma BodyFirstLine(s: string, q: nat, e: nat)
    requires q < e <= |s|
    ensures IsBody(s[q..e]) ==>
              LineEnd(s, q).Some? && LineEnd(s, q).value <= e &&
              (LineEnd(s, q).value < e ==> IsBody(s[LineEnd(s, q).value..e]))
  {
    var t := s[q..e];
    if IsBody(t) {
      assert s[q] == t[0];
      assert s[e - 1] == t[|t| - 1];
      var k := FirstBreak(s, q + 1);
      assert k <= e - 1;
      assert s[k] == t[k - q];
      assert LineEnd(s, q) == Some(k + 1);
      if k + 1 < e {
        BodySuffix(t, k + 1 - q);
        assert t[k + 1 - q..] == s[k + 1..e];
      }
    }
  }

  /** `(?: [^\r\n]*\n)+` without its "at least once": the end of the longest run of lines from `q`. */
  function RunEnd(s: string, q: nat): (e: nat)
    requires q <= |s|
    ensures q <= e <= |s|
    decreases |s| - q
  {
    match LineEnd(s, q)
    case None => q
    case Some(k) => RunEnd(s, k)
  }

  /** The run found from `q` is a body, no line follows it, and no longer body starts at `q`. */
  lemma {:induction false} RunEndSpec(s: string, q: nat)
    requires q <= |s|
    ensures LineEnd(s, RunEnd(s, q)).None?
    ensures RunEnd(s, q) > q ==> IsBody(s[q..RunEnd(s, q)])
    ensures forall e {:trigger IsBody(s[q..e])} :: q < e <= |s| && IsBody(s[q..e]) ==> e <= RunEnd(s, q)
    decreases |s| - q
  {
    match LineEnd(s, q)
    case None =>
      forall e | q < e <= |s| ensures IsBody(s[q..e]) ==> e <= RunEnd(s, q) {
        BodyFirstLine(s, q, e);
      }
    case Some(k) =>
      RunEndSpec(s, k);
      var r := RunEnd(s, k);
      LineIsBody(s[q..k]);
      if r > k {
        BodyConcat(s[q..k], s[k..r]);
        assert s[q..k] + s[k..r] == s[q..r];
      }
      forall e | q < e <= |s| ensures IsBody(s[q..e]) ==> e <= RunEnd(s, q) {
        BodyFirstLine(s, q, e);
      }
  }

  /** The whole pattern tried at `p`: where the block starting there ends, if there is one. */
  function MatchAt(s: string, p: nat): (r: Option<nat>)
    requires p <= |s|
    ensures r.Some? ==> p + |Header| < r.value <= |s|
  {
    if p + |Header| <= |s| && s[p..p + |Header|] == Header then
      var e := RunEnd(s, p + |Header|);
      if e > p + |Header| then Some(e) else None
    else None
  }

  /** A block of `s` from `p` to `e` is the header there followed by a body. */
  lemma BlockAt(s: string, p: nat, e: nat)
    requires p + |Header| < e <= |s|
    ensures IsBlock(s[p..e]) <==> s[p..p + |Header|] == Header && IsBody(s[p + |Header|..e])
  {
    assert s[p..e][..|Header|] == s[p..p + |Header|];
    assert s[p..e][|Header|..] == s[p + |Header|..e];
  }

  /**
   * The greedy match: `MatchAt` finds a block at `p` exactly when one starts
   * there, and then the longest one.
   */
  lemma MatchAtSpec(s: string, p: nat)
    requires p <= |s|
    ensures MatchAt(s, p).Some? ==> IsBlock(s[p..MatchAt(s, p).value])
    ensures forall e {:trigger IsBlock(s[p..e])} :: p < e <= |s| && IsBlock(s[p..e]) ==>
              MatchAt(s, p).Some? && e <= MatchAt(s, p).value
  {
    var h := p + |Header|;
    if h <= |s| {
      RunEndSpec(s, h);
      if MatchAt(s, p).Some? {
        BlockAt(s, p, MatchAt(s, p).value);
      }
    }
    forall e | p < e <= |s| ensures IsBlock(s[p..e]) ==> MatchAt(s, p).Some? && e <= MatchAt(s, p).value {
      if e > h {
        BlockAt(s, p, e);
      }
    }
  }

  /**
   * The run in a match stops only where no continuation line starts: at the
   * end of the text, at a line not opened by a space, or at a line whose
   * first CR or LF is a CR or missing.
   */
  lemma MatchStops(s: string, p: nat)
    requires p <= |s|
    ensures MatchAt(s, p).Some? ==>
              var e := MatchAt(s, p).value;
              (forall e' {:trigger IsLine(s[e..e'])} :: e < e' <= |s| ==> !IsLine(s[e..e'])) &&
              (e == |s| || s[e] != ' ' || FirstBreak(s, e + 1) == |s| || s[FirstBreak(s, e + 1)] == '\r')
  {
    if MatchAt(s, p).Some? {
      var e := MatchAt(s, p).value;
      MatchEndsRun(s, p);
      NoLineAt(s, e);
    }
  }

  /** A match ends where `LineEnd` finds no further line. */
  lemma MatchEndsRun(s: string, p: nat)
    requires p <= |s|
    ensures MatchAt(s, p).Some? ==> LineEnd(s, MatchAt(s, p).value).None?
  {
    if MatchAt(s, p).Some? {
      RunEndSpec(s, p + |Header|);
    }
  }

  /** Where `LineEnd` fails, no continuation line starts, and the failure has one of three causes. */
  lemma NoLineAt(s: string, q: nat)
    requires q <= |s|
    ensures LineEnd(s, q).None? ==>
              (forall e' {:trigger IsLine(s[q..e'])} :: q < e' <= |s| ==> !IsLine(s[q..e'])) &&
              (q == |s| || s[q] != ' ' || FirstBreak(s, q + 1) == |s| || s[FirstBreak(s, q + 1)] == '\r')
  {
    LineEndExact(s, q);
  }

  /** The greedy match in context: a block followed by the end of the text or by anything but a space. */
  lemma MatchAtBlock(s: string, p: nat, b: string)
    requires IsBlock(b) && p + |b| <= |s| && s[p..p + |b|] == b
    requires p + |b| == |s| || s[p + |b|] != ' '
    ensures MatchAt(s, p) == Some(p + |b|)
  {
    MatchAtSpec(s, p);
    var e := MatchAt(s, p).value;
    BlockAt(s, p, e);
    assert b[|b| - 1] == b[|Header|..][|b| - 1 - |Header|];
    assert s[p + |b| - 1] == b[|b| - 1];
    BodyInside(s, p + |Header|, p + |b|, e);
  }

  /** A match found by the scanner: the text `s[lo..hi]`. */
  datatype Span = Span(lo: nat, hi: nat)

  /**
   * The scan of `re.findall` from `p`: try the pattern at each position in
   * turn; after a match resume at its end (matches are never empty).
   */
  function Scan(s: string, p: nat): (r: seq<Span>)
    requires p <= |s|
    ensures forall i :: 0 <= i < |r| ==>
              p <= r[i].lo < r[i].hi <= |s| && MatchAt(s, r[i].lo) == Some(r[i].hi)
    ensures forall i, j :: 0 <= i < j < |r| ==> r[i].hi <= r[j].lo
    decreases |s| - p
  {
    if p == |s| then []
    else
      match MatchAt(s, p)
      case Some(e) => [Span(p, e)] + Scan(s, e)
      case None => Scan(s, p + 1)
  }

  /** Position `q` lies inside one of the spans. */
  predicate Covered(r: seq<Span>, q: nat)
  {
    exists i :: 0 <= i < |r| && r[i].lo <= q < r[i].hi
  }

  /** Leftmost matching: no block starts at any position the scan passed over. */
  lemma ScanLeftmost(s: string, p: nat)
    requires p <= |s|
    ensures forall q :: p <= q < |s| && !Covered(Scan(s, p), q) ==> MatchAt(s, q).None?
  {
    forall q | p <= q < |s| ensures !Covered(Scan(s, p), q) ==> MatchAt(s, q).None? {
      ScanLeftmostAt(s, p, q);
    }
  }

  lemma {:induction false} ScanLeftmostAt(s: string, p: nat, q: nat)
    requires p <= q < |s|
    ensures !Covered(Scan(s, p), q) ==> MatchAt(s, q).None?
    decreases q - p
  {
    match MatchAt(s, p)
    case None =>
      if p < q {
        ScanLeftmostAt(s, p + 1, q);
        ScanNoMatch(s, p);
      }
    case Some(e) =>
      ScanMatch(s, p, e);
      var r := Scan(s, p);
      if q < e {
        assert r[0].lo <= q < r[0].hi;
      } else {
        ScanLeftmostAt(s, e, q);
        CoveredTail(r, q);
      }
  }

  lemma ScanMatch(s: string, p: nat, e: nat)
    requires p < |s| && MatchAt(s, p) == Some(e)
    ensures Scan(s, p) == [Span(p, e)] + Scan(s, e)
  {
  }

  lemma ScanNoMatch(s: string, p: nat)
    requires p < |s| && MatchAt(s, p).None?
    ensures Scan(s, p) == Scan(s, p + 1)
  {
  }

  /** A position inside a later span is inside a span. */
  lemma CoveredTail(r: seq<Span>, q: nat)
    requires |r| > 0
    ensures Covered(r[1..], q) ==> Covered(r, q)
  {
    if Covered(r[1..], q) {
      var i :| 0 <= i < |r[1..]| && r[1..][i].lo <= q < r[1..][i].hi;
      assert r[i + 1].lo <= q < r[i + 1].hi;
    }
  }

  /** The texts of the spans, in order. */
  function Texts(s: string, r: seq<Span>): (ts: seq<string>)
    requires forall i :: 0 <= i < |r| ==> r[i].lo <= r[i].hi <= |s|
    ensures |ts| == |r|
    decreases |r|
  {
    if r == [] then [] else [s[r[0].lo..r[0].hi]] + Texts(s, r[1..])
  }

  /**
   * The texts `re.findall` collects from position `p` on, scanning as `Scan`
   * does; `FindFromSpans` proves the two agree.
   */
  function FindFrom(s: string, p: nat): seq<string>
    requires p <= |s|
    decreases |s| - p
  {
    if p == |s| then []
    else
      match MatchAt(s, p)
      case Some(e) => [s[p..e]] + FindFrom(s, e)
      case None => FindFrom(s, p + 1)
  }

  /** `re.findall(pattern, s)`: the text of every match, left to right. */
  function FindAll(s: string): seq<string>
  {
    FindFrom(s, 0)
  }

  /** The texts found are the texts of the spans the scan reports. */
  lemma {:induction false} FindFromSpans(s: string, p: nat)
    requires p <= |s|
    ensures FindFrom(s, p) == Texts(s, Scan(s, p))
    decreases |s| - p
  {
    if p < |s| {
      match MatchAt(s, p)
      case Some(e) =>
        FindFromSpans(s, e);
        var r := Scan(s, p);
        assert r == [Span(p, e)] + Scan(s, e);
        assert r[1..] == Scan(s, e);
      case None =>
        FindFromSpans(s, p + 1);
    }
  }

  /** Every extracted text is the longest block at its own place in `s`. */
  lemma FindAllBlocks(s: string)
    ensures |FindAll(s)| == |Scan(s, 0)|
    ensures forall i :: 0 <= i < |FindAll(s)| ==>
              var sp := Scan(s, 0)[i];
              FindAll(s)[i] == s[sp.lo..sp.hi] && IsBlock(FindAll(s)[i]) &&
              forall e {:trigger IsBlock(s[sp.lo..e])} :: sp.hi < e <= |s| ==> !IsBlock(s[sp.lo..e])
  {
    FindFromSpans(s, 0);
    var r := Scan(s, 0);
    forall i | 0 <= i < |r|
      ensures FindAll(s)[i] == s[r[i].lo..r[i].hi] && IsBlock(FindAll(s)[i])
      ensures forall e {:trigger IsBlock(s[r[i].lo..e])} :: r[i].hi < e <= |s| ==> !IsBlock(s[r[i].lo..e])
    {
      TextsAt(s, r, i);
      MatchAtSpec(s, r[i].lo);
    }
  }

  lemma {:induction false} TextsAt(s: string, r: seq<Span>, i: nat)
    requires forall i :: 0 <= i < |r| ==> r[i].lo <= r[i].hi <= |s|
    requires i < |r|
    ensures Texts(s, r)[i] == s[r[i].lo..r[i].hi]
    decreases i
  {
    if i > 0 {
      TextsAt(s, r[1..], i - 1);
    }
  }

  // The scan at a position looks only at the text from that position on.

  lemma {:induction false} FirstBreakShift(s: string, d: nat, i: nat)
    requires d <= i <= |s|
    ensures FirstBreak(s, i) == d + FirstBreak(s[d..], i - d)
    decreases |s| - i
  {
    if i < |s| {
      assert s[d..][i - d] == s[i];
      if s[i] != '\r' && s[i] != '\n' {
        FirstBreakShift(s, d, i + 1);
      }
    }
  }

  lemma LineEndShift(s: string, d: nat, q: nat)
    requires d <= q <= |s|
    ensures LineEnd(s, q).Some? <==> LineEnd(s[d..], q - d).Some?
    ensures LineEnd(s, q).Some? ==> LineEnd(s, q).value == d + LineEnd(s[d..], q - d).value
  {
    if q < |s| {
      assert s[d..][q - d] == s[q];
      if s[q] == ' ' {
        FirstBreakShift(s, d, q + 1);
        var k := FirstBreak(s, q + 1);
        if k < |s| {
          assert s[d..][k - d] == s[k];
        }
      }
    }
  }

  lemma {:induction false} RunEndShift(s: string, d: nat, q: nat)
    requires d <= q <= |s|
    ensures RunEnd(s, q) == d + RunEnd(s[d..], q - d)
    decreases |s| - q
  {
    LineEndShift(s, d, q);
    if LineEnd(s, q).Some? {
      RunEndShift(s, d, LineEnd(s, q).value);
    }
  }

  lemma MatchAtShift(s: string, p: nat)
    requires p <= |s|
    ensures MatchAt(s, p).Some? <==> MatchAt(s[p..], 0).Some?
    ensures MatchAt(s, p).Some? ==> MatchAt(s, p).value == p + MatchAt(s[p..], 0).value
  {
    var h := p + |Header|;
    if h <= |s| {
      assert s[p..][0..|Header|] == s[p..h];
      RunEndShift(s, p, h);
    }
  }

  /**
   * The scan from the start of a text, recursing on what is left of the text
   * rather than on a position. It and `FindFrom` are two ways of computing
   * `Texts(s, Scan(s, p))`, kept only as proof shapes.
   */
  function FindSuffix(w: string): seq<string>
    decreases |w|
  {
    if w == [] then []
    else
      match MatchAt(w, 0)
      case Some(e) => [w[..e]] + FindSuffix(w[e..])
      case None => FindSuffix(w[1..])
  }

  lemma SuffixMatch(w: string, e: nat)
    requires w != [] && MatchAt(w, 0) == Some(e)
    ensures FindSuffix(w) == [w[..e]] + FindSuffix(w[e..])
  {
  }

  lemma SuffixNoMatch(w: string)
    requires w != [] && MatchAt(w, 0).None?
    ensures FindSuffix(w) == FindSuffix(w[1..])
  {
  }

  /** Scanning from `p` depends only on the text from `p` on. */
  lemma {:induction false} FindFromSuffix(s: string, p: nat)
    requires p <= |s|
    ensures FindFrom(s, p) == FindSuffix(s[p..])
    decreases |s| - p
  {
    if p < |s| {
      var w := s[p..];
      MatchAtShift(s, p);
      if MatchAt(s, p).Some? {
        var e := MatchAt(s, p).value;
        FindFromSuffix(s, e);
        assert w[e - p..] == s[e..];
        assert w[..e - p] == s[p..e];
        FindFromMatch(s, p, e);
        SuffixMatch(w, e - p);
      } else {
        FindFromSuffix(s, p + 1);
        assert w[1..] == s[p + 1..];
        FindFromNoMatch(s, p);
        SuffixNoMatch(w);
      }
    }
  }

  lemma FindFromMatch(s: string, p: nat, e: nat)
    requires p < |s| && MatchAt(s, p) == Some(e)
    ensures FindFrom(s, p) == [s[p..e]] + FindFrom(s, e)
  {
  }

  lemma FindFromNoMatch(s: string, p: nat)
    requires p < |s| && MatchAt(s, p).None?
    ensures FindFrom(s, p) == FindFrom(s, p + 1)
  {
  }

  /** A match followed by a position where none starts: the scan goes on one past the match. */
  lemma FindFromMatchSkip(s: string, p: nat, e: nat)
    requires p < e < |s| && MatchAt(s, p) == Some(e) && MatchAt(s, e).None?
    ensures FindFrom(s, p) == [s[p..e]] + FindFrom(s, e + 1)
  {
    FindFromNoMatch(s, e);
    FindFromMatch(s, p, e);
  }

  // A text that ends with an empty line, such as a file followed by the LF
  // the collector appends, lets no match run past its end.

  /** `u` ends with LF, and that LF follows another LF or opens `u`. */
  predicate EndsWithEmptyLine(u: string)
  {
    |u| > 0 && u[|u| - 1] == '\n' && (|u| == 1 || u[|u| - 2] == '\n')
  }

  lemma {:induction false} FirstBreakPrefix(u: string, v: string, i: nat)
    requires i <= |u| && FirstBreak(u, i) < |u|
    ensures FirstBreak(u + v, i) == FirstBreak(u, i)
    decreases |u| - i
  {
    assert (u + v)[i] == u[i];
    if u[i] != '\r' && u[i] != '\n' {
      FirstBreakPrefix(u, v, i + 1);
    }
  }

  lemma LineEndPrefix(u: string, v: string, q: nat)
    requires q < |u| && u[|u| - 1] == '\n'
    ensures LineEnd(u + v, q) == LineEnd(u, q)
  {
    assert (u + v)[q] == u[q];
    if u[q] == ' ' {
      var k := FirstBreak(u, q + 1);
      assert k < |u| by {
        assert q + 1 <= |u| - 1;
      }
      FirstBreakPrefix(u, v, q + 1);
      assert (u + v)[k] == u[k];
    }
  }

  /** No continuation line of `u` ends at the end of `u`. */
  lemma NoLineToEnd(u: string, q: nat)
    requires q < |u| && EndsWithEmptyLine(u)
    ensures LineEnd(u, q) != Some(|u|)
  {
    if u[q] == ' ' {
      var k := FirstBreak(u, q + 1);
      assert k <= |u| - 2;
    }
  }

  lemma {:induction false} RunEndPrefix(u: string, v: string, q: nat)
    requires q < |u| && EndsWithEmptyLine(u)
    ensures RunEnd(u + v, q) == RunEnd(u, q) < |u|
    decreases |u| - q
  {
    LineEndPrefix(u, v, q);
    NoLineToEnd(u, q);
    if LineEnd(u, q).Some? {
      RunEndPrefix(u, v, LineEnd(u, q).value);
    }
  }

  lemma PrefixSlice(u: string, v: string, i: nat, j: nat)
    requires i <= j <= |u|
    ensures (u + v)[i..j] == u[i..j]
  {
    assert forall k :: 0 <= k < j - i ==> (u + v)[i..j][k] == u[i..j][k];
  }

  lemma MatchAtPrefix(u: string, v: string, p: nat)
    requires p < |u| && EndsWithEmptyLine(u)
    ensures MatchAt(u + v, p) == MatchAt(u, p)
  {
    var s := u + v;
    var h := p + |Header|;
    if h <= |u| {
      PrefixSlice(u, v, p, h);
      if u[p..h] == Header {
        assert h < |u| by {
          assert u[h - 2] == u[p..h][|Header| - 2];
        }
        RunEndPrefix(u, v, h);
      }
    } else if h <= |s| {
      assert s[p..h][|u| - 1 - p] == u[|u| - 1];
    }
  }

  /** Behind a text `u` that ends with an empty line, the scan of `u + v` finds `u`'s blocks, then goes on at the seam. */
  lemma {:induction false} FindFromPrefix(u: string, v: string, p: nat)
    requires p <= |u| && EndsWithEmptyLine(u)
    ensures FindFrom(u + v, p) == FindFrom(u, p) + FindFrom(u + v, |u|)
    decreases |u| - p
  {
    var s := u + v;
    if p == |u| {
      assert FindFrom(u, p) == [];
    } else {
      MatchAtPrefix(u, v, p);
      match MatchAt(u, p)
      case Some(e) =>
        assert s[p..e] == u[p..e];
        FindFromPrefix(u, v, e);
        AppendAssoc([u[p..e]], FindFrom(u, e), FindFrom(s, |u|));
      case None =>
        FindFromPrefix(u, v, p + 1);
    }
  }

  lemma AppendAssoc<T>(a: seq<T>, b: seq<T>, c: seq<T>)
    ensures a + (b + c) == (a + b) + c
  {
  }

  /** Behind a text that ends with an empty line, extraction splits: no block straddles the seam. */
  lemma FindAllConcat(u: string, v: string)
    requires EndsWithEmptyLine(u)
    ensures FindAll(u + v) == FindAll(u) + FindAll(v)
  {
    FindFromPrefix(u, v, 0);
    FindFromSuffix(u + v, |u|);
    FindFromSuffix(v, 0);
    assert (u + v)[|u|..] == v;
    assert v[0..] == v;
  }
}
