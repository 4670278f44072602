/**
 * `collect_lemmata`: classify the files of a directory listing by name,
 * gather lemma sources and rule sources into two texts, then reduce the
 * lemma text to its distinct lexeme blocks, sorted and joined by LF.
 */
module Collect {
  import opened CodePointOrder
  import opened LexemeScan
  import opened Wrappers

  /** One file of the listing, with its contents already read and decoded. */
  datatype Entry = Entry(name: string, contents: string)

  /** What a file name makes of a file. */
  datatype Source = LemmaSource | RuleSource | Ignored

  /** Python's `str.startswith`. */
  predicate StartsWith(s: string, prefix: string)
  {
    |prefix| <= |s| && s[..|prefix|] == prefix
  }

  /** Python's `str.endswith`. */
  predicate EndsWith(s: string, suffix: string)
  {
    |suffix| <= |s| && s[|s| - |suffix|..] == suffix
  }

  function Classify(name: string): Source
  {
    if EndsWith(name, ".txt") && StartsWith(name, "lexemes") then LemmaSource
    else if EndsWith(name, ".txt") && StartsWith(name, "lexrules") then RuleSource
    else Ignored
  }

  /**
   * The two name tests exclude each other, so a file is a rule source exactly
   * when its name passes the rule test, whatever the order of the tests.
   */
  lemma ClassifySpec(name: string)
    ensures Classify(name) == LemmaSource <==> EndsWith(name, ".txt") && StartsWith(name, "lexemes")
    ensures Classify(name) == RuleSource <==> EndsWith(name, ".txt") && StartsWith(name, "lexrules")
  {
    NamesExclusive(name);
  }

  /** No name starts with both `lexemes` and `lexrules`: they differ in their fourth character. */
  lemma NamesExclusive(name: string)
    ensures !(StartsWith(name, "lexemes") && StartsWith(name, "lexrules"))
  {
    assert StartsWith(name, "lexemes") ==> name[3] == name[..7][3] == 'e';
    assert StartsWith(name, "lexrules") ==> name[3] == name[..8][3] == 'r';
  }

  /** What one file contributes to the accumulator for `kind`: its contents and an LF, or nothing. */
  function Piece(e: Entry, kind: Source): string
  {
    if Classify(e.name) == kind then e.contents + "\n" else ""
  }

  /** The accumulator for `kind` after the whole listing: each file's piece, in listing order. */
  function Gather(listing: seq<Entry>, kind: Source): string
    decreases |listing|
  {
    if listing == [] then ""
    else Gather(listing[..|listing| - 1], kind) + Piece(listing[|listing| - 1], kind)
  }

  /** Gathering distributes over splitting the listing. */
  lemma {:induction false} GatherConcat(a: seq<Entry>, b: seq<Entry>, kind: Source)
    ensures Gather(a + b, kind) == Gather(a, kind) + Gather(b, kind)
    decreases |b|
  {
    if b == [] {
      assert a + b == a;
    } else {
      var c := b[..|b| - 1];
      var x := b[|b| - 1];
      assert b == c + [x];
      assert a + b == (a + c) + [x];
      GatherConcat(a, c, kind);
      GatherSnoc(a + c, x, kind);
      GatherSnoc(c, x, kind);
      AppendAssoc(Gather(a, kind), Gather(c, kind), Piece(x, kind));
    }
  }

  /** One file appended to the listing adds its piece at the end. */
  lemma GatherSnoc(listing: seq<Entry>, x: Entry, kind: Source)
    ensures Gather(listing + [x], kind) == Gather(listing, kind) + Piece(x, kind)
  {
    assert (listing + [x])[..|listing|] == listing;
  }

  /**
   * What one more file adds: its contents and an LF to the lemma text when
   * its name ends with `.txt` and starts with `lexemes`, to the rule text
   * when it ends with `.txt` and starts with `lexrules`, and nothing otherwise.
   */
  lemma GatherStep(listing: seq<Entry>, e: Entry)
    ensures Gather(listing + [e], LemmaSource) == Gather(listing, LemmaSource) +
              if EndsWith(e.name, ".txt") && StartsWith(e.name, "lexemes") then e.contents + "\n" else ""
    ensures Gather(listing + [e], RuleSource) == Gather(listing, RuleSource) +
              if EndsWith(e.name, ".txt") && StartsWith(e.name, "lexrules") then e.contents + "\n" else ""
  {
    GatherSnoc(listing, e, LemmaSource);
    GatherSnoc(listing, e, RuleSource);
    ClassifySpec(e.name);
  }

  /**
   * `GatherStep` restated for the loop of `CollectLemmata`, in its `elif`
   * shape: the rule test is reached only when the lemma test fails.
   */
  lemma GatherNext(listing: seq<Entry>, i: nat)
    requires i < |listing|
    ensures var e := listing[i];
            var isLemma := EndsWith(e.name, ".txt") && StartsWith(e.name, "lexemes");
            var isRule := EndsWith(e.name, ".txt") && StartsWith(e.name, "lexrules");
            Gather(listing[..i + 1], LemmaSource) ==
              (if isLemma then Gather(listing[..i], LemmaSource) + e.contents + "\n" else Gather(listing[..i], LemmaSource)) &&
            Gather(listing[..i + 1], RuleSource) ==
              (if !isLemma && isRule then Gather(listing[..i], RuleSource) + e.contents + "\n" else Gather(listing[..i], RuleSource))
  {
    var e := listing[i];
    assert listing[..i + 1] == listing[..i] + [e];
    GatherSnoc(listing[..i], e, LemmaSource);
    GatherSnoc(listing[..i], e, RuleSource);
    ClassifySpec(e.name);
  }

  /** `'\n'.join(bs)`. */
  function Join(bs: seq<string>): string
    decreases |bs|
  {
    if |bs| == 0 then ""
    else if |bs| == 1 then bs[0]
    else bs[0] + "\n" + Join(bs[1..])
  }

  /** The lemma text as returned: its distinct blocks, sorted, joined by LF. */
  function Normalize(text: string): string
  {
    Join(SortDistinct(FindAll(text)))
  }

  method CollectLemmata(listing: seq<Entry>) returns (lemmata: string, lexrules: string)
    ensures lemmata == Normalize(Gather(listing, LemmaSource))
    ensures lexrules == Gather(listing, RuleSource)
    ensures LemmaFilesClosed(listing) ==> lemmata == PerFileLemmata(listing)
  {
    lemmata := "";
    lexrules := "";
    for i := 0 to |listing|
      invariant lemmata == Gather(listing[..i], LemmaSource)
      invariant lexrules == Gather(listing[..i], RuleSource)
    {
      var entry := listing[i];
      GatherNext(listing, i);
      if EndsWith(entry.name, ".txt") && StartsWith(entry.name, "lexemes") {
        lemmata := lemmata + entry.contents + "\n";
      } else if EndsWith(entry.name, ".txt") && StartsWith(entry.name, "lexrules") {
        lexrules := lexrules + entry.contents + "\n";
      }
    }
    assert listing[..|listing|] == listing;
    var blocks := FindAll(lemmata);
    lemmata := Join(SortDistinct(blocks));
    if LemmaFilesClosed(listing) {
      CollectPerFileAgrees(listing);
    }
  }

  /** Joining blocks yields the empty text exactly when there are none. */
  lemma {:induction false} JoinEmpty(bs: seq<string>)
    requires forall i :: 0 <= i < |bs| ==> IsBlock(bs[i])
    ensures Join(bs) == "" <==> bs == []
    decreases |bs|
  {
    if |bs| > 0 {
      assert |Join(bs)| >= |bs[0]| > 0;
    }
  }

  /** A text laid out in `s` at `p` as `x + y` has `x` at `p` and `y` right after it. */
  lemma SliceSplit(s: string, p: nat, x: string, y: string)
    requires p + |x| + |y| <= |s| && s[p..p + |x| + |y|] == x + y
    ensures s[p..p + |x|] == x && s[p + |x|..p + |x| + |y|] == y
  {
    assert s[p..p + |x|] == s[p..p + |x| + |y|][..|x|];
    assert s[p + |x|..p + |x| + |y|] == s[p..p + |x| + |y|][|x|..];
  }

  /** No block starts at a line feed. */
  lemma NoMatchAtLineFeed(s: string, p: nat)
    requires p < |s| && s[p] == '\n'
    ensures MatchAt(s, p).None?
  {
    if p + |Header| <= |s| {
      assert s[p..p + |Header|][0] != Header[0];
    }
  }

  /** A block that ends the text or is followed by a line feed is found, and the scan goes on after it. */
  lemma FindFromBlock(s: string, p: nat, b: string)
    requires IsBlock(b) && p + |b| <= |s| && s[p..p + |b|] == b
    requires p + |b| == |s| || s[p + |b|] == '\n'
    ensures FindFrom(s, p) == [b] + FindFrom(s, p + |b|)
  {
    MatchAtBlock(s, p, b);
    FindFromMatch(s, p, p + |b|);
  }

  /** A block followed by a line feed is found, and the scan goes on after that line feed. */
  lemma FindFromBlockLineFeed(s: string, p: nat, b: string)
    requires IsBlock(b) && p + |b| < |s| && s[p..p + |b|] == b && s[p + |b|] == '\n'
    ensures FindFrom(s, p) == [b] + FindFrom(s, p + |b| + 1)
  {
    MatchAtBlock(s, p, b);
    NoMatchAtLineFeed(s, p + |b|);
    FindFromMatchSkip(s, p, p + |b|);
  }

  /** Every element of `bs` is a block (stated element by element, front to back). */
  predicate AllBlocks(bs: seq<string>)
    decreases |bs|
  {
    bs == [] || (IsBlock(bs[0]) && AllBlocks(bs[1..]))
  }

  lemma {:induction false} AllBlocksIff(bs: seq<string>)
    ensures AllBlocks(bs) <==> forall i :: 0 <= i < |bs| ==> IsBlock(bs[i])
    decreases |bs|
  {
    if bs != [] {
      AllBlocksIff(bs[1..]);
      assert forall i :: 1 <= i < |bs| ==> bs[i] == bs[1..][i - 1];
    }
  }

  /**
   * The blocks `bs` lie in `s` from `p` to `e`, one LF between neighbours,
   * and the last is followed by the end of `s` or by an LF.
   */
  predicate LaidOut(s: string, p: nat, bs: seq<string>, e: nat)
    decreases |bs|
  {
    if bs == [] then e == p
    else
      var b := bs[0];
      p + |b| <= |s| && s[p..p + |b|] == b &&
      if |bs| == 1 then e == p + |b| && (e == |s| || s[e] == '\n')
      else p + |b| < |s| && s[p + |b|] == '\n' && LaidOut(s, p + |b| + 1, bs[1..], e)
  }

  /**
   * Scanning blocks laid out with LF between them finds exactly those
   * blocks: each is the longest match at its place, and the LF after it
   * starts no match.
   */
  lemma {:induction false} FindFromLaidOut(s: string, p: nat, bs: seq<string>, e: nat)
    requires AllBlocks(bs)
    requires LaidOut(s, p, bs, e) && p <= |s|
    ensures e <= |s|
    ensures FindFrom(s, p) == bs + FindFrom(s, e)
    decreases |bs|, 1
  {
    if |bs| == 0 {
      assert bs + FindFrom(s, p) == FindFrom(s, p);
    } else if |bs| == 1 {
      FindFromBlock(s, p, bs[0]);
      assert bs == [bs[0]];
    } else {
      FindFromLaidOutMany(s, p, bs, e);
    }
  }

  /** The step of `FindFromLaidOut` with two or more blocks: the first, then the rest after its LF. */
  lemma {:induction false} FindFromLaidOutMany(s: string, p: nat, bs: seq<string>, e: nat)
    requires |bs| > 1 && IsBlock(bs[0]) && AllBlocks(bs[1..])
    requires p + |bs[0]| < |s| && s[p..p + |bs[0]|] == bs[0] && s[p + |bs[0]|] == '\n'
    requires LaidOut(s, p + |bs[0]| + 1, bs[1..], e)
    ensures e <= |s|
    ensures FindFrom(s, p) == bs + FindFrom(s, e)
    decreases |bs|, 0
  {
    var q := p + |bs[0]| + 1;
    FindFromLaidOut(s, q, bs[1..], e);
    FindFromBlockLineFeed(s, p, bs[0]);
    PrependFound(FindFrom(s, p), FindFrom(s, q), bs, FindFrom(s, e));
  }

  /** The sequence bookkeeping of one step of `FindFromLaidOut`. */
  lemma PrependFound(found: seq<string>, later: seq<string>, bs: seq<string>, tail: seq<string>)
    requires |bs| > 0
    requires found == [bs[0]] + later && later == bs[1..] + tail
    ensures found == bs + tail
  {
    assert bs == [bs[0]] + bs[1..];
  }

  /** A join of blocks written into `s` at `p` is laid out there. */
  lemma {:induction false} JoinLaidOut(s: string, p: nat, bs: seq<string>)
    requires p + |Join(bs)| <= |s| && s[p..p + |Join(bs)|] == Join(bs)
    requires p + |Join(bs)| == |s| || s[p + |Join(bs)|] == '\n'
    ensures LaidOut(s, p, bs, p + |Join(bs)|)
    decreases |bs|
  {
    if |bs| == 1 {
      assert Join(bs) == bs[0];
    } else if |bs| > 1 {
      JoinLayout(s, p, bs);
      JoinLaidOut(s, p + |bs[0]| + 1, bs[1..]);
    }
  }

  /** Where the first block, the separator and the rest of a join lie in `s`. */
  lemma JoinLayout(s: string, p: nat, bs: seq<string>)
    requires |bs| > 1
    requires p + |Join(bs)| <= |s| && s[p..p + |Join(bs)|] == Join(bs)
    ensures |Join(bs)| == |bs[0]| + 1 + |Join(bs[1..])|
    ensures s[p..p + |bs[0]|] == bs[0] && s[p + |bs[0]|] == '\n'
    ensures s[p + |bs[0]| + 1..p + |Join(bs)|] == Join(bs[1..])
  {
    var b, j := bs[0], Join(bs[1..]);
    assert Join(bs) == (b + "\n") + j;
    SliceSplit(s, p, b + "\n", j);
    SliceSplit(s, p, b, "\n");
    assert s[p + |b|] == s[p + |b|..p + |b| + 1][0];
  }

  /** The output file read back holds the same blocks: LF-joined blocks re-extract to themselves. */
  lemma FindAllJoin(bs: seq<string>)
    requires forall i :: 0 <= i < |bs| ==> IsBlock(bs[i])
    ensures FindAll(Join(bs)) == bs
    ensures FindAll(Join(bs) + "\n") == bs
  {
    AllBlocksIff(bs);
    FindAllJoinPlain(bs);
    FindAllJoinLineFeed(bs);
  }

  lemma FindAllJoinPlain(bs: seq<string>)
    requires AllBlocks(bs)
    ensures FindAll(Join(bs)) == bs
  {
    var s := Join(bs);
    assert s[0..|s|] == s;
    JoinLaidOut(s, 0, bs);
    FindFromLaidOut(s, 0, bs, |s|);
    assert bs + FindFrom(s, |s|) == bs;
  }

  lemma FindAllJoinLineFeed(bs: seq<string>)
    requires AllBlocks(bs)
    ensures FindAll(Join(bs) + "\n") == bs
  {
    var s := Join(bs);
    var t := s + "\n";
    assert t[0..|s|] == s;
    assert t[|s|] == '\n';
    JoinLaidOut(t, 0, bs);
    FindFromLaidOut(t, 0, bs, |s|);
    NoMatchAtLineFeed(t, |s|);
    assert FindFrom(t, |s|) == FindFrom(t, |t|) == [];
    assert bs + FindFrom(t, |s|) == bs;
  }

  /** The blocks of the normalised text are the extracted blocks, distinct and strictly increasing. */
  lemma NormalizeBlocks(text: string)
    ensures var bs := SortDistinct(FindAll(text));
            Normalize(text) == Join(bs) && StrictlyIncreasing(bs) &&
            (forall b :: b in bs <==> b in FindAll(text)) &&
            (forall i :: 0 <= i < |bs| ==> IsBlock(bs[i]))
  {
    FindAllBlocks(text);
    var bs := SortDistinct(FindAll(text));
    forall i | 0 <= i < |bs| ensures IsBlock(bs[i]) {
      assert bs[i] in FindAll(text);
    }
  }

  /**
   * Python sorts an unordered set: any strictly increasing arrangement of the
   * extracted blocks, joined by LF, is the normalised text.
   */
  lemma NormalizeIsSortedSet(text: string, bs: seq<string>)
    requires StrictlyIncreasing(bs)
    requires forall b :: b in bs <==> b in FindAll(text)
    ensures Normalize(text) == Join(bs)
  {
    IncreasingUnique(SortDistinct(FindAll(text)), bs);
  }

  /** The normalised text is empty exactly when no block matches. */
  lemma NormalizeEmpty(text: string)
    ensures Normalize(text) == "" <==> FindAll(text) == []
  {
    NormalizeBlocks(text);
    var bs := SortDistinct(FindAll(text));
    JoinEmpty(bs);
    if FindAll(text) != [] {
      assert FindAll(text)[0] in bs;
    }
  }

  /**
   * Collecting again from the output, read as a lemma file (so with the LF
   * the collector appends) or as it stands, gives the output back.
   */
  lemma NormalizeIdempotent(text: string)
    ensures Normalize(Normalize(text) + "\n") == Normalize(text)
    ensures Normalize(Normalize(text)) == Normalize(text)
  {
    NormalizeBlocks(text);
    var bs := SortDistinct(FindAll(text));
    FindAllJoin(bs);
    SortDistinctFixed(bs);
  }

  /** A directory holding only the written `lexemes.txt` collects to the same lemma text. */
  lemma CollectFixpoint(listing: seq<Entry>)
    ensures var out := Normalize(Gather(listing, LemmaSource));
            Normalize(Gather([Entry("lexemes.txt", out)], LemmaSource)) == out
  {
    var out := Normalize(Gather(listing, LemmaSource));
    var written := Entry("lexemes.txt", out);
    assert "lexemes.txt"[..7] == "lexemes" && "lexemes.txt"[7..] == ".txt";
    assert Classify(written.name) == LemmaSource;
    assert [written][1..] == [];
    assert Gather([written], LemmaSource) == out + "\n";
    NormalizeIdempotent(Gather(listing, LemmaSource));
  }

  // The lemma files are concatenated before the pattern is applied, so a
  // block that opens in one file can take in the lines that open the next.
  // A file whose contents are empty or end with LF ends, once the collector
  // appends its LF, with an empty line, which no block runs past.

  /** Contents that are empty or end with LF. */
  predicate LineClosed(c: string)
  {
    c == [] || c[|c| - 1] == '\n'
  }

  /** Every lemma file of the listing has line-closed contents. */
  predicate LemmaFilesClosed(listing: seq<Entry>)
  {
    forall e :: e in listing && Classify(e.name) == LemmaSource ==> LineClosed(e.contents)
  }

  /** The blocks of each lemma file taken on its own, in listing order. */
  function PerFileBlocks(listing: seq<Entry>): seq<string>
    decreases |listing|
  {
    if listing == [] then []
    else PerFileBlocks(listing[..|listing| - 1]) + FindAll(Piece(listing[|listing| - 1], LemmaSource))
  }

  /** The lemma text made of each lemma file's own blocks, distinct, sorted and joined by LF. */
  function PerFileLemmata(listing: seq<Entry>): string
  {
    Join(SortDistinct(PerFileBlocks(listing)))
  }

  /** With line-closed lemma files, the gathered lemma text is empty or ends with an empty line. */
  lemma {:induction false} GatherSeparated(listing: seq<Entry>)
    requires LemmaFilesClosed(listing)
    ensures Gather(listing, LemmaSource) == [] || EndsWithEmptyLine(Gather(listing, LemmaSource))
    decreases |listing|
  {
    if listing != [] {
      var init := listing[..|listing| - 1];
      var last := listing[|listing| - 1];
      ClosedInit(listing);
      GatherSeparated(init);
      var g := Gather(init, LemmaSource);
      if Classify(last.name) == LemmaSource {
        AppendClosed(g, last.contents);
      } else {
        assert g + Piece(last, LemmaSource) == g;
      }
    }
  }

  /** Dropping the last file keeps the lemma files line-closed; the last one, if a lemma file, is line-closed too. */
  lemma ClosedInit(listing: seq<Entry>)
    requires listing != [] && LemmaFilesClosed(listing)
    ensures LemmaFilesClosed(listing[..|listing| - 1])
    ensures Classify(listing[|listing| - 1].name) == LemmaSource ==> LineClosed(listing[|listing| - 1].contents)
  {
    assert listing[|listing| - 1] in listing;
    forall e | e in listing[..|listing| - 1]
      ensures e in listing
    {
    }
  }

  /** Appending a line-closed file and its LF to a separated text leaves it ending with an empty line. */
  lemma AppendClosed(g: string, c: string)
    requires g == [] || EndsWithEmptyLine(g)
    requires LineClosed(c)
    ensures EndsWithEmptyLine(g + c + "\n")
  {
    var t := g + c + "\n";
    if c == [] {
      assert t == g + "\n";
      if g != [] {
        assert t[|t| - 2] == g[|g| - 1];
      }
    } else {
      assert t[|t| - 2] == c[|c| - 1];
    }
  }

  /**
   * With line-closed lemma files, `findall` over the gathered lemma text finds
   * exactly the blocks of the files taken one by one, in listing order.
   */
  lemma {:induction false} GatherBlocks(listing: seq<Entry>)
    requires LemmaFilesClosed(listing)
    ensures FindAll(Gather(listing, LemmaSource)) == PerFileBlocks(listing)
    decreases |listing|
  {
    if listing == [] {
      assert FindAll("") == [];
    } else {
      var init := listing[..|listing| - 1];
      var piece := Piece(listing[|listing| - 1], LemmaSource);
      ClosedInit(listing);
      GatherBlocks(init);
      GatherSeparated(init);
      var g := Gather(init, LemmaSource);
      if g == [] {
        assert g + piece == piece;
        assert FindAll(g) == [];
      } else {
        FindAllConcat(g, piece);
      }
    }
  }

  /** A block comes from the per-file blocks exactly when some file of the listing yields it on its own. */
  lemma {:induction false} PerFileBlocksMembers(listing: seq<Entry>)
    ensures forall b :: b in PerFileBlocks(listing) <==>
              exists e :: e in listing && b in FindAll(Piece(e, LemmaSource))
    decreases |listing|
  {
    if listing != [] {
      var init := listing[..|listing| - 1];
      var last := listing[|listing| - 1];
      PerFileBlocksMembers(init);
      assert listing == init + [last];
      forall b | b in PerFileBlocks(listing)
        ensures exists e :: e in listing && b in FindAll(Piece(e, LemmaSource))
      {
        if b in PerFileBlocks(init) {
          var e :| e in init && b in FindAll(Piece(e, LemmaSource));
          assert e in listing;
        } else {
          assert last in listing;
        }
      }
    }
  }

  /** The per-file lemma text depends only on which files the listing holds, not on their order. */
  lemma PerFileOrderFree(a: seq<Entry>, b: seq<Entry>)
    requires forall e :: e in a <==> e in b
    ensures PerFileLemmata(a) == PerFileLemmata(b)
  {
    PerFileBlocksMembers(a);
    PerFileBlocksMembers(b);
    SortDistinctBySet(PerFileBlocks(a), PerFileBlocks(b));
  }

  /** With line-closed lemma files, the returned lemma text is the per-file lemma text. */
  lemma CollectPerFileAgrees(listing: seq<Entry>)
    requires LemmaFilesClosed(listing)
    ensures Normalize(Gather(listing, LemmaSource)) == PerFileLemmata(listing)
  {
    GatherBlocks(listing);
  }

  /**
   * With line-closed lemma files, listing the same files in another order,
   * as `os.listdir` may, returns the same lemma text.
   */
  lemma CollectOrderFree(a: seq<Entry>, b: seq<Entry>)
    requires forall e :: e in a <==> e in b
    requires LemmaFilesClosed(a)
    ensures Normalize(Gather(a, LemmaSource)) == Normalize(Gather(b, LemmaSource))
  {
    assert LemmaFilesClosed(b);
    CollectPerFileAgrees(a);
    CollectPerFileAgrees(b);
    PerFileOrderFree(a, b);
  }

  /**
   * Without that condition the lemma text depends on the listing order. The
   * first file below ends inside a block, so the second file's line becomes
   * part of that block when it comes second, and is dropped when it comes first.
   */
  lemma RunOnAcrossFiles()
    ensures var a := Entry("lexemes1.txt", "-lexeme\n a");
            var b := Entry("lexemes2.txt", " b");
            Normalize(Gather([a, b], LemmaSource)) == "-lexeme\n a\n b\n" &&
            Normalize(Gather([b, a], LemmaSource)) == "-lexeme\n a\n" &&
            PerFileLemmata([a, b]) == PerFileLemmata([b, a]) == "-lexeme\n a\n"
  {
    ExampleGather();
    ExampleBlocks();
    OneBlock("-lexeme\n a\n b\n");
    OneBlock("-lexeme\n a\n");
    ExamplePerFile();
  }

  /** The gathered lemma texts of the example, in both orders. */
  lemma ExampleGather()
    ensures var a := Entry("lexemes1.txt", "-lexeme\n a");
            var b := Entry("lexemes2.txt", " b");
            Gather([a, b], LemmaSource) == "-lexeme\n a\n b\n" &&
            Gather([b, a], LemmaSource) == " b\n-lexeme\n a\n" &&
            Piece(a, LemmaSource) == "-lexeme\n a\n" && Piece(b, LemmaSource) == " b\n"
  {
    var a := Entry("lexemes1.txt", "-lexeme\n a");
    var b := Entry("lexemes2.txt", " b");
    ExampleNames();
    ExampleTexts();
    assert [a, b][..1] == [a] && [b, a][..1] == [b];
    assert Gather([a], LemmaSource) == "" + Piece(a, LemmaSource);
    assert Gather([b], LemmaSource) == "" + Piece(b, LemmaSource);
  }

  /** The example's two files, concatenated in either order. */
  lemma ExampleTexts()
    ensures "-lexeme\n a\n" + " b\n" == "-lexeme\n a\n b\n"
    ensures " b\n" + "-lexeme\n a\n" == " b\n-lexeme\n a\n"
    ensures "-lexeme\n a" + "\n" == "-lexeme\n a\n" && " b" + "\n" == " b\n"
  {
  }

  /** Both example files are lemma files. */
  lemma ExampleNames()
    ensures Classify("lexemes1.txt") == LemmaSource && Classify("lexemes2.txt") == LemmaSource
  {
    assert "lexemes1.txt"[..7] == "lexemes" && "lexemes1.txt"[8..] == ".txt";
    assert "lexemes2.txt"[..7] == "lexemes" && "lexemes2.txt"[8..] == ".txt";
  }

  /** What `findall` extracts from the example texts. */
  lemma ExampleBlocks()
    ensures FindAll("-lexeme\n a\n b\n") == ["-lexeme\n a\n b\n"]
    ensures FindAll(" b\n-lexeme\n a\n") == ["-lexeme\n a\n"]
    ensures FindAll("-lexeme\n a\n") == ["-lexeme\n a\n"]
    ensures FindAll(" b\n") == []
  {
    BlockExample("-lexeme\n a\n", "-lexeme\n a\n b\n");
    FindAllJoin(["-lexeme\n a\n b\n"]);
    FindAllJoin(["-lexeme\n a\n"]);
    ExampleSwapped(" b\n", "-lexeme\n a\n");
    ExampleTexts();
    ExampleNoBlock(" b\n");
  }

  /** The second file first: no block in its line, then the first file's block. */
  lemma ExampleSwapped(pb: string, pa: string)
    requires |pb| == 3 && pb[0] == ' ' && pb[1] == 'b' && pb[2] == '\n' && IsBlock(pa)
    ensures FindAll(pb + pa) == [pa]
  {
    var s := pb + pa;
    assert s[0] == ' ' && s[1] == 'b' && s[2] == '\n';
    assert s[3..3 + |pa|] == pa;
    NoHeaderAt(s, 0);
    NoHeaderAt(s, 1);
    NoHeaderAt(s, 2);
    MatchAtBlock(s, 3, pa);
    SkipThenMatch(s, pa);
  }

  /** The scan of a text with no match in its first three places and a match from there to the end. */
  lemma SkipThenMatch(s: string, pa: string)
    requires |s| > 3 && s[3..] == pa
    requires MatchAt(s, 0).None? && MatchAt(s, 1).None? && MatchAt(s, 2).None? && MatchAt(s, 3) == Some(|s|)
    ensures FindAll(s) == [pa]
  {
    FindFromNoMatch(s, 0);
    FindFromNoMatch(s, 1);
    FindFromNoMatch(s, 2);
    FindFromMatch(s, 3, |s|);
    assert s[3..|s|] == pa;
    assert FindFrom(s, |s|) == [];
  }

  /** No block starts at a character other than the header's first. */
  lemma NoHeaderAt(s: string, p: nat)
    requires p < |s| && s[p] != '-'
    ensures MatchAt(s, p).None?
  {
    if p + |Header| <= |s| {
      assert s[p..p + |Header|][0] == s[p];
    }
  }

  /** A line that is not a header holds no block. */
  lemma ExampleNoBlock(pb: string)
    requires pb == " b\n"
    ensures FindAll(pb) == []
  {
    assert FindFrom(pb, 0) == FindFrom(pb, 1) == FindFrom(pb, 2) == FindFrom(pb, 3) == [];
  }

  /** The example files taken one by one. */
  lemma ExamplePerFile()
    ensures var a := Entry("lexemes1.txt", "-lexeme\n a");
            var b := Entry("lexemes2.txt", " b");
            PerFileBlocks([a, b]) == ["-lexeme\n a\n"] && PerFileBlocks([b, a]) == ["-lexeme\n a\n"]
  {
    var a := Entry("lexemes1.txt", "-lexeme\n a");
    var b := Entry("lexemes2.txt", " b");
    ExampleGather();
    ExampleBlocks();
    assert [a, b][..1] == [a] && [b, a][..1] == [b];
    assert PerFileBlocks([a]) == [] + FindAll(Piece(a, LemmaSource));
    assert PerFileBlocks([b]) == [] + FindAll(Piece(b, LemmaSource));
  }

  /** The two blocks of the example above. */
  lemma BlockExample(pa: string, both: string)
    requires pa == "-lexeme\n a\n" && both == "-lexeme\n a\n b\n"
    ensures IsBlock(pa) && IsBlock(both)
  {
    var la := " a\n";
    var lb := " b\n";
    LineIsBody(la);
    LineIsBody(lb);
    BodyConcat(la, lb);
    assert pa[|Header|..] == la && both[|Header|..] == la + lb;
  }

  /** A single block normalises to itself. */
  lemma OneBlock(b: string)
    ensures Normalize(b) == b || FindAll(b) != [b]
  {
    if FindAll(b) == [b] {
      SortDistinctFixed([b]);
    }
  }
}
