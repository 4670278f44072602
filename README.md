# Lemma collector of `pre_build.py`, modelled in Dafny

`collect_lemmata` in `pre_build.py` prepares the lexicon of a morphological
analyser. It walks a directory listing and reads two kinds of files:

- lemma files, named `lexemes*.txt`, go into one text;
- lexical-rule files, named `lexrules*.txt`, go into another text.

Each file's contents, followed by a line feed (LF), is appended to its text.

The lemma text is then reduced to its lexeme blocks. A lexeme block is:

- the header line `-lexeme`;
- one or more continuation lines, each opened by a space.

The blocks are pulled out with `re.findall`. Exact duplicates are dropped,
the rest are sorted, and they are joined with LF. The rule text is returned
unchanged.

The model has four modules:

- `Wrappers`: the `Option` type that the matcher returns.
- `CodePointOrder`: Python's ordering of `str`, which is lexicographic by
  code point.
  - `Less` gives that ordering. `LessIff` ties it to an independent
    definition: proper prefix, or first difference.
  - `SortDistinct` stands for `sorted(set(...))`. It produces the unique
    strictly increasing arrangement of a collection of strings.
- `LexemeScan`: the pattern `-lexeme\n(?: [^\r\n]*\n)+`, written out as a
  scanner.
  - It gives the line (`LineEnd`), the greedy run of lines (`RunEnd`), the
    match at a position (`MatchAt`) and the findall scan (`Scan`, `FindFrom`,
    `FindAll`).
  - Each piece is proved against a structural definition of a block
    (`IsLine`, `IsBody`, `IsBlock`) that does not mention the scanner.
- `Collect`:
  - the file-name classification;
  - the accumulation loop: the method `CollectLemmata`, whose result is
    `Gather`, one file's `Piece` after another;
  - the normalisation `Normalize`;
  - the properties of the whole: extraction gives back the joined output,
    normalisation is idempotent, and re-collecting the written lexicon file
    is a fixpoint;
  - how the files' blocks relate to the output. The pattern runs over the
    concatenation of the lemma files. When every lemma file is empty or ends
    with LF, the blocks found are each file's own blocks, in listing order,
    and the lemma text does not depend on the listing order. Otherwise a
    block can run on into the next file (see "## Findings").

The directory listing is an input sequence of `Entry(name, contents)`, in
listing order, with the contents already read and decoded.

## Model

| member | source | states |
|---|---|---|
| Collect.CollectLemmata | pre_build.py:6-20 | The loop over the listing returns two texts. The lemma text is the normalised text of the gathered lemma files. The rule text is the gathered rule files, verbatim. A loop invariant ties each accumulator to the listing prefix seen so far. When every lemma file is empty or ends with LF, the lemma text is also the sorted, distinct blocks of the files taken one by one. |
| Collect.Classify | pre_build.py:10-14 | Specified by `ClassifySpec`: lemma source, rule source or neither, by the two name tests. |
| Collect.StartsWith | pre_build.py:10-14 | Python's `str.startswith`: the prefix fits in the name and the name begins with it. Used by the two name tests. |
| Collect.EndsWith | pre_build.py:10-14 | Python's `str.endswith`: the suffix fits in the name and the name ends with it. Used by the two name tests. |
| Collect.Piece | pre_build.py:10-17 | What one file adds to an accumulator, specified by `GatherStep`: its contents and an LF, or nothing. |
| Collect.Gather | pre_build.py:9-17 | The accumulator after the whole listing, specified by `GatherStep`, `GatherConcat` and the loop invariant of `CollectLemmata`. |
| Collect.Join | pre_build.py:19 | `'\n'.join`, specified by `JoinEmpty`, `JoinLaidOut` and `FindAllJoin`. |
| Collect.Normalize | pre_build.py:18-19 | The returned lemma text, specified by `NormalizeBlocks`, `NormalizeIsSortedSet` and `NormalizeEmpty`. |
| Collect.ClassifySpec | pre_build.py:10-14 | A file is a lemma source exactly when its name ends with `.txt` and starts with `lexemes`. It is a rule source exactly when its name ends with `.txt` and starts with `lexrules`. This holds even though the rule test sits in an `elif`. |
| Collect.NamesExclusive | pre_build.py:10-14 | No name passes both prefix tests. |
| Collect.GatherStep | pre_build.py:10-17 | One more file appends its contents plus LF to the lemma text when it passes the lemma test, and to the rule text when it passes the rule test. Otherwise neither text changes. |
| Collect.GatherConcat | pre_build.py:9-17 | Gathering a listing split in two is the concatenation of the two gathered texts. Each text is therefore the per-file pieces in listing order, with nothing reordered or removed. |
| Collect.NormalizeBlocks | pre_build.py:18-19 | The returned lemma text is the LF-join of a strictly increasing sequence. That sequence holds exactly the strings `findall` extracted, and every element is a block. |
| Collect.NormalizeIsSortedSet | pre_build.py:18-19 | Any strictly increasing sequence with the same elements as the extracted blocks joins to the returned text. The result therefore depends only on the set of matches, as `sorted(set(...))` does. |
| Collect.NormalizeEmpty | pre_build.py:18-19 | The returned lemma text is empty exactly when no block matches. |
| Collect.FindAllJoin | pre_build.py:18-19 | Blocks joined by LF, or joined and followed by LF, extract again to exactly that sequence of blocks. |
| Collect.NormalizeIdempotent | pre_build.py:18-19 | Normalising the returned lemma text again gives it back. This holds whether the text stands alone or is followed by the LF the loop appends. |
| Collect.CollectFixpoint | pre_build.py:6-20 | Suppose a listing holds only a `lexemes.txt` file whose contents are a returned lemma text. Collecting that listing gives the same lemma text back. |
| Collect.JoinEmpty | pre_build.py:19 | A join of blocks is empty exactly when there are no blocks. |
| Collect.FindFromLaidOut | pre_build.py:18 | Blocks written one after another with one LF between them are found by the scan, in order, as exactly those blocks. |
| Collect.JoinLaidOut | pre_build.py:19 | Within the joined text, each block is followed by exactly one LF, except the last. |
| LexemeScan.FirstBreak | pre_build.py:18 | `[^\r\n]*` taken greedily: the result is the first CR or LF at or after the start, or the end of the text, and no CR or LF lies before it. |
| LexemeScan.LineEnd | pre_build.py:18 | A line found is a continuation line (`IsLine`). `LineEndExact` states the converse. |
| LexemeScan.RunEnd | pre_build.py:18 | The end of the greedy run of lines, specified by `RunEndSpec`. |
| LexemeScan.MatchAt | pre_build.py:18 | A match ends past the header and inside the text. It is specified by `MatchAtSpec`, `MatchStops` and `MatchAtBlock`. |
| LexemeScan.FindFrom | pre_build.py:18 | The strings `findall` collects from a position, specified by `FindFromSpans` through `Scan`. |
| LexemeScan.FindAll | pre_build.py:18 | `re.findall` with the block pattern, specified by `FindAllBlocks`, `FindFromSpans` and `ScanLeftmost`. |
| LexemeScan.LineEndExact | pre_build.py:18 | The group ` [^\r\n]*\n`, tried at a position, succeeds exactly when a continuation line starts there, and it ends where that line ends. |
| LexemeScan.RunEndSpec | pre_build.py:18 | The greedy run of lines is a body whenever it is non-empty. No further line follows it, and no longer body starts at the same place. |
| LexemeScan.MatchAtSpec | pre_build.py:18 | A match at a position is a block. Every block starting there ends within the match, so the match is the longest block at that position. |
| LexemeScan.MatchStops | pre_build.py:18 | A match's run stops only where no continuation line starts. That is the end of the text, a line not opened by a space, or a line that has a CR before its LF or no LF at all. |
| LexemeScan.MatchAtBlock | pre_build.py:18 | A block followed by the end of the text, or by anything but a space, is matched exactly. |
| LexemeScan.Scan | pre_build.py:18 | The matches found lie inside the text. Each is the pattern's match at its own start, and they appear left to right without overlapping. |
| LexemeScan.ScanLeftmost | pre_build.py:18 | No match starts at any position that the scan passed over outside a match. |
| LexemeScan.FindFromSpans | pre_build.py:18 | The strings extracted are the texts of the spans the scan reports. |
| LexemeScan.FindAllBlocks | pre_build.py:18 | Every extracted string is a contiguous substring of the lemma text at its span. It is a block, and no longer block starts at the same position. |
| LexemeScan.FindSuffix | pre_build.py:18 | The findall scan written over what remains of the text, specified by `FindFromSuffix`. |
| LexemeScan.FindFromSuffix | pre_build.py:18 | What the scan finds from a position depends only on the text from that position on. |
| LexemeScan.FindFromPrefix | pre_build.py:12-18 | Suppose a text ends with an empty line. Scanning it followed by more text first finds the text's own blocks, then goes on at the seam. No match crosses the seam. |
| LexemeScan.FindAllConcat | pre_build.py:12-18 | If the first text ends with an empty line, `findall` over two texts joined is the first text's matches followed by the second's. |
| Collect.GatherSeparated | pre_build.py:9-12 | When every lemma file is empty or ends with LF, the lemma text gathered so far is empty or ends with an empty line. |
| Collect.GatherBlocks | pre_build.py:9-18 | When every lemma file is empty or ends with LF, `findall` over the gathered lemma text finds exactly each file's own blocks, file by file in listing order. |
| Collect.PerFileBlocks | pre_build.py:12-18 | Each lemma file's own blocks in listing order, specified by `GatherBlocks` and `PerFileBlocksMembers`. |
| Collect.PerFileBlocksMembers | pre_build.py:12-18 | A string is among the per-file blocks exactly when some file of the listing yields it on its own. So, when every lemma file is empty or ends with LF (`GatherBlocks`), the output's blocks are the union of the files' blocks. |
| Collect.PerFileLemmata | pre_build.py:12-19 | The lemma text built from each file's own blocks, specified by `PerFileOrderFree` and `CollectPerFileAgrees`. |
| Collect.PerFileOrderFree | pre_build.py:9-19 | The per-file lemma text depends only on which files are listed, not on their order or repetition. |
| Collect.CollectPerFileAgrees | pre_build.py:9-19 | When every lemma file is empty or ends with LF, the returned lemma text is the per-file lemma text. |
| Collect.CollectOrderFree | pre_build.py:9-19 | When every lemma file is empty or ends with LF, two listings of the same files give the same lemma text, whatever their order. |
| Collect.RunOnAcrossFiles | pre_build.py:9-19 | There are two lemma files whose lemma text depends on the listing order. The first has no final LF, so its block takes in the second file's line when that file comes after it. The per-file lemma text is the same in both orders. |
| CodePointOrder.Less | pre_build.py:19 | The order `sorted` uses on `str`, specified by `LessIff` and the order lemmas below. |
| CodePointOrder.LessIff | pre_build.py:19 | The ordering used by `sorted` is "proper prefix, or smaller code point at the first difference". |
| CodePointOrder.LessIrreflexive | pre_build.py:19 | No string is less than itself. |
| CodePointOrder.LessAsymmetric | pre_build.py:19 | No two strings are each less than the other. |
| CodePointOrder.LessTransitive | pre_build.py:19 | The ordering is transitive. |
| CodePointOrder.LessTotal | pre_build.py:19 | Any two distinct strings are ordered one way or the other. |
| CodePointOrder.Insert | pre_build.py:19 | Inserting into a strictly increasing sequence keeps it strictly increasing and adds exactly the new element. |
| CodePointOrder.SortDistinct | pre_build.py:18-19 | The result is strictly increasing and has exactly the elements of the input. |
| CodePointOrder.IncreasingUnique | pre_build.py:18-19 | Two strictly increasing sequences with the same elements are equal. |
| CodePointOrder.SortDistinctBySet | pre_build.py:18-19 | Inputs with the same elements sort to the same sequence, whatever their order or repetitions. |
| CodePointOrder.SortDistinctFixed | pre_build.py:19 | A strictly increasing sequence sorts to itself. |

## Left out

- File input and output is not modelled. This covers opening and reading the files, stripping the `utf-8-sig` byte-order mark, UTF-8 decoding, and writing the results (pre_build.py:11-13, 15-17, 31-33). The contents arrive already decoded in each `Entry`.
- Python's universal-newline translation on read is not modelled. In text mode it turns CR and CRLF in the files into LF, so contents that were actually read hold no CR. The model accepts any contents and keeps the pattern's exclusion of CR, which covers that case too.
- The order of `os.listdir` is not modelled. It is platform-dependent, so the listing is an input in a given order.
  - The rule text depends on it.
  - The lemma text does not depend on it when every lemma file is empty or ends with LF (`Collect.CollectOrderFree`).
  - Otherwise the lemma text can depend on it (`Collect.RunOnAcrossFiles`, under "## Findings").
  - The order in which the matches are found never matters (`NormalizeIsSortedSet`, `CodePointOrder.SortDistinctBySet`).
- `prepare_files` (pre_build.py:23-44) only copies and writes files, so it is not modelled. `Collect.CollectFixpoint` states the one property of the lemma text it writes.
- `parse_wordlists` (pre_build.py:47-56) calls an external analyser whose code is not part of this model.
- The `__main__` driver (pre_build.py:59-61) is not modelled.
- `CodePointOrder.Less` works on Dafny `char`, which holds Unicode scalar values. Python strings can also hold lone surrogate code points. Those cannot come from UTF-8 decoding, so the comparison agrees on every text this code reads.
- Python's set and `re` module are not modelled as library code. `set` followed by `sorted` is modelled as `SortDistinct` applied to the list of matches. `re.findall` is modelled as the explicit scanner `FindAll`; the `re.DOTALL` flag changes nothing, because the pattern has no `.`.

## Findings

| source | as written | input that shows it | evidently intended | confidence | as-written member | corrected member |
|---|---|---|---|---|---|---|
| pre_build.py:12-18 | The pattern runs over all lemma files concatenated. A file whose contents do not end with LF gets only one LF after its last line, so no empty line closes its last block. Lines of the next file that open with a space then join that block. | `lexemes1.txt` holding `-lexeme\n a` and `lexemes2.txt` holding ` b`. Listed in that order, the lemma text is `-lexeme\n a\n b\n`. Listed the other way round, it is `-lexeme\n a\n`. | Each file contributes its own blocks, and the result does not depend on the order of `os.listdir`. | medium; not executed | Collect.RunOnAcrossFiles | Collect.PerFileLemmata |
