# create_passages: passages from extracted Wikipedia articles

This project models the core of `sspt/create_passages.py`. The program
reads articles `{"id", "text"}` and strips and normalises each text. It
splits the text into paragraphs on blank lines. A greedy accumulator then
packs consecutive paragraphs into passages of roughly
`target_passage_length` characters. Every kept passage is counted in a
20-slot `int32` histogram of `floor(log2(length))`. Kept passages are
written as `{"id", "contents"}` records to numbered shard files of
100000 records each.

The model has five modules:

- `Text` (`text.dfy`): ASCII whitespace, Python's `str.strip()` and
  `str.count()`.
- `ParagraphSplit` (`split.dfy`): `re.split(r"\s*\n\s*\n\s*", text)`,
  where `re` is the third-party `regex` module (line 1). The
  splitter finds maximal whitespace runs that hold at least two line feeds.
  It is proved against an independent description of the split
  (`IsParagraphSplit`), in both directions: `Cut` satisfies the
  description, and the description admits no other decomposition.
- `Histogram` (`histogram.dfy`): the `int32` slots with two's-complement
  wrap-around, the integer floor-log2, and the clamp to slot 19.
- `Shards` (`shards.dfy`): the shard-rotation state `out`, `file_count` and
  `file_doc_count`, as the class `ShardWriter`. The files are a sequence of
  record sequences.
- `Passages` (`passages.dfy`): the per-document loop, as the method
  `BuildPassages`. It mutates the string accumulator, the histogram array
  and the writer.
  - The loop is proved against `ScanPrefix`, a state machine over paragraph
    indices. Its state is the first paragraph still in the accumulator plus
    the windows `[lo, hi)` of paragraphs offered for emission so far.
  - `Kept` turns the windows into records.
  - `Emitted` cuts the records at the first one whose stripped text is
    empty. There `math.log2(0)` raises and the run ends.
- `CreatePassages` (`driver.dfy`): the loop over documents, as the method
  `Convert`. It starts from a zeroed histogram and a fresh writer, and stops
  at the first crash.

Three behaviours of the code are easy to miss; the model follows the
code:

- The `--max_newlines` option promises a "Maximum number of newlines in a
  passage" (lines 39-40), but the parsed value is never read. The newline
  test uses the literal 7 (line 77).
- A kept passage that is empty after stripping is not excluded. It makes
  `math.log2` raise (line 79), and the model reports this as `crashed`.
  This also happens under the default thresholds (50, 2000, 300). Take a
  text that normalises to whitespace only, with fewer than two line
  feeds. Its length must be at least `min_length` and at least
  `target_passage_length - 2`, and at most `max_length`, since a longer
  paragraph is discarded at line 69. Such a text is a single paragraph
  that reaches the target, and it strips to nothing.
  An example is 298 copies of U+00B4: `strip()` keeps them, and NFKD
  turns each into a space plus a combining accent, which is then removed.
  `DefaultSettingsCrash` states this case.
- The separator is any whitespace run holding at least two line feeds. `\s` also
  matches line feeds, so the run is not limited to horizontal whitespace
  around the line feeds.

## Model

| member | source | states |
|---|---|---|
| `Text.TrimStartCut` | sspt/create_passages.py:76 | stripping the front removes exactly the leading whitespace: what is left is a suffix whose first character is not whitespace |
| `Text.TrimEndCut` | sspt/create_passages.py:76 | stripping the back removes exactly the trailing whitespace: what is left is a prefix whose last character is not whitespace |
| `Text.StripIsStripOf` | sspt/create_passages.py:76 | `Strip(s)` is a slice of `s` with only whitespace cut off on either side, and neither of its ends is whitespace |
| `Text.Strip` | sspt/create_passages.py:76 | the stripped text is no longer than the input, and neither of its ends is whitespace |
| `Text.StripAllSpace` | sspt/create_passages.py:76 | a text made only of whitespace strips to the empty string |
| `Text.StripUnique` | sspt/create_passages.py:57 | that description of `str.strip()` determines the result uniquely |
| `Text.Count` | sspt/create_passages.py:77 | `str.count` never exceeds the length of the text |
| `Text.CountZero` | sspt/create_passages.py:77 | the count is zero exactly when the character does not occur |
| `ParagraphSplit.RunEnd` | sspt/create_passages.py:50 | the greedy `\s*` stops at the end of the maximal whitespace run |
| `ParagraphSplit.FindBoundary` | sspt/create_passages.py:50 | a reported match of the separator pattern is all whitespace, holds at least two line feeds, and is a maximal whitespace run |
| `ParagraphSplit.FindBoundaryIsLeftmost` | sspt/create_passages.py:50 | the search misses no blank line: none lies before the reported match, and none lies after the start when no match is reported |
| `ParagraphSplit.Split` | sspt/create_passages.py:63 | `re.split` returns at least one paragraph |
| `ParagraphSplit.Cut` | sspt/create_passages.py:63 | the split yields exactly one more paragraph than separators |
| `ParagraphSplit.CutIsParagraphSplit` | sspt/create_passages.py:63 | paragraphs interleaved with the separators give back the text; every separator is a whitespace run with two or more line feeds; no paragraph contains a blank line; inner paragraphs are non-empty and no paragraph touches a separator's whitespace |
| `ParagraphSplit.ParagraphSplitUnique` | sspt/create_passages.py:63 | any decomposition that meets that description is the one the split computes |
| `Histogram.Inc` | sspt/create_passages.py:82 | `+= 1` on an `int32` slot is the 32-bit two's-complement wrap of the successor, and the plain successor below the maximum |
| `Histogram.Wrap32Congruent` | sspt/create_passages.py:82 | the wrapped value is the one `int32` value congruent to the unbounded count modulo 2^32 |
| `Histogram.IncWrap32` | sspt/create_passages.py:82 | counting one more commutes with the 32-bit wrap |
| `Histogram.Log2` | sspt/create_passages.py:79 | `2^r <= n < 2^(r+1)`, i.e. `int(math.log2(n))` for positive `n` |
| `Histogram.Bucket` | sspt/create_passages.py:79-81 | the slot is below 20; below slot 19 the length lies in `[2^b, 2^(b+1))`; in slot 19 it is at least `2^19` |
| `Histogram.Tally` | sspt/create_passages.py:79-82 | counting passages keeps the 20 slots |
| `Histogram.TallyAt` | sspt/create_passages.py:79-82 | after counting passages, each slot has grown (modulo 2^32) by exactly the number of passages in its bucket, and by nothing else |
| `Histogram.TallyAppend` | sspt/create_passages.py:82 | counting two runs of passages one after the other is counting their concatenation |
| `Histogram.TallyLast` | sspt/create_passages.py:82 | while its slot is below the `int32` maximum, one more passage adds exactly 1 to its slot and changes no other |
| `Histogram.TallySum` | sspt/create_passages.py:82-83 | while no slot overflows, the slots' sum grows by exactly the number of passages counted |
| `Histogram.SumZeros` | sspt/create_passages.py:49 | the zeroed histogram's slots sum to zero |
| `Shards.ShardWriter.constructor` | sspt/create_passages.py:45-47 | no file is open, none has been opened, and nothing has been written |
| `Shards.ShardWriter.Write` | sspt/create_passages.py:89-97 | the record is appended to the stream; a new file is opened exactly when none is open or the open one holds 100000 records; the files stay the stream cut into 100000-record chunks |
| `Shards.ChunksSnoc` | sspt/create_passages.py:89-97 | appending a record extends the last file, or starts a new one when there is none or it is full |
| `Shards.ChunksWellFormed` | sspt/create_passages.py:44 | no file is empty or holds more than 100000 records, every file but the last is full, and the files concatenated in index order are the records in write order |
| `Shards.ChunksOfWellFormed` | sspt/create_passages.py:89-97 | any such arrangement of files is determined by its records: it is their cut into chunks |
| `Shards.ChunksCount` | sspt/create_passages.py:94-95 | the number of files opened is the number of records divided by 100000, rounded up |
| `Passages.ScanPrefix` | sspt/create_passages.py:65-98 | every offered window is non-empty and lies before the current accumulator, so what the accumulator holds at the end of the document is never offered; there are at most as many windows as paragraphs consumed (the effect of a single step is stated by `Passages.Advance`) |
| `Passages.Glue` | sspt/create_passages.py:74 | the accumulator is empty exactly when no paragraph has been appended |
| `Passages.GlueSnoc` | sspt/create_passages.py:74 | appending a paragraph adds it and then `"\n\n"` to the accumulator |
| `Passages.Contents` | sspt/create_passages.py:76 | a window's passage is stripped: neither of its ends is whitespace |
| `Passages.Kept` | sspt/create_passages.py:77 | at most one record per attempt; every record carries the document's id and has at most 7 line feeds |
| `Passages.KeptIndices` | sspt/create_passages.py:77 | the attempts that are kept, by position, in increasing order |
| `Passages.KeptAreAttempts` | sspt/create_passages.py:85-87 | record `i` is the stripped text of the paragraphs of the `i`-th kept attempt, with the document's id |
| `Passages.DroppedAttempts` | sspt/create_passages.py:77 | every attempt that is not kept has more than 7 line feeds |
| `Passages.Emitted` | sspt/create_passages.py:79 | the records written are a prefix of the kept records; none of them is empty; when the prefix stops short, the next record is empty |
| `Passages.DocumentPassages` | sspt/create_passages.py:67-98 | a document yields at most one record per paragraph |
| `Passages.DocumentRecords` | sspt/create_passages.py:77-87 | every record of a document carries that document's id and has at most 7 line feeds |
| `Passages.ScanInvariant` | sspt/create_passages.py:67-76 | every offered window starts with a paragraph of at least the minimum length, holds no paragraph over the maximum, reaches the target only with its last paragraph, and is otherwise below it |
| `Passages.ScanOrdered` | sspt/create_passages.py:74-76 | the offered windows come in paragraph order and do not overlap |
| `Passages.ScanExtends` | sspt/create_passages.py:67-98 | later paragraphs only add windows after the existing ones; the windows offered so far stay |
| `Passages.KeptPrefix` | sspt/create_passages.py:67-98 | the records kept from a prefix of the paragraphs are a prefix of the document's records |
| `Passages.LongParagraphDiscards` | sspt/create_passages.py:69-71 | a paragraph over the maximum empties the accumulator without offering it, and lies in no offered window |
| `Passages.ShortParagraphRule` | sspt/create_passages.py:72-74 | a short paragraph reaching an empty accumulator is skipped and lies in no window; reaching a non-empty one, it is appended and either grows the accumulator or completes an attempt |
| `Passages.Advance` | sspt/create_passages.py:68-76 | one paragraph takes the state machine one step; the accumulator holds the glued paragraphs from the new start; a paragraph over the maximum, or a short one reaching an empty accumulator, leaves it empty and offers nothing; a passage is offered only when the untrimmed accumulator reached the target, it is the stripped text of the new window, and the accumulator is then empty |
| `Passages.EmitPassage` | sspt/create_passages.py:77-97 | a passage with at most 7 line feeds and non-empty text increments its slot and is written; one with more is dropped; an empty one raises before anything changes |
| `Passages.EmptyPassageStops` | sspt/create_passages.py:79 | when a kept passage is empty, the records before it are exactly the document's emitted records, and some are lost |
| `Passages.DefaultSettingsCrash` | sspt/create_passages.py:79 | with thresholds 50, 2000 and 300, a document whose only paragraph is 298 whitespace characters has one kept record, that record is empty, and nothing is written |
| `Passages.AllAccumulated` | sspt/create_passages.py:98 | at the end of a document the records are all its kept attempts; the unfinished accumulator is dropped |
| `Passages.BuildPassages` | sspt/create_passages.py:65-98 | the records written are the document's kept attempts up to the first empty one; `crashed` says whether one was empty; `passage_count` is their number; the histogram counts exactly them; the writer receives them in order |
| `CreatePassages.Paragraphs` | sspt/create_passages.py:57-63 | a document's text always yields at least one paragraph |
| `CreatePassages.Zeros` | sspt/create_passages.py:49 | 20 slots, all zero |
| `CreatePassages.HistogramTotal` | sspt/create_passages.py:49-83 | counting records into the zeroed histogram, the slots add up to the number of records unless some slot reaches 2^31 |
| `CreatePassages.AllPassagesPrefix` | sspt/create_passages.py:51 | the records of the first documents come first, in document order |
| `CreatePassages.NextDocument` | sspt/create_passages.py:51 | the records of one more document follow those of the documents before it |
| `CreatePassages.AllPassagesRecords` | sspt/create_passages.py:77-87 | every record of the run carries the id of one of its documents and has at most 7 line feeds |
| `CreatePassages.CrashedRun` | sspt/create_passages.py:79 | an empty passage in one document ends the whole run with the records written so far |
| `CreatePassages.Convert` | sspt/create_passages.py:44-98 | the shards hold every record of the documents, in order, up to the first empty passage, and `crashed` says whether there was one; the histogram counts exactly the records written; no shard is empty or over 100000 records and every shard but the last is full |
| `CreatePassages.RunTotal` | sspt/create_passages.py:49-83 | the records a run writes are all non-empty, and unless some slot reaches 2^31 the histogram `Convert` leaves sums to the number of records written |

## Left out

- Argument parsing, `os.makedirs`, file enumeration and line reading (lines 27-43 and 51). `Convert` takes the documents, the thresholds and the normaliser as parameters.
- `json.loads` and `json.dumps` (lines 56 and 96). A document is its `id` and `text`; a record is its `id` and `contents`.
- gzip: opening, writing and closing files (lines 90, 94, 96 and 100-101). A shard is the sequence of records written to it, and a closed file is one that is no longer the last.
- The output file names `{file_count}.jsonl.gz`. The file with index `i` is `shards[i]`.
- The NFKD decomposition and the removal of combining characters (lines 60-61). They depend on Unicode tables, so they are the function parameter `normalize`.
- Whitespace other than space, tab, LF, VT, FF and CR. `str.strip()` and the `regex` module's `\s` also match Unicode spaces such as U+00A0, and `str.strip()` in addition removes the separators U+001C to U+001F. The model uses only the six characters above.
- `Reporting`, timing and logging (lines 48, 52-55, 99 and 103-106). `passage_count` is returned by `BuildPassages` but only feeds that reporting.
- Floating-point `math.log2` (line 79) is replaced by an exact integer floor-log2. The two agree on every length below 2^20, and the clamp to slot 19 covers longer passages.
- Exceptions other than `math.log2(0)`, such as I/O or JSON errors, are not modelled.
- `Convert`: the run ends at the first crash, so the files written before it remain; the model does not say what a crash does to an open gzip file.
