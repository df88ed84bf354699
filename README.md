# phrase-segmentation in Dafny

This project models the core of the phrase-segmentation library, which has two parts.

- **A document** (`src/document.rs`) is an immutable vector of 16-bit token ids. It offers four operations:
  - `contains` answers whether a pattern occurs in the document.
  - `get_slice` returns the tokens between two positions.
  - `len` counts the tokens.
  - `is_empty` tells whether there are none.
- **The greedy phrase extractor** (`collect_phrases` in `src/lib.rs`) walks a cursor over each document. At each position it starts from a seed query of `min_phrase_len` tokens. It then visits the document's relevant documents in order. While the current relevant document contains the query, the query grows by one token. The search stops early once the query would pass `max_phrase_len` or the end of the document. When any relevant document held a query, the last confirmed query is recorded as a phrase and the cursor jumps to its end. Otherwise the cursor moves on by one token. The result is the set of distinct phrases over all documents.

The model has four modules.

- `Wrappers` (`wrappers.dfy`) holds an `Option` type. `None` stands for a panic of the original.
- `Documents` (`document.dfy`) models the document.
  - `Document` is a datatype, because a document never changes after it is built.
  - `Contains` is the token-granular containment that the repository's tests assert: the pattern is a prefix of some suffix of the token sequence. This is proved equal to "occurs as a contiguous run". The original's suffix array asks this question over the bytes of the tokens instead (see Findings).
  - The same module describes the byte view that the original search runs on (see Findings).
- `Phrases` (`phrases.dfy`) holds the specification functions and the loop program.
  - `Scan` states what the relevant-document loops compute at one cursor position.
  - `Segment` and `Extract` state what the cursor loop of one document yields.
  - `Collect` states the result of the whole call.
  - The methods are the loop program itself, proved equal to these functions:
    - `SearchAt` holds the seed query and the relevant-document loops, including the labelled `break 'outer`.
    - `Advance` is one turn of the cursor loop.
    - `AddPhrasesOf` is the cursor loop over one document, with the `BTreeSet` insert.
    - `CollectPhrases` is the loop over the document set.
- `PhraseProperties` (`phrase_properties.dfy`) proves what the extractor guarantees. The central fact is that containment is closed under prefixes. Because of that, the greedy hand-off from one relevant document to the next finds the longest match over all relevant documents together (`ScanIsLongestMatch`). For one document, the recorded phrases lie in range and have admissible lengths. They do not overlap and go left to right (`SegmentBounds`). Each is confirmed and maximal (`SegmentPhrasesAreMaximal`), and every uncovered position is one where the seed is confirmed nowhere (`SegmentCoverage`). For the whole call, every returned phrase is a slice of one of the documents with those properties (`CollectContents`, `CollectedPhrasesAreSound`).

One edge case deserves a note. The cursor loop's guard (`src/lib.rs:17`) checks only `start < len`, while the seed slice (`src/lib.rs:19`) is `[start, start + min_phrase_len)`, taken unconditionally. So the call panics as soon as the cursor stops on a position whose unconsumed tail is shorter than `min_phrase_len`. The model keeps that behaviour:
- `Extraction.SeedOutOfBounds` records the panic position.
- `Collect` and `CollectPhrases` return `None` in that case.
- `TestShortTailPanics` gives an instance: `[0, 1, 2]` with no relevant documents and `min_phrase_len = 2` panics at position 2.
- `NoRelevantDocuments` gives the general form: a non-empty document with no relevant documents panics for every `min_phrase_len` of 2 or more.

## Model

| member | source | states |
|---|---|---|
| Documents.FromTokens | src/document.rs:15-21 | the built document has exactly the given tokens: its length is theirs and every in-range slice equals the corresponding slice of the input |
| Documents.ContainsIffOccurs | src/document.rs:23-27 | `contains` holds exactly when the pattern occurs as a contiguous run of whole tokens of the document (both directions) |
| Documents.IsPrefixIffOccursAtStart | src/document.rs:24-26 | the token-by-token prefix test holds exactly when the pattern occurs at offset 0 |
| Documents.PrefixOfSomeSuffixIffOccurs | src/document.rs:24-26 | the suffix-array question "is the pattern a prefix of some suffix" is equivalent to "the pattern occurs at some offset" |
| Documents.EveryRunIsContained | src/document.rs:23-27 | each run `[start, end)` of the document's own tokens is contained in it |
| Documents.ContainsRunOfPattern | src/document.rs:23-27 | a document containing a pattern contains every contiguous run of that pattern |
| Documents.ContainsPrefix | src/document.rs:23-27 | containment is closed under taking prefixes |
| Documents.EmptyDocumentContainsOnlyEmpty | src/document.rs:23-27 | every document contains the empty pattern, and an empty document contains nothing else |
| Documents.AbsentTokenNotContained | src/document.rs:59-62 | a pattern holding a token value absent from the document is not contained |
| Documents.NonAdjacentPairNotContained | src/document.rs:71-76 | a token pair that is never adjacent in the document is not contained |
| Documents.Document.GetSlice | src/document.rs:29-31 | a slice exists exactly when `start <= end <= len` (otherwise the original panics); it then has `end - start` tokens, the i-th being token `start + i` |
| Documents.Document.Len | src/document.rs:33-35 | the length is the end at which the slice from 0 is the whole token vector, and every larger end is out of range |
| Documents.Document.IsEmpty | src/document.rs:37-39 | a document is empty exactly when its length is 0 |
| Documents.EncodeToken | src/document.rs:18 | a token becomes two bytes, low byte first, whose value recombines to the token |
| Documents.Encode | src/document.rs:18 | the byte view of a token vector has twice its length, with token i at bytes 2i (low) and 2i+1 (high) |
| Documents.ContainsImpliesByteContains | src/document.rs:18-26 | whenever token containment holds, the original byte search succeeds too |
| Documents.AlignedByteMatchIsTokenMatch | src/document.rs:18-26 | a byte match at an even offset is a token match |
| Documents.MisalignedMatch | src/document.rs:18-26 | the byte search reports `[1]` inside `[256, 0]`, which token containment rejects |
| Documents.TestContainsRuns | src/document.rs:47-69 | for `[0, 255, 256, 65535]`, the single tokens and the prefixes of length 2, 3 and 4 are contained |
| Documents.TestContainsAbsent | src/document.rs:59-76 | for the same document, `[1]`, `[65534]`, `[0, 256]`, `[0, 65535]` and `[255, 65535]` are not contained |
| Documents.TestGetSlice | src/document.rs:80-88 | the six slices of `[0, 1, 2]` are the expected token runs |
| Phrases.Scan | src/lib.rs:21-31 | the search never shrinks the query; it grows it at most to one past the larger of `min_phrase_len` and `max_phrase_len`, and at most one past the document end; `found` holds exactly when the query grew or was already found |
| Phrases.Segment | src/lib.rs:16-40 | a panic happens only at a position at or after `start`, inside the document, whose seed slice runs past the end (the boundaries of a completed run are characterised by `SegmentBounds`, `SegmentPhrasesAreMaximal` and `SegmentCoverage`) |
| Phrases.Extract | src/lib.rs:16-40 | one document's extraction panics only at a cursor position whose seed slice runs past the end, and an empty document yields no phrase |
| Phrases.PhrasesOfAppend | src/lib.rs:35 | inserting the slice of one more boundary adds exactly that slice to the phrase set |
| Phrases.Collect | src/lib.rs:9-43 | the whole call returns (rather than panics) exactly when every entry's extraction completes |
| Phrases.CollectAbortPersists | src/lib.rs:15-19 | once one entry panics, the whole call panics, whatever the later entries are |
| Phrases.SearchAt | src/lib.rs:18-31 | the seed slice panics exactly when `start + min_phrase_len` exceeds the length; otherwise the final query length and `found` are those of `Scan` |
| Phrases.Advance | src/lib.rs:18-39 | one turn of the cursor loop panics exactly when the seed runs past the end; otherwise the cursor moves strictly forward within the document, and the rest of the extraction is the recorded phrase `[start, next)` followed by what remains from `next`, or, without a phrase, what remains from `start + 1` |
| Phrases.AddPhrasesOf | src/lib.rs:16-40 | the cursor loop over one document panics exactly when its extraction does; otherwise it adds exactly the slices of that document's boundaries to the phrases found so far (which `SegmentBounds`, `SegmentPhrasesAreMaximal` and `SegmentCoverage` characterise) |
| Phrases.CollectPhrases | src/lib.rs:9-43 | the loop program returns exactly `Collect` of its entries: a panic exactly when some entry panics, otherwise the union of every document's phrase slices, each sound as `CollectedPhrasesAreSound` states |
| PhraseProperties.ScanConfirms | src/lib.rs:22-30 | when the query grew, the last confirmed query is contained in some relevant document |
| PhraseProperties.ScanStopsOnMiss | src/lib.rs:21-31 | unless cut off by the length cap or the document end, the final query is contained in no relevant document |
| PhraseProperties.ScanFoundIffSeedConfirmed | src/lib.rs:20-31 | `found` holds exactly when some relevant document contains the seed query, and the recorded phrase is then contained in one of them |
| PhraseProperties.ScanHasNoLongerMatch | src/lib.rs:21-31 | no extension of the query past the recorded phrase, within `max_phrase_len` and the document, is contained in any relevant document |
| PhraseProperties.ScanIsLongestMatch | src/lib.rs:18-31 | `ScanFoundIffSeedConfirmed` with `ScanHasNoLongerMatch` quantified over every end: the recorded phrase is the longest run from `start`, within the caps, that any relevant document contains |
| PhraseProperties.SegmentBounds | src/lib.rs:16-40 | each phrase lies in the document at or after the cursor; its length is at least `min_phrase_len` and at most `max_phrase_len` (or exactly `min_phrase_len` when the caps cross); phrases do not overlap and go left to right |
| PhraseProperties.SegmentPhrasesAreMaximal | src/lib.rs:16-40 | every phrase is confirmed by a relevant document, and no longer extension within the caps is |
| PhraseProperties.SegmentCoverage | src/lib.rs:16-40 | every position outside all phrases is one where no relevant document contains the seed query |
| PhraseProperties.NoRelevantDocuments | src/lib.rs:16-40 | with no relevant documents, a document completes exactly when `min_phrase_len` is 1 or the cursor is already at the end, and then yields no phrase |
| PhraseProperties.UnitSeedSucceeds | src/lib.rs:16-40 | with `min_phrase_len = 1` no seed slice is ever out of range, so the cursor loop always completes |
| PhraseProperties.TailIsCovered | src/lib.rs:16-40 | when the cursor loop completes, each of the last `min_phrase_len - 1` positions lies inside a recorded phrase |
| PhraseProperties.TestShortTailPanics | src/lib.rs:17-19 | `[0, 1, 2]` with no relevant documents and `min_phrase_len = 2` panics at cursor 2 |
| PhraseProperties.CollectContents | src/lib.rs:14-42 | the returned set holds exactly the slices cut out by every entry's boundaries, deduplicated by content |
| PhraseProperties.CollectedPhrasesAreSound | src/lib.rs:14-42 | every returned phrase is a slice of one of the documents, within the length bounds, and contained in one of its relevant documents |
| Phrases.LexLess | src/lib.rs:13 | the order of the returned set is irreflexive: a phrase never precedes itself |
| PhraseProperties.LexLessTransitive | src/lib.rs:13 | the order of the returned set is transitive |
| PhraseProperties.LexLessTotal | src/lib.rs:13 | any two distinct phrases are ordered one way or the other |
| PhraseProperties.TestScanFirstDocumentAt0 | src/lib.rs:49-70 | in the unit test, at cursor 0 of `[0, 1, 2, 3]`, the search ends at query length 3 with `found` |
| PhraseProperties.TestScanFirstDocumentAt2 | src/lib.rs:49-70 | at cursor 2 the first relevant document misses and the second confirms `[2, 3]` |
| PhraseProperties.TestSegmentFirstDocument | src/lib.rs:49-70 | the first test document splits into `[0, 2)` and `[2, 4)` |
| PhraseProperties.TestSegmentSecondDocument | src/lib.rs:49-70 | the second test document is one phrase `[0, 4)`, cut off at its end |
| PhraseProperties.TestCollectPhrases | src/lib.rs:49-70 | the unit test's call returns exactly `{[0, 1], [2, 3], [4, 5, 6, 7]}` |
| PhraseProperties.TestPhraseOrder | src/lib.rs:66-69 | those phrases come out in the order the test pops them |

## Left out

- The suffix array, the self-referencing struct and the unsafe byte reinterpretation of `src/document.rs` are not modelled as data structures. `Contains` states token-granular containment, the byte search the original runs is `ContainsAsWritten`, and `Encode` states the byte view.
- The byte-level search is modelled only as `ContainsAsWritten`, beside the token-granular `Contains` that the extractor uses (see Findings). The formula assumes a little-endian target. On a big-endian one the byte order flips, and the misaligned-match problem stays.
- `src/main.rs` is not part of this model. It covers the command-line tool, file reading, tokenisation and output.
- Memory layout and lifetimes (`&[u16]` borrowed from the documents) are left out. Phrases are values of type `seq<Token>`.
- The `BTreeSet` is a mathematical `set`. Its iteration order is the separate predicate `LexLess`, which is proved to be a strict total order.
- Phrases.CollectPhrases: requires `min_phrase_len >= 1`. With 0 the original can loop forever. The empty seed query is contained in every relevant document. So at a position whose next token no relevant document contains, it records an empty phrase and advances the cursor by `query_len - 1 = 0`.
- `usize` overflow of `start + query_len` is not modelled. Integers are unbounded.
- The iterator argument of `collect_phrases` is a sequence of entries. The iterator is lazy, but it is consumed once, in order, so its laziness cannot change the result. The source has no concurrency.

## Findings

| source | as written | input that shows it | evidently intended | confidence | as-written member | corrected member |
|---|---|---|---|---|---|---|
| src/document.rs:18-26 | `contains` searches the little-endian bytes of the pattern anywhere in the bytes of the tokens, including at odd offsets that straddle two tokens | document `[256, 0]` (bytes `00 01 00 00`) and pattern `[1]` (bytes `01 00`): reported as contained | containment of whole tokens only, as the doc comment and the phrase extractor assume | not executed; assumes a little-endian target | Documents.MisalignedMatch | Documents.ContainsIffOccurs |
