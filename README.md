# Personal-brand chatbot: knowledge base core

`chatbot.py` is a Streamlit chat page that answers questions about one
person. An admin can paste text into a small knowledge base. The text is
split into paragraph chunks, and each chunk is stored with a category and a
generated id. When a visitor asks something, the page fetches matching
chunks, joins them with blank lines and sends them to a language model as
context.

This project models the deterministic core of that page in Dafny:

- **Whitespace** (`whitespace.dfy`): Python's `str.strip()`. It uses the
  exact set of code points that `str.isspace()` accepts.
- **Paragraphs** (`paragraphs.dfy`): Python's `str.split("\n\n")` and
  `"\n\n".join`, and the chunking rule at line 65. The rule splits on blank
  lines, strips every fragment and drops the fragments that strip to
  nothing.
- **Decimal** (`decimal.dfy`): Python's `str(n)` for the numbers inside
  record ids, together with its inverse.
- **KnowledgeBase** (`knowledge_base.dfy`): the collection as a class
  holding a sequence of records, plus three more pieces:
  - the save action: a guard, then a loop that adds one record per chunk
    with the id `category_size_index`;
  - the clear action;
  - the context string built from a query's documents.

The main results:

- `Split` is characterised completely. It is the only decomposition of a
  text into "split-shaped" fragments that joins back to that text.
- Chunks are non-empty, trimmed and contain no blank line. They keep the
  order of their fragments, and no fragment with content is skipped.
- A text yields no chunk exactly when it is all whitespace.
- Chunking the blank-line join of chunks gives the same chunks back. So,
  when every retrieved document was stored by the save action, the context
  handed to the model splits back into exactly the documents that were
  retrieved.
- Record ids determine their category, their position and their chunk
  index. Every collection built by the save action therefore has pairwise
  distinct ids.

The save guard (line 63) rejects only the empty string. Whitespace-only
text passes it, yields no chunk and is reported as "Added 0 chunks"
(`Paragraphs.ChunksEmpty`, `KnowledgeBase.Store.Save`).

## Model

| member | source | states |
|---|---|---|
| Whitespace.SkipSpace | chatbot.py:65 | the forward scan of `strip()`: everything it passes is whitespace, and it stops at the first character that is not |
| Whitespace.SkipSpaceBack | chatbot.py:65 | the backward scan of `strip()`: everything it passes is whitespace, and it stops just after the last character that is not |
| Whitespace.Strip | chatbot.py:65 | `chunk.strip()` has no whitespace at either end, and it is empty exactly when the input is all whitespace |
| Whitespace.StripUnique | chatbot.py:65 | any infix with no whitespace at either end and only whitespace around it is the strip, so `strip()` is fully characterised |
| Whitespace.StripTrimmed | chatbot.py:65 | a string without whitespace at either end is its own strip |
| Whitespace.StripIdempotent | chatbot.py:65 | stripping twice is the same as stripping once |
| Paragraphs.Split | chatbot.py:65 | `split('\n\n')` always yields at least one fragment |
| Paragraphs.JoinSplit | chatbot.py:65 | joining the fragments of `split('\n\n')` with "\n\n" gives the text back |
| Paragraphs.SplitIsShaped | chatbot.py:65 | no fragment contains "\n\n", and no fragment but the last ends with '\n' |
| Paragraphs.FirstFragmentIsPrefix | chatbot.py:65 | the first fragment is a prefix of the text |
| Paragraphs.FirstFragmentBeforeSep | chatbot.py:65 | when there are several fragments, the first is followed by "\n\n" in the text |
| Paragraphs.SplitNoSep | chatbot.py:65 | a text without "\n\n" splits into itself alone |
| Paragraphs.SplitAfterFragment | chatbot.py:65 | a fragment free of "\n\n" that does not end with '\n' is cut off at the separator after it |
| Paragraphs.SplitJoin | chatbot.py:65 | splitting the join of split-shaped fragments gives the fragments back |
| Paragraphs.SplitUnique | chatbot.py:65 | the split is the only split-shaped decomposition that joins back to the text |
| Paragraphs.SplitLength | chatbot.py:65 | there are exactly one more fragments than non-overlapping "\n\n" occurrences |
| Paragraphs.KeptIndicesSelect | chatbot.py:65 | the filter `if chunk.strip()` keeps the k-th non-empty entry as its k-th result |
| Paragraphs.KeptIndicesIncrease | chatbot.py:65 | the filter keeps entries in their original order |
| Paragraphs.KeptIndicesComplete | chatbot.py:65 | the filter keeps every non-empty entry |
| Paragraphs.DropEmptyNone | chatbot.py:65 | the filter keeps nothing exactly when every entry is empty |
| Paragraphs.DropEmptyNoneEmpty | chatbot.py:65 | the filter keeps a list of non-empty entries unchanged |
| Paragraphs.InfixNoSep | chatbot.py:65 | a piece of a text without "\n\n" has none either |
| Paragraphs.StripNoSep | chatbot.py:65 | stripping a fragment cannot create "\n\n" |
| Paragraphs.StripDropOrder | chatbot.py:65 | stripping then filtering any fragment list keeps the non-empty strips, in order, skipping none |
| Paragraphs.ChunksFromFragments | chatbot.py:65 | chunk k is the strip of a fragment of the split, at increasing positions |
| Paragraphs.ChunksInOrder | chatbot.py:65 | chunks follow the text's order, and every fragment with content becomes a chunk |
| Paragraphs.StripDropChunks | chatbot.py:65 | stripping and filtering fragments without "\n\n" yields only chunks |
| Paragraphs.ChunksWellFormed | chatbot.py:65 | every chunk is non-empty, is its own strip and contains no "\n\n" |
| Paragraphs.DropEmptyLength | chatbot.py:65 | the filter never adds entries |
| Paragraphs.ChunkCount | chatbot.py:65 | there are at most one more chunks than "\n\n" occurrences |
| Paragraphs.ChunksNoSep | chatbot.py:65 | a text without a blank line gives its strip as its one chunk, or no chunk if it strips to nothing |
| Paragraphs.SplitAllSpace | chatbot.py:65 | a text is all whitespace exactly when every fragment of its split is |
| Paragraphs.ChunksEmpty | chatbot.py:63-65 | the text passes the guard but yields no chunk exactly when it is all whitespace |
| Paragraphs.SplitExtraNewline | chatbot.py:65 | with three newlines between two paragraphs, the split leaves the third at the head of the next fragment |
| Paragraphs.StripNewlineHead | chatbot.py:65 | stripping removes that leading newline from a chunk |
| Paragraphs.ChunksExtraNewline | chatbot.py:65 | two paragraphs separated by three newlines still give exactly those two chunks |
| Paragraphs.ChunksJoin | chatbot.py:65 | chunking the "\n\n"-join of chunks gives those chunks back |
| Paragraphs.ChunksAreSplitShaped | chatbot.py:65 | a non-empty list of chunks is split-shaped |
| Decimal.Show | chatbot.py:71 | `str(n)` is a non-empty string of digits with no leading zero, except "0" itself |
| Decimal.ValueShow | chatbot.py:71 | reading back the digits of `str(n)` gives `n` |
| Decimal.ShowInjective | chatbot.py:71 | different numbers have different numerals |
| KnowledgeBase.PeelNumber | chatbot.py:71 | a numeral after the last '_' can be read back off the end of an id |
| KnowledgeBase.RecordIdInjective | chatbot.py:71 | equal ids have equal categories, collection sizes and chunk indices |
| KnowledgeBase.EntriesWellFormed | chatbot.py:65-73 | saving chunks keeps a well-formed collection well formed: the new documents are chunks and each id names the record's own position |
| KnowledgeBase.IdsDistinct | chatbot.py:68-73 | no two records of a collection built by the save action share an id |
| KnowledgeBase.ContextRoundTrip | chatbot.py:121-122 | chunking the context built from stored documents gives back exactly those documents, in order |
| KnowledgeBase.Store.constructor | chatbot.py:29-30 | opening the collection exposes exactly the records already persisted |
| KnowledgeBase.Store.Save | chatbot.py:62-77 | with an empty field it reports the missing field and changes nothing; otherwise it appends one record per chunk, in order, reports the chunk count and keeps the collection well formed |
| KnowledgeBase.Store.AddChunks | chatbot.py:68-73 | each chunk becomes the next record, with the category and the id built from the collection's length at that moment and the chunk's index |
| KnowledgeBase.Store.Clear | chatbot.py:81-84 | the collection is empty afterwards |

## Left out

- The Streamlit page: layout, widgets, the item counter (line 42), the
  success and error messages and the rerun. `Store.Save` returns the outcome
  the messages report instead.
- The admin password check (lines 39, 48, 87-90). It only decides whether
  the save and clear buttons are shown.
- The vector store's query (lines 117-120), the only retrieval the page
  does: the embedding, the similarity ranking and the `n_results=3` limit.
  `KnowledgeBase.Context` takes the query's result as a parameter, and
  `ContextRoundTrip` holds for any sequence of documents taken from a
  collection built by the save action. A collection opened from arbitrary
  persisted records gives no such guarantee: a stored document holding a
  blank line would not round-trip. The `except` branch at lines 123-124 is
  the empty context of a failed call and is not modelled separately.
- Chat history, the prompt template and the streamed call to the language
  model (lines 98-112 and 126-157). These are I/O with external services.
- The vector store's handling of an `add` whose id is already taken. The
  model assumes every `add` appends. `IdsDistinct` shows that no collection
  built by the save action can meet that case. A collection opened with
  arbitrary persisted records is not constrained.
- Persistence on disk. A clear and recreate is one step here. The gap
  between `delete_collection` and `create_collection` is not modelled.
- Concurrency: two sessions saving at once could read the same collection
  length. The model runs one action at a time.
- Lone surrogates: `str.isspace()` is modelled by its code-point set over
  Dafny `char`, which holds Unicode scalar values only. A Python string
  holding an unpaired surrogate code point has no counterpart here.
- KnowledgeBase.Store.Save: `collection.add` is assumed to succeed; a
  failure part-way through the loop (chunks before it stored, the rest and
  the success message skipped) is a partial save that is not modelled. The
  same holds for `KnowledgeBase.Store.AddChunks`, whose ensures states that
  every chunk is appended.
