# Text helpers of the report chatbot's tool layer, in Dafny

The chatbot answers questions about one policy report. The answering agents get
their evidence through a small set of tools in `crew/tools.py`. Everything
around those tools is model calls, vector-store wiring or UI. What is left is
four deterministic text helpers, and this project models them and proves what
they do:

- `retrieve_context`: the retrieved chunks, stripped and joined with blank
  lines (module `Retrieval`);
- `retrieve_citations`: one bullet per retrieved chunk, with a snippet cut to
  600 characters and a `[Source: title](link)` label (module `Retrieval`);
- `_summarize_text`: split into sentences after `.`, `!` or `?` and the
  whitespace that follows, keep stripped sentences longer than 40 characters,
  take the first `max_sentences` (default 5) and join them with spaces
  (module `Summary`);
- `_extract_keywords`: lower-case, tokenise with `[A-Za-z][A-Za-z\-]{2,}`,
  count the non-stop-words in an insertion-ordered dictionary, sort stably by
  descending count and join the first `top_k` (default 12) with `", "`
  (module `Keywords`).

Module `Text` holds the Python string semantics these helpers rest on:
whitespace as `str.isspace()` (also what `\s` matches in a `str` pattern),
`str.strip`, `str.join`, ASCII `str.lower` and list slicing `s[:n]` with a
negative `n`.

The retriever call is not modelled. Both retrieval tools take the ranked
documents as an input `seq<Document>`, where a document is its content and a
string-valued metadata map. The two regular expressions are written out as
character-level functions: `SplitFrom` for the look-behind split, scanning the
whole text by position so the look-behind always sees the character before,
and `MatchesFrom` for the `findall` scan, which also resumes by position and
records where each match lies.

`retrieve_citations` builds its list of lines in a loop, and `_extract_keywords`
fills its dictionary in a loop. Both loops are methods (`RetrieveCitations`,
`CountTokens`) proved against specification functions. The dictionary is a map
with its keys kept, in insertion order, in a sequence beside it. The sort that
follows is Python's library `sorted`, so it is modelled as a function: a stable
insertion sort by descending count. The rest is pure and modelled as functions
with lemmas.

## Model

| member | source | states |
|---|---|---|
| Text.StripSpec | crew/tools.py:21 | `str.strip()` returns the slice of the input that has no whitespace at either end; everything cut off on both sides is whitespace; the result is empty exactly when the input is all whitespace |
| Text.StripIdempotent | crew/tools.py:39 | stripping an already stripped string changes nothing, so the sentences kept by the summariser are stripped |
| Text.SpaceRunEnd | crew/tools.py:38 | the greedy `\s+` ends at the first non-whitespace character after the run start, or at the end of the text |
| Text.JoinSnoc | crew/tools.py:21 | `sep.join` with one more part appends the separator and the part, and with one part it is that part alone |
| Text.JoinLength | crew/tools.py:21 | a join is as long as its parts plus one separator between each pair |
| Text.PyTake | crew/tools.py:40 | `s[:n]` is a prefix of `s` of length `min(n, len(s))` for `n >= 0`, and drops the last `-n` items (or everything) for `n < 0` |
| Text.Lower | crew/tools.py:54 | `text.lower()` keeps the length and lower-cases each ASCII capital, leaving every other character as it is |
| Retrieval.RetrieveContext | crew/tools.py:17-21 | the context of the retrieved documents: its segments, their order and its empty case are stated by `SegmentsAt`, `ContextSnoc`, `WhitespaceOnlyAddsEmptySegment` and `ContextEmptyIff` |
| Retrieval.ContributingIndices | crew/tools.py:21 | lists, in increasing order, positions of documents whose raw content is non-empty, and only those |
| Retrieval.ContributingIndicesComplete | crew/tools.py:21 | every document with non-empty raw content is listed, including a whitespace-only one |
| Retrieval.SegmentsAt | crew/tools.py:21 | the context has exactly one segment per document with non-empty content, and segment `i` is the stripped content of the `i`-th such document, in retrieval order |
| Retrieval.ContextSnoc | crew/tools.py:21 | one more retrieved document leaves the context unchanged when its content is empty, and otherwise appends a blank line and its stripped content (no blank line before the first segment) |
| Retrieval.WhitespaceOnlyAddsEmptySegment | crew/tools.py:21 | a whitespace-only document passes the `if d.page_content` filter and adds an empty segment, that is a bare `"\n\n"` after an earlier segment |
| Retrieval.ContextEmptyIff | crew/tools.py:21 | the context is empty exactly when no document contributes, or one contributes and it strips to nothing |
| Retrieval.Title | crew/tools.py:29 | the label is the `title` metadata when present and non-empty, otherwise the `source` metadata, otherwise empty |
| Retrieval.Snippet | crew/tools.py:31-33 | the snippet is the stripped content unchanged when it is at most 600 characters; otherwise it is exactly its first 600 characters followed by `...`; it is never longer than 603 |
| Retrieval.CitationLineShape | crew/tools.py:34 | a citation line is `- `, the snippet, then `\n  [Source: <title>](<link>)`, and the snippet begins with a prefix of the stripped content |
| Retrieval.CitationLine | crew/tools.py:29-34 | one bullet built from the title fallback, the link and the snippet; its layout is stated by `CitationLineShape`, `Title` and `Snippet` |
| Retrieval.CitationLinesAt | crew/tools.py:27-35 | there is exactly one citation line per retrieved document, none filtered out, and line `i` is that of document `i` |
| Retrieval.RetrieveCitations | crew/tools.py:24-35 | the loop that appends one line per document returns those lines joined by `"\n"` |
| Summary.FindBreak | crew/tools.py:38 | finds the first position at or after the scan position where the split pattern matches: a whitespace character preceded by `.`, `!` or `?` (never position 0); no match is skipped |
| Summary.SplitFrom | crew/tools.py:38 | `re.split` returns one more piece than it consumed separators |
| Summary.SplitSentences | crew/tools.py:38 | the split of the whole text, scanned from position 0; what it returns is stated by `SplitWeave`, `SplitGapsAreSpace`, `SplitGapsMaximal`, `SplitPiecesEnd` and `SplitPiecesNoBreak` |
| Summary.SplitWeave | crew/tools.py:38 | from any scan position, the pieces put back together with the whitespace runs between them give the input text again: the split loses nothing but separators |
| Summary.SplitGapsAreSpace | crew/tools.py:38 | every separator consumed is a non-empty run of whitespace |
| Summary.SplitGapsMaximal | crew/tools.py:38 | `\s+` takes the whole whitespace run: no piece after the first starts with whitespace |
| Summary.SplitPiecesEnd | crew/tools.py:38 | every piece but the last ends with `.`, `!` or `?`: the look-behind keeps the punctuation with the sentence |
| Summary.SplitPiecesNoBreak | crew/tools.py:38 | no piece contains a place where the pattern matches, so the split misses no sentence boundary |
| Summary.KeptSentences | crew/tools.py:39 | the list comprehension that strips the pieces and keeps those longer than 40 characters; stated by `KeptIndices`, `KeptIndicesComplete` and `KeptAt` |
| Summary.KeptIndices | crew/tools.py:39 | lists, in increasing order, pieces whose stripped form is longer than 40 characters, and only those |
| Summary.KeptIndicesComplete | crew/tools.py:39 | every piece whose stripped form is longer than 40 characters is listed |
| Summary.KeptAt | crew/tools.py:39 | kept sentence `i` is the stripped form of the `i`-th long enough piece, in text order |
| Summary.Summarize | crew/tools.py:37-40 | `_summarize_text`: the chosen sentences joined by single spaces; stated by `SummaryShape`, `SummaryEmptyIff` and `SummaryIsExtractive` |
| Summary.SummaryShape | crew/tools.py:37-40 | the chosen sentences are the first kept sentences, exactly `min(max_sentences, number kept)` of them for a non-negative count (Python slice semantics for a negative one), each stripped and longer than 40 characters |
| Summary.SummaryEmptyIff | crew/tools.py:40 | the summary is empty exactly when no sentence is chosen; otherwise its length is the sentences' lengths plus one space between each pair |
| Summary.SummaryIsExtractive | crew/tools.py:37-40 | every sentence of the summary occurs verbatim in the input text |
| Keywords.WordEnd | crew/tools.py:54 | the greedy `[A-Za-z\-]` run from a position ends at the first character that is neither a letter nor a hyphen, or at the end of the text |
| Keywords.MatchesFrom | crew/tools.py:54 | every match the `findall` scan reports lies inside the text, after the scan position, and is non-empty |
| Keywords.Tokens | crew/tools.py:54 | `re.findall` returns the texts of the matches, in order; stated by `TokensShape`, `MatchesAreMaximal`, `MatchesStartWords`, `MatchesComplete` and `WordStartIsToken` |
| Keywords.MatchesAreMaximal | crew/tools.py:54 | each match starts where the pattern matches (a letter, then at least two letters or hyphens), takes the whole run of letters and hyphens after it, and the matches come in text order without overlap |
| Keywords.MatchesStartWords | crew/tools.py:54 | no match begins right after a letter |
| Keywords.MatchesComplete | crew/tools.py:54 | no match is skipped: every position where the pattern matches lies inside a match found |
| Keywords.WordStartIsToken | crew/tools.py:54 | a match that begins a word (at the start or after a character that is neither letter nor hyphen) is found exactly, from its letter to the end of its run |
| Keywords.TokensShape | crew/tools.py:54 | every token is at least 3 characters long, starts with a letter and holds only letters and hyphens; in a text without capitals, only lower-case ones (where tokens lie in the text and that none is missed is stated by the `Matches` lemmas) |
| Keywords.LowerHasNoUpper | crew/tools.py:54 | lower-cased text has no ASCII capital left, so every token of it is lower-case |
| Keywords.OccurrencesAbsent | crew/tools.py:58 | a word not yet seen starts from `freq.get(t, 0)`, which is its count of zero |
| Keywords.OccurrencesPositive | crew/tools.py:58 | a word that occurs has a count of at least one |
| Keywords.FirstIndex | crew/tools.py:55-58 | finds the first occurrence of a word among the tokens |
| Keywords.FirstSeenMembers | crew/tools.py:55-58 | the dictionary's keys are exactly the tokens that are not stop-words |
| Keywords.FirstSeenOrder | crew/tools.py:55-58 | the keys are distinct and in order of first occurrence, as an insertion-ordered dictionary keeps them |
| Keywords.CountStep | crew/tools.py:56-58 | one iteration of the loop keeps the dictionary equal to its specification: a stop-word is skipped; any other token becomes a new last key when unseen and has its count raised by one |
| Keywords.CountTokens | crew/tools.py:55-58 | the counting loop leaves exactly the non-stop-words as keys, in first-occurrence order, each mapped to its number of occurrences; stop-words are never counted |
| Keywords.FreqItems | crew/tools.py:55-59 | `freq.items()`: each key with its count, in insertion order; stated by `FreqItemsSpec` and, for the loop that fills the dictionary, `CountTokens` |
| Keywords.FreqItemsSpec | crew/tools.py:55-59 | each dictionary item is a non-stop token with its exact occurrence count (at least 1); words are distinct and in first-occurrence order; every non-stop token has its item |
| Keywords.SortByCount | crew/tools.py:59 | `sorted(..., key=count, reverse=True)`; stated by `SortByCountSpec` (permutation, descending, stable) and `SortKeepsDistinct` |
| Keywords.InsertMembers | crew/tools.py:59 | inserting an entry into the sorted list adds that entry and loses none |
| Keywords.InsertKeepsEntries | crew/tools.py:59 | inserting an entry adds exactly that entry to the multiset of entries |
| Keywords.InsertKeepsOrder | crew/tools.py:59 | inserting into a list sorted by descending count keeps it sorted |
| Keywords.InsertKeepsTies | crew/tools.py:59 | the inserted entry goes ahead of every entry it ties with |
| Keywords.SortKeepsEntries | crew/tools.py:59 | the sort returns the same entries, as a multiset |
| Keywords.SortKeepsOrder | crew/tools.py:59 | the sort returns its entries in non-increasing order of count |
| Keywords.SortKeepsTies | crew/tools.py:59 | for each count, the entries with that count come out in their input order |
| Keywords.SortByCountSpec | crew/tools.py:59 | `sorted(..., key=count, reverse=True)` is a permutation, in non-increasing order of count, and for every count the entries with that count keep their input order (stability) |
| Keywords.InsertKeepsDistinct | crew/tools.py:59 | inserting an entry whose word is new keeps the words distinct |
| Keywords.SortKeepsDistinct | crew/tools.py:59 | sorting keeps the words distinct |
| Keywords.WithCountPrefix | crew/tools.py:59 | taking the first `top_k` entries keeps, for each count, a prefix of the entries with that count |
| Keywords.TopEntries | crew/tools.py:59 | the first `top_k` sorted items; stated by `KeywordsRanked`, `PrefixOutranks` and `KeywordsAreMostFrequent` |
| Keywords.KeywordList | crew/tools.py:59 | the words of the first `top_k` sorted items; stated by `KeywordsShape` and `KeywordsAreMostFrequent` |
| Keywords.KeywordsShape | crew/tools.py:47-59 | exactly `min(top_k, number of distinct non-stop tokens)` keywords for `top_k >= 0`, and never more than that number; all distinct; none a stop-word; each lower-case, at least 3 characters, starting with a letter, only letters and hyphens |
| Keywords.KeywordsRanked | crew/tools.py:59 | each chosen entry carries its word's true count; counts do not increase along the list; among equal counts the words keep their first-occurrence order |
| Keywords.PrefixOutranks | crew/tools.py:59 | in a list sorted by descending count, an entry beyond the first `top_k` counts no more than any entry within them |
| Keywords.KeywordsAreMostFrequent | crew/tools.py:59 | a non-stop token left out of the answer occurs no more often than any keyword chosen |
| Keywords.ExtractKeywords | crew/tools.py:47-59 | the extractor returns the chosen keywords joined by `", "` |

## Left out

- The retriever (`get_retriever`, the `_retrieve_docs` call, the embedding model and the Chroma store) is not modelled: the ranked documents are an input. Any bound on their number is the vector store's promise, not this code's.
- The `@tool` wrappers `summarize_text` and `extract_keywords` only delegate with the default arguments; the defaults are kept as default parameters of `Summary.Summarize` and `Keywords.ExtractKeywords`.
- Document content that is `None` is treated as the empty string. The source treats both the same way (`if d.page_content` and `or ""`).
- Metadata values are modelled as strings. A non-string value (a number, `None`) would be formatted by the f-string and tested for truthiness by Python's own rules, which the model does not cover.
- Text.Lower: lower-cases the ASCII capitals only. Python's `str.lower` also maps non-ASCII characters. Only two of them change the tokens: U+0130 becomes `i` plus a combining dot, and the Kelvin sign U+212A becomes `k`. Those two are not modelled.
- Characters are Unicode scalar values, like Python's code points, so `len` and slicing agree. Lone surrogates, which Python strings may hold, are not modelled.
- `Keywords.KeywordsShape`: the lower-case shape of keywords relies on the ASCII-only `Text.Lower` above.
- Python's sort is Timsort. The model uses a stable insertion sort. `Keywords.SortByCountSpec` states the contract both meet: a permutation, sorted by descending count, stable. That contract fixes the result uniquely, because the words are distinct.
- Ingestion (`rag/ingest.py`), the embedding retriever (`rag/retriever.py`), the agents and prompts (`crew/agents.py`, `crew/tasks.py`), orchestration (`crew/main.py`, `crew/llm.py`) and the Streamlit front-end (`frontend/app.py`) are not part of this model. They are I/O, library calls, model calls or prompt text with no checkable logic of their own.
