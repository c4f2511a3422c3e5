# Retrieval fusion of the blog question-answering engine, in Dafny

This project models the deterministic core of `consultar_streamlit_v2.py`. That
program answers questions about a corpus of archived blog posts. A language
model turns the question into a few key concepts. Each concept is searched in
two ways: semantically, in a vector index, and lexically, by a case-insensitive
substring filter over the chunk table. The passages found are deduplicated and
fused into one labelled context text plus a sorted list of source URLs. That
context and the chat history then seed the answer-synthesis chat. The three
deterministic parts are modelled:

- `Terms`: the reply of the concept extractor, split on commas with each piece
  whitespace-trimmed. Python's `str.split(',')` and `str.strip()` are written
  out, including the whitespace set of `str.isspace`.
- `Fusion`: `realizar_busqueda_avanzada`. This is the imperative method
  `AdvancedSearch`, with nested loops over terms, semantic hits and lexical
  rows. It keeps the same accumulator string and the same two sets as the
  source. It is proved to compute `Render(Accepted(Candidates(store, terms),
  Placeholder))`:
  - `Candidates` is every (term, search, passage) triple in the order the
    source considers them;
  - `Accepted` keeps the first occurrence of each content that is not the
    placeholder;
  - `Render` concatenates one labelled block per accepted passage.

  The URL list is the accepted URLs, sorted. The properties of the result are
  then lemmas about those functions: deduplication, exclusion of the
  placeholder, order, and the cap of five hits per term and search.
- `History`: the mapping of the stored chat messages to the seed history of the
  synthesis chat.
- `Ordering`: Python's `<` on `str` (code-point lexicographic) and
  `sorted(list(s))` on a set of strings. The latter is a function whose
  contract determines its result uniquely.

External collaborators become inputs. The language model's reply is an opaque
string. The vector index is a function `nearest` from the query text to its
full ranking of stored passages; `n_results = 5` takes the first five. The
chunk table is a sequence of (content, url) rows. `str.upper`, which pandas
applies to both the column and the term, is an abstract function
`upper: string -> string`.

## Model

| member | source | states |
|---|---|---|
| Terms.IsSpace | consultar_streamlit_v2.py:59 | the whitespace `str.strip()` removes, which is Python's `str.isspace` set: TAB..CR, FS..US, SPACE, U+0085, U+00A0, U+1680, U+2000..U+200A, U+2028, U+2029, U+202F, U+205F, U+3000; no printable ASCII character other than SPACE is whitespace |
| Terms.StripLeft | consultar_streamlit_v2.py:59 | the result is a suffix of the input that is empty or starts with a non-whitespace character; everything removed is whitespace |
| Terms.StripRight | consultar_streamlit_v2.py:59 | the result is a prefix of the input that is empty or ends with a non-whitespace character; everything removed is whitespace |
| Terms.Strip | consultar_streamlit_v2.py:59 | `str.strip()`: the result is an infix of the input whose ends are not whitespace; everything removed on either side is whitespace |
| Terms.StripUnique | consultar_streamlit_v2.py:59 | any cut of a string into leading whitespace, a middle with non-whitespace ends, and trailing whitespace has `Strip` as its middle, so `Strip`'s contract determines it |
| Terms.Split | consultar_streamlit_v2.py:59 | `str.split(',')` yields exactly one more piece than there are commas, empty pieces included, and no piece contains a comma |
| Terms.SplitJoin | consultar_streamlit_v2.py:59 | splitting loses nothing: joining the pieces with the separator gives back the reply |
| Terms.JoinSplit | consultar_streamlit_v2.py:59 | splitting a join of separator-free pieces gives back exactly those pieces |
| Terms.ExtractTerms | consultar_streamlit_v2.py:59 | the term list has one more entry than the reply has commas; no term holds a comma; no non-empty term starts or ends with whitespace |
| Terms.ExtractTermsOfJoin | consultar_streamlit_v2.py:59 | for a reply made of comma-free pieces, term k is piece k trimmed, in order, and there are as many terms as pieces |
| Terms.ExtractTermsPair | consultar_streamlit_v2.py:59 | a reply with one comma gives exactly the two trimmed sides |
| Terms.ExtractTermsOfWords | consultar_streamlit_v2.py:59 | a reply in the requested `a, b` format gives back exactly `[a, b]` |
| Terms.ExtractTermsExample | consultar_streamlit_v2.py:59 | the reply `sv17q, milorbs` (the extractor prompt's own example) gives `["sv17q", "milorbs"]` |
| Ordering.Below | consultar_streamlit_v2.py:96 | Python's `<` on `str`: the first differing code point decides, and a proper prefix comes first; a string is never below itself |
| Ordering.BelowIrreflexive | consultar_streamlit_v2.py:96 | no string is below itself under Python's `<` |
| Ordering.BelowTransitive | consultar_streamlit_v2.py:96 | Python's `<` on strings is transitive |
| Ordering.BelowTotal | consultar_streamlit_v2.py:96 | any two different strings are ordered one way or the other |
| Ordering.Least | consultar_streamlit_v2.py:96 | a non-empty set of strings has a member below all the others |
| Ordering.SortedList | consultar_streamlit_v2.py:96 | `sorted(list(s))` is strictly ascending, has exactly the members of `s`, and has as many entries as `s` |
| Ordering.AscendingDistinct | consultar_streamlit_v2.py:96 | a strictly ascending list has no duplicates |
| Ordering.AscendingUnique | consultar_streamlit_v2.py:96 | two strictly ascending lists with the same members are equal, so the sorted URL list is unique |
| Fusion.SemanticHits | consultar_streamlit_v2.py:75 | the vector query with `n_results = 5` gives at most five passages, in ranking order, from the top of the ranking; it gives the whole ranking when that has fewer than five |
| Fusion.Contains | consultar_streamlit_v2.py:78 | Python's `needle in hay` on strings, used as `term.upper() in content.upper()` inside the mask; it only holds when the needle is no longer than the text |
| Fusion.ContainsIff | consultar_streamlit_v2.py:78 | the plain (`regex=False`) containment test holds exactly when the needle occurs at some position of the upper-cased text |
| Fusion.MatchingRows | consultar_streamlit_v2.py:78 | the filtered table holds exactly the rows that contain the term case-insensitively, and is no longer than the table |
| Fusion.Matches | consultar_streamlit_v2.py:78 | the mask of `str.contains(term, case=False, regex=False)`: a row matches exactly when the upper-cased term occurs at some position of the upper-cased content |
| Fusion.MatchingRowsAppend | consultar_streamlit_v2.py:78 | filtering keeps table order and repeated rows: the filter of `a + b` is the filter of `a` followed by the filter of `b` |
| Fusion.MatchingRowsSingle | consultar_streamlit_v2.py:78 | a single row is kept exactly when it matches |
| Fusion.LexicalHits | consultar_streamlit_v2.py:89 | `head(5)` of the filtered table: at most five rows, the first matching rows in table order, all of them when fewer than five match |
| Fusion.EmptyTermMatchesAll | consultar_streamlit_v2.py:78 | an empty term matches every row (given that upper-casing the empty string gives the empty string) |
| Fusion.Tag | consultar_streamlit_v2.py:81-94 | the hits of one search for one term become candidates one for one, in hit order, labelled with the term and the search |
| Fusion.TermCandidates | consultar_streamlit_v2.py:81-94 | the candidates of one term: its semantic hits in ranking order, then its lexical hits in table order; at most ten |
| Fusion.TermCandidatesShape | consultar_streamlit_v2.py:81-94 | a term yields at most ten candidates, all labelled with it; semantic hits are considered before lexical rows; at most five come from each search |
| Fusion.Candidates | consultar_streamlit_v2.py:72-94 | every candidate in the order the source considers it, term after term; each is labelled with one of the terms |
| Fusion.CandidatesAppend | consultar_streamlit_v2.py:72 | terms are considered in input order: the candidates of `t1 + t2` are those of `t1` followed by those of `t2` |
| Fusion.Contents | consultar_streamlit_v2.py:86 | the value of `chunks_usados` (l.68, l.86, l.93) when applied to the accepted candidates: their contents, at most one per candidate |
| Fusion.Urls | consultar_streamlit_v2.py:87 | the value of `urls_usadas` (l.69, l.87, l.94) when applied to the accepted candidates: their URLs, at most one per candidate |
| Fusion.ContentsMembers | consultar_streamlit_v2.py:86 | the set of contents holds the content of each candidate and nothing else |
| Fusion.UrlsMembers | consultar_streamlit_v2.py:87 | the set of URLs holds the URL of each candidate and nothing else |
| Fusion.Accepted | consultar_streamlit_v2.py:83-94 | the passages the two tests (l.83, l.91) accept over the whole run, in consideration order: each candidate whose content is not the placeholder and was not accepted before; never more than the candidates |
| Fusion.AcceptedSnoc | consultar_streamlit_v2.py:83-87 | one more candidate is appended to the accepted list when it is fresh; otherwise the accepted list is unchanged |
| Fusion.AcceptedAreCandidates | consultar_streamlit_v2.py:83 | only candidates are accepted, and never one whose content is the placeholder |
| Fusion.AcceptedContents | consultar_streamlit_v2.py:83-86 | the contents of the accepted passages are exactly the contents of all candidates except the placeholder |
| Fusion.AcceptedDistinct | consultar_streamlit_v2.py:83-86 | no two accepted passages share a content, across terms and both searches |
| Fusion.AcceptedPrefix | consultar_streamlit_v2.py:72 | considering more candidates only appends to what was already accepted |
| Fusion.UrlsOfAccepted | consultar_streamlit_v2.py:87 | every collected URL belongs to a candidate whose content is not the placeholder |
| Fusion.Block | consultar_streamlit_v2.py:85 | a block is longer than the passage content it carries, so it is never empty |
| Fusion.Render | consultar_streamlit_v2.py:85-92 | `contexto_final`: one block per accepted passage, in acceptance order, starting from the empty string (l.67); at least as long as the number of accepted passages |
| Fusion.RenderEmpty | consultar_streamlit_v2.py:67 | the context is empty exactly when no passage was accepted |
| Fusion.RenderAppend | consultar_streamlit_v2.py:85 | the context is the concatenation of the blocks in acceptance order |
| Fusion.Consider | consultar_streamlit_v2.py:83-87 | the source's test (not the placeholder and not yet used) accepts exactly the fresh candidates. After an accepted candidate, context, used contents and URLs extend by its block, its content and its URL. After a rejected one, all three are unchanged |
| Fusion.AdvancedSearch | consultar_streamlit_v2.py:63-96 | the returned context is the blocks of the accepted candidates in consideration order. The returned URL list is strictly ascending (so duplicate-free), has exactly the URLs of the accepted passages, and has as many entries as there are distinct such URLs |
| History.ToChatTurn | consultar_streamlit_v2.py:104-105 | the turn's role is `user` exactly when the message's role is `user`, and `model` otherwise; its one part is the message content |
| History.ToChatHistory | consultar_streamlit_v2.py:102-105 | the seed history has one turn per message, in order. Each turn carries its message's content, and its role is `user` exactly for user messages and `model` for all others |
| History.ToChatHistoryAppend | consultar_streamlit_v2.py:102-105 | the mapping commutes with appending messages |
| History.ToChatHistoryIgnoresUrls | consultar_streamlit_v2.py:105 | only role and content matter; the URLs stored with a message are dropped |
| History.ToChatHistoryExample | consultar_streamlit_v2.py:102-105 | a user `hi` followed by an assistant `hello` seeds exactly the turns (`user`, `hi`) and (`model`, `hello`) |

The acceptance rules (`IsFresh`, `Accepted` and the lemmas about them) are
stated for an arbitrary sentinel string. `AdvancedSearch` uses them with the
source's placeholder text, so every one of those lemmas holds for that text.

## Left out

- The language-model calls are not modelled: the concept extraction call at l.58 and the chat session at l.107 and l.122. Nor are the prompt texts. The reply is an input string.
- `cargar_recursos` (l.16-39) is not modelled: secrets, model configuration, opening the vector store and reading the CSV are I/O.
- The vector index's similarity ranking is not modelled. `nearest` is an uninterpreted input, and nothing is assumed about it beyond being a sequence.
- `str.upper` is not modelled character by character: it is an abstract function applied to both sides. `Fusion.EmptyTermMatchesAll` therefore needs the fact that it maps the empty string to itself.
- The `print` logging (l.60, l.73) is not modelled.
- `app_v2.py` (the chat user interface) is not part of this model. This includes:
  - its empty-context branch;
  - its handling of errors;
  - the fact that it appends the current question to the history before the pipeline runs.
- Exceptions are not modelled. A metadata record without a `url` key would make the source raise `KeyError`; here every passage carries a URL.
- Fusion.AdvancedSearch: the placeholder is excluded only when it is a passage's whole content (l.83, l.91). It can still appear inside a block, as part of a term, a URL or a longer content, so no contract says the context never contains that text.
