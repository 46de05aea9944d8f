# TF-IDF engine, modelled and verified in Dafny

This project models `TfIdf`, a small TF-IDF statistics engine in
`tfidf/__init__.py`. Two inputs define the engine:

- the document collection;
- a function that gives each document's terms.

On top of these it builds a chain of lazily cached views:

- **Document indexer** (`idx_to_doc`, `doc_hash_to_idx`): numbers the
  documents 0, 1, … in enumeration order.
- **Term indexer** (`idx_to_term`, `term_hash_to_idx`, `idx_of_term`,
  `decode_term_idx`): sorts the distinct terms of all documents and numbers
  them 1, 2, …. A reverse lookup of an unknown key answers 0.
- **Frequency counter**:
  - `doc_to_term_to_term_count` counts term occurrences per document.
  - `term_to_doc_count` counts, for each term, the documents that contain it.
- **Metrics**:
  - `doc_to_term_to_tf`: a count divided by the document's total count.
  - `term_to_idf`: `log N - log df`.
  - `doc_to_term_to_tfidf`: TF times IDF.
- **Decoder** (`idf`, `tf`, `tfidf`): the same results keyed by the terms
  themselves instead of their indices.

The Dafny modules follow these layers:

- `Indexer` (indexer.dfy): the two numberings and their reverse lookups, as
  functions. The properties proved are the bijection, sorted order, and the
  inverse lookups with their 0 default.
- `Counter` (counter.dfy): the two counting loops, each a method proved equal
  to a function. Lemmas prove that tallies are multisets, that counts add up,
  and that a document counts once per term.
- `Metrics` (metrics.dfy):
  - the TF loop (a method) and the IDF comprehension (a function);
  - the TF-IDF product and its loop over the documents;
  - TF bounds and the sum of TF to 1;
  - IDF key set, value and sign.
- `Views` (views.dfy): each engine property as a function of the corpus, and
  its properties stated on the corpus: term counts, document counts, TF, IDF,
  TF-IDF, and how the TF-IDF table is put together from the TF and the IDF.
- `Decoder` (decoder.dfy): the term-keyed `idf`, `tf` and `tfidf` views and
  their properties.
- `Engine` (engine.dfy): class `TfIdf`.
  - The nine `Optional` cache fields are `Option` fields.
  - Each property is a method that fills its cache on first use and returns
    the stored value afterwards.
  - `Valid()` ties every filled cache to the function from `Views` or
    `Indexer` that defines it.
  - `Settled()` says that no filled cache is ever refilled or emptied.
- `Wrappers` (wrappers.dfy): `Option` and `Result`.

Modelling choices:

- The documents are a fixed `seq<Doc>`.
- `get_terms_of_doc` is a pure function `Doc -> seq<Term>`.
- Terms are `int`, which has a total order, as `sorted` needs.
- `hash` is the identity.
- `math.log` is the constructor parameter `ln: nat -> real`.
- TF values are exact `real` ratios.
- The `ValueError` that `math.log(0)` raises for an empty corpus is
  `Failure(DomainError)`.

## Model

| member | source | states |
|---|---|---|
| Indexer.InsertSorted | tfidf/__init__.py:33 | inserting a term into a strictly increasing sequence keeps it strictly increasing and adds exactly that term |
| Indexer.SortedSet | tfidf/__init__.py:33 | `sorted(set(terms))` is strictly increasing and has exactly the elements of the input |
| Indexer.StrictlySortedUnique | tfidf/__init__.py:33 | a set has only one strictly increasing arrangement, so the numbering depends only on the set of terms |
| Indexer.AllTermsObserved | tfidf/__init__.py:33 | the terms collected over `idx_to_doc.values()` are exactly the terms of some document |
| Indexer.Enumerate | tfidf/__init__.py:34-37 | `enumerate(s, start)` as a dict has keys start..start+len-1 and holds the k-th element at start+k |
| Indexer.IdxToTerm | tfidf/__init__.py:30-38 | defines `idx_to_term` as `enumerate(sorted(set(terms)), 1)`; its contract: index 0 is never a key and every value is a term of the corpus |
| Indexer.TermHashToIdx | tfidf/__init__.py:39-47 | defines `term_hash_to_idx` as each sorted term keyed to its 1-based position; its contract: the keys are exactly the corpus's terms and no term maps to the default 0 |
| Indexer.IdxOfTerm | tfidf/__init__.py:114-115 | defines `idx_of_term` as a `defaultdict(int)` lookup: the stored index for a known term, 0 for any other |
| Indexer.DecodeTermIdx | tfidf/__init__.py:116-117 | defines `decode_term_idx` as `dict.get`: Some exactly for a non-negative key of `idx_to_term`, and then a value of it |
| Indexer.IdxToTermBijective | tfidf/__init__.py:30-38 | `idx_to_term` has keys exactly 1..N, where N is the number of distinct terms; its values are exactly the observed terms; a smaller index holds a smaller term |
| Indexer.IndexMapInverts | tfidf/__init__.py:43-46 | keying each element of a strictly increasing sequence to its 1-based position inverts the enumeration, and 0 is never a position |
| Indexer.TermLookupInverts | tfidf/__init__.py:39-47 | `term_hash_to_idx` inverts `idx_to_term` in both directions; 0 is not a term index; an unseen term looks up as 0 |
| Indexer.TermHashKeys | tfidf/__init__.py:39-47 | the terms with an index are exactly the terms of the corpus |
| Indexer.TermHashIndexes | tfidf/__init__.py:39-47 | the term index covers every term of every document and is injective; every index lies in 1..N and leads back through `idx_to_term` |
| Indexer.TermIndexOf | tfidf/__init__.py:114-115 | an observed term has an index in 1..N that `idx_to_term` maps back to it |
| Indexer.DecodeTermIdxInverse | tfidf/__init__.py:114-117 | `decode_term_idx` answers None exactly outside 1..N; it and `idx_of_term` are inverse on the observed terms; an index is nonzero exactly for an observed term |
| Indexer.IdxToDoc | tfidf/__init__.py:48-55 | defines `idx_to_doc` as `enumerate(docs, 0)`; its contract: the keys are exactly 0..n-1 and key i holds the i-th document |
| Indexer.DocHashToIdx | tfidf/__init__.py:56-64 | defines `doc_hash_to_idx` as the dict update over the documents in order, a later equal document overwriting an earlier one; its contract: every key's index holds that document |
| Indexer.DocIndexInverts | tfidf/__init__.py:56-64 | `doc_hash_to_idx` has exactly the documents as keys, maps each to a position holding it, and that position is the last one |
| Indexer.DocIndexOfDistinct | tfidf/__init__.py:56-64 | with distinct documents, looking up a document's position returns exactly that position |
| Indexer.DocSentinelAmbiguous | tfidf/__init__.py:56-64 | an unknown document looks up as 0, the same answer as the first document |
| Counter.Tally | tfidf/__init__.py:69-72 | defines the `+= 1` tally of a sequence of term indices, front to back; its contract: every counted index has a count between 1 and the length |
| Counter.TermCounts | tfidf/__init__.py:65-73 | defines `doc_to_term_to_term_count` as the tally of each document's term indices; its contract: a tally for exactly the documents 0..n-1, each count between 1 and the document's number of terms |
| Counter.AddDoc | tfidf/__init__.py:78-80 | defines one document's contribution to `term_to_doc_count`; its contract: the keys grow by the document's indices, each of those gains exactly 1 (from the default 0 when new), and every other count is unchanged |
| Counter.DocCounts | tfidf/__init__.py:74-81 | defines `term_to_doc_count` as `AddDoc` over the documents in order; its contract: every count lies between 1 and n |
| Counter.CountOccurrences | tfidf/__init__.py:70-72 | the inner counting loop produces the tally of the document's term indices |
| Counter.CountTerms | tfidf/__init__.py:66-73 | the nested loops produce one tally per document index 0..n-1, including an empty tally for a document without terms |
| Counter.TallyIsMultiset | tfidf/__init__.py:69-72 | a tally's keys are the elements, each value is the element's multiplicity (positive), and the values add up to the length |
| Counter.SumCountsRemove | tfidf/__init__.py:97 | the sum of a dictionary's values does not depend on the order of its keys |
| Counter.IdxSeqMultiplicity | tfidf/__init__.py:71 | under an injective index, a term's index occurs among the document's indices as often as the term occurs among its terms |
| Counter.IdxSeqHas | tfidf/__init__.py:79 | under an injective index, a term's index is in the set of the document's indices exactly when the term is in the document |
| Counter.TermCountsSum | tfidf/__init__.py:66-73 | a document's counts add up to its number of terms, and every key leads back to one of its terms |
| Counter.TermCountsOccurrences | tfidf/__init__.py:66-73 | the count at a term's index is the term's number of occurrences in the document |
| Counter.AddPresent | tfidf/__init__.py:79-80 | the inner loop adds one to the count of each distinct index in the document and leaves the other counts unchanged |
| Counter.CountDocs | tfidf/__init__.py:75-81 | the nested loops produce the document counts of the whole corpus |
| Counter.CountStep | tfidf/__init__.py:78-80 | one document more: a count that equals the number of documents holding an index before the document still does after it |
| Counter.DocCountsCountsDocs | tfidf/__init__.py:75-81 | an index has a document count exactly when some document contains it; the count is the number of such documents, between 1 and n |
| Counter.DocCountsSpec | tfidf/__init__.py:75-81 | for an observed term, the document count at its index is the number of documents whose terms contain it (repeats count once), between 1 and n |
| Metrics.SumScale | tfidf/__init__.py:97-101 | dividing every count by one total divides their sum by that total |
| Metrics.TfOf | tfidf/__init__.py:96-101 | defines one document's TF as each count divided by `sum(counts.values())`; its contract: the counts' keys, and every value in (0, 1] |
| Metrics.TfBounds | tfidf/__init__.py:96-101 | for a document with terms, the TF values add up to 1 |
| Metrics.TfMap | tfidf/__init__.py:91-102 | defines `doc_to_term_to_tf` as `TfOf` of every document's counts; its contract: a row for exactly the documents 0..n-1, each with its counts' keys |
| Metrics.Total | tfidf/__init__.py:97 | `sum(counts.values())` as a loop equals the sum of the counts |
| Metrics.ComputeTf | tfidf/__init__.py:92-102 | the TF loop gives every document 0..n-1 its counts divided by their total |
| Metrics.IdfOf | tfidf/__init__.py:82-90 | defines `term_to_idf` as ln N − ln df per counted index, failing like `math.log` on N = 0 and also on a zero count; its contract: success exactly when N > 0 and no count is 0, and then the keys of the counts |
| Metrics.TfIdfOf | tfidf/__init__.py:108-111 | defines one TF-IDF row as TF times IDF at each key of the TF row; its contract: the TF row's keys, and 0 wherever the IDF is 0 |
| Metrics.TfIdfMap | tfidf/__init__.py:103-113 | defines `doc_to_term_to_tfidf` as `TfIdfOf` of every document's TF row with one IDF; its contract: a row for exactly the documents 0..n-1, each with its TF row's keys |
| Metrics.ComputeTfIdf | tfidf/__init__.py:106-112 | the loop over the documents gives every document 0..n-1 its TF row times the IDF |
| Metrics.IdfBounds | tfidf/__init__.py:83-90 | with document counts in 1..n, the IDF exists with the same keys; it is 0 for a term in every document, non-negative for a monotone log, and larger for rarer terms (strictly for a strictly monotone log) |
| Views.Counts | tfidf/__init__.py:65-73 | defines the engine's `doc_to_term_to_term_count` as `TermCounts` on the engine's own term index; its contract: a tally for exactly the documents 0..n-1 |
| Views.Df | tfidf/__init__.py:74-81 | defines the engine's `term_to_doc_count` as `DocCounts` on the engine's own term index; its contract: every count lies between 1 and n |
| Views.Idf | tfidf/__init__.py:82-90 | defines the engine's `term_to_idf` as `IdfOf` of the corpus size and `Df`; its contract: it fails exactly for an empty corpus (the zero-count failure of `IdfOf` never arises), and otherwise has the keys of `Df` |
| Views.Tf | tfidf/__init__.py:91-102 | defines the engine's `doc_to_term_to_tf` as `TfMap` of `Counts`; its contract: a row for exactly the documents 0..n-1, each with the keys of its counts |
| Views.TfIdf | tfidf/__init__.py:103-113 | defines the engine's `doc_to_term_to_tfidf` as `TfIdfMap` of `Tf` and the IDF, and as the empty map when the IDF fails, which happens only for an empty corpus, where the source's loop has no document; its contract: a row for exactly the documents 0..n-1 |
| Views.TermCountsPositive | tfidf/__init__.py:66-73 | every document has a tally and every count is positive |
| Views.CountsKeysAreTermIndices | tfidf/__init__.py:66-73 | a document's counts add up to its number of terms; every key is a term index in 1..N (never 0) of one of its terms |
| Views.CountsWithinDf | tfidf/__init__.py:66-81 | every index counted in a document has a document count |
| Views.TfSpec | tfidf/__init__.py:91-102 | a document's TF has the keys of its counts; it is empty exactly when the document has no terms; the values are in (0, 1] and add up to 1; a term's TF is its occurrences over the document's length |
| Views.TfOfTerm | tfidf/__init__.py:96-101 | a term of a document has a TF in that document, equal to its occurrences over the document's length |
| Views.DfKeysAreTermIndices | tfidf/__init__.py:74-81 | document counts are keyed by real term indices and lie between 1 and n |
| Views.IdfSpec | tfidf/__init__.py:82-90 | the IDF fails exactly for an empty corpus; otherwise it has the keys of `term_to_doc_count`; an observed term's IDF is ln N − ln df, 0 when the term is in every document, non-negative for a monotone log |
| Views.TfIdfSpec | tfidf/__init__.py:103-113 | for every document the IDF exists, the TF-IDF has exactly the TF's keys, and each value is TF times IDF |
| Views.TfIdfIsProduct | tfidf/__init__.py:107-112 | a document's TF-IDF row is the pointwise product of its TF row with the IDF, which covers the row |
| Views.TfIdfRowFrom | tfidf/__init__.py:108-111 | a TF-IDF row reads the IDF only at the row's own keys: built from the IDF, or from no IDF at all when no document has a term, row i is row i of `doc_to_term_to_tfidf` |
| Views.TfIdfTable | tfidf/__init__.py:106-112 | over a non-empty corpus, the loop run on the TF table and the IDF as far as it is read gives exactly `doc_to_term_to_tfidf` |
| Decoder.DecodeKeys | tfidf/__init__.py:119-122 | defines the re-keying of an index-keyed map by `decode_term_idx` of each key; its contract: every new key is a term of `idx_to_term` |
| Decoder.DecodePerDoc | tfidf/__init__.py:126-131 | defines the re-keying of every document's row; its contract: exactly the same documents |
| Decoder.DecodePerDocAt | tfidf/__init__.py:126-131 | a document's re-keyed row is its row re-keyed |
| Decoder.IdfByTerm | tfidf/__init__.py:118-123 | defines `idf` as the IDF re-keyed by term, failing when the IDF fails; its contract: it fails exactly for an empty corpus |
| Decoder.TfByTerm | tfidf/__init__.py:124-132 | defines `tf` as every document's TF row re-keyed by term; its contract: a row for exactly the documents 0..n-1 |
| Decoder.TfIdfByTerm | tfidf/__init__.py:133-141 | defines `tfidf` as every document's TF-IDF row re-keyed by term; its contract: a row for exactly the documents 0..n-1 |
| Decoder.IdxToTermInverted | tfidf/__init__.py:43-46 | the term lookup leads every term of `idx_to_term` back to its index |
| Decoder.DecodeKeysAt | tfidf/__init__.py:120-123 | re-keying moves each value from its index to the term with that index |
| Decoder.DecodeKeysHas | tfidf/__init__.py:120-123 | every key of a re-keyed map is the term of some original index |
| Decoder.IdfByTermSpec | tfidf/__init__.py:118-123 | `idf` fails exactly for an empty corpus; otherwise its keys are exactly the observed terms, each with value ln N − ln(number of documents containing it) |
| Decoder.IdfDecoded | tfidf/__init__.py:118-123 | proof step for the engine's `idf`: the term lookup inverts `idx_to_term` and every IDF key decodes, so `idf` is the IDF re-keyed (the equation itself is the definition of `IdfByTerm`) |
| Decoder.TfKeysAreTermIndices | tfidf/__init__.py:124-132 | every TF key is a term index, so decoding never meets a missing index |
| Decoder.TfIdfKeysAreTermIndices | tfidf/__init__.py:133-141 | every TF-IDF key is a term index |
| Decoder.TfByTermSpec | tfidf/__init__.py:124-132 | `tf` has every document; a document's keys are exactly its terms, and a term's value is its occurrences over the document's length |
| Decoder.TfDecoded | tfidf/__init__.py:124-132 | proof step for `TfByTermSpec`: document i has a TF row whose keys all decode, and its `tf` row is that row re-keyed (the equation is the definition of `TfByTerm` at one document) |
| Decoder.TfIdfDecoded | tfidf/__init__.py:133-141 | proof step for `TfIdfByTermKeys` and `TfIdfByTermSpec`: document i has a TF-IDF row whose keys all decode, and its `tfidf` row is that row re-keyed (the equation is the definition of `TfIdfByTerm` at one document) |
| Decoder.DecodeProduct | tfidf/__init__.py:133-141 | re-keying a pointwise product gives the pointwise product of the re-keyed factors |
| Decoder.TfIdfByTermKeys | tfidf/__init__.py:133-141 | `tfidf` has every document with exactly the keys of its `tf`, all covered by `idf`, which exists |
| Decoder.TfIdfByTermSpec | tfidf/__init__.py:133-141 | for any term of any document, `idf` exists and has the term, the document's `tf` and `tfidf` have it, and its `tfidf` value is its `tf` in that document times its `idf` |
| Engine.TfIdf.constructor | tfidf/__init__.py:14-29 | the engine keeps its inputs, and all nine caches start empty |
| Engine.TfIdf.IdxToDoc | tfidf/__init__.py:48-55 | returns and caches `idx_to_doc`; it may change no other cache; a second call changes nothing; no filled cache changes |
| Engine.TfIdf.IdxToTerm | tfidf/__init__.py:30-38 | returns and caches `idx_to_term`; the first call also fills `idx_to_doc`, through which the documents are read, and may change no other cache; a second call changes nothing |
| Engine.TfIdf.TermHashToIdx | tfidf/__init__.py:39-47 | returns and caches `term_hash_to_idx`; it may change no cache outside `idx_to_doc`, `idx_to_term` and `term_hash_to_idx`; a second call changes nothing |
| Engine.TfIdf.DocHashToIdx | tfidf/__init__.py:56-64 | returns and caches `doc_hash_to_idx`; it may change no cache but `idx_to_doc` and `doc_hash_to_idx`; a second call changes nothing |
| Engine.TfIdf.DocToTermToTermCount | tfidf/__init__.py:65-73 | returns and caches the per-document term counts; it may change no cache outside the term index and the term counts; a second call changes nothing |
| Engine.TfIdf.TermToDocCount | tfidf/__init__.py:74-81 | returns and caches the per-term document counts; it may change no cache outside the term index and the document counts; a second call changes nothing |
| Engine.TfIdf.TermToIdf | tfidf/__init__.py:82-90 | returns the IDF, failing exactly for an empty corpus; on success the IDF is cached; on failure the cache stays empty; it may change no cache outside the term index, the document counts and the IDF |
| Engine.TfIdf.DocToTermToTf | tfidf/__init__.py:91-102 | returns and caches the per-document TF maps; it may change no cache outside the term index, the term counts and the TF; a second call changes nothing |
| Engine.TfIdf.IdfFor | tfidf/__init__.py:109-111 | reads `term_to_idf` exactly when some document has a term: then the IDF is cached and returned; otherwise nothing changes and the empty map is returned; it may change no cache outside `term_to_idf`'s chain |
| Engine.TfIdf.TfIdfTable | tfidf/__init__.py:106-112 | computes the rows of `doc_to_term_to_tfidf`: exactly `Views.TfIdf`; for an empty corpus nothing changes, so neither the TF nor the IDF is read; it never touches `doc_hash_to_idx` or the TF-IDF cache |
| Engine.TfIdf.DocToTermToTfIdf | tfidf/__init__.py:103-113 | returns and caches the TF-IDF map; it never touches `doc_hash_to_idx`; a second call changes nothing |
| Engine.TfIdf.IdxOfTerm | tfidf/__init__.py:114-115 | an observed term's index leads back to it through `idx_to_term`; any other term gets 0; it may change no cache outside the term index |
| Engine.TfIdf.DecodeTermIdx | tfidf/__init__.py:116-117 | answers a term exactly for 1..N, and `idx_of_term` of that term is the index again; it may change no cache but `idx_to_doc` and `idx_to_term` |
| Engine.TfIdf.Idf | tfidf/__init__.py:118-123 | returns the term-keyed IDF, failing exactly for an empty corpus; it may change no cache outside `term_to_idf`'s chain |
| Engine.TfIdf.Tf | tfidf/__init__.py:124-132 | returns the term-keyed TF of every document; it may change no cache outside `doc_to_term_to_tf`'s chain |
| Engine.TfIdf.TfIdf | tfidf/__init__.py:133-141 | returns the term-keyed TF-IDF of every document; it never touches `doc_hash_to_idx` |

Every engine method promises `Valid()` and `Settled()`: each filled cache
still holds its defining value, and no filled cache was refilled or emptied.
Each method's `modifies` clause names only the caches on its property's
dependency chain, so every other cache, filled or empty, is left as it was.
Below, "the term index" means `idx_to_doc`, `idx_to_term` and
`term_hash_to_idx`.

## Left out

- Floating point: TF is an exact real ratio and `math.log` is the parameter `ln`. Rounding is not modelled. IDF values are stated as `ln(N) - ln(df)`. Their sign is proved only for a `ln` assumed monotone.
- `hash`: taken to be the identity. Collisions are not modelled; for example, CPython gives `hash(-1) == hash(-2)`, so the integer terms -1 and -2 would share an index.
- `defaultdict` auto-insertion on reads: a lookup of a missing key answers 0 without adding the key. This affects `idx_of_term` and the counters.
- Inner `defaultdict`s: the TF and TF-IDF rows in the source are `defaultdict(int)`, so reading a missing key there gives 0. They are plain maps here, and the model never reads a missing key.
- `get_docs` and `get_terms_of_doc`: `get_docs` is read once, by `idx_to_doc` (line 53), and every later use of the documents goes through that cache, so the fixed sequence `docs` is exact. `get_terms_of_doc` is called again at each use (lines 33, 71 and 79) and is taken to be a pure function; any I/O or variation between those calls is not modelled.
- Generic `Term`: fixed to `int`. `Doc` stays a type parameter with equality.
- Aliasing: the source returns its cached dictionaries themselves, so a caller could mutate a cache through the returned value. The methods here return values.
- Engine.TfIdf.DocToTermToTermCount: builds `term_hash_to_idx` even when no document has a term. The source reads it only inside the inner loop. Its frame still excludes every cache outside the term index and the term counts.
- Engine.TfIdf.TermToDocCount: same as DocToTermToTermCount. It builds `term_hash_to_idx` eagerly.
- Engine.TfIdf.DocToTermToTf: builds `doc_to_term_to_term_count` even for an empty corpus. The source's loop body never runs in that case. This stays inside its frame.
- Engine.TfIdf.DocToTermToTfIdf: promises only `Settled()` for the caches on its chain that it fills along the way, not which of them get filled.
- Engine.TfIdf.IdfFor: reads `term_to_idf` once, before the rows are built, when some document has a term. The source reads it inside the comprehension of the first row with a term (line 110). The caches end up the same; only the order of the fills differs.
- Engine.TfIdf.Idf: reads `idx_to_term` for every non-empty corpus. The source reaches it only through `decode_term_idx`, once per entry (line 121), so an IDF without entries never builds it.
- Engine.TfIdf.Tf: reads `idx_to_term` unconditionally. The source reaches it only through `decode_term_idx` (line 128), so a corpus without terms never builds it.
- Engine.TfIdf.TfIdf: same as `Tf`, for line 137.
- Metrics.IdfOf: also fails if a document count is 0, as `math.log(0)` would. `Views.DfKeysAreTermIndices` shows this never happens on the engine's own counts.
- Duplicate documents: `doc_hash_to_idx` keeps the last position (`Indexer.DocIndexInverts`). Its default 0 for an unknown document coincides with the first document's index (`Indexer.DocSentinelAmbiguous`).
