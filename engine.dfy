/** The `TfIdf` engine: a corpus, given by its documents and a function that
    extracts each document's terms, and nine lazily filled caches. Every
    property computes its value on first use, stores it, and returns the
    stored value from then on. */
module Engine {
  import opened Wrappers
  import opened Indexer
  import opened Counter
  import opened Metrics
  import Views
  import Decoder

  /** A filled cache keeps its value. */
  predicate Keeps<T(==)>(before: Option<T>, after: Option<T>)
  {
    before.Some? ==> after == before
  }

  class TfIdf<Doc(==)> {
    /** `get_terms_of_doc`. */
    const termsOf: Doc -> seq<Term>
    /** What `get_docs` returns. */
    const docs: seq<Doc>
    /** The natural logarithm, on document counts. */
    const ln: nat -> real

    var idxToTermCache: Option<map<nat, Term>>
    var termHashToIdxCache: Option<map<Term, nat>>
    var idxToDocCache: Option<map<nat, Doc>>
    var docHashToIdxCache: Option<map<Doc, nat>>
    var termCountsCache: Option<map<nat, map<nat, nat>>>
    var docCountsCache: Option<map<nat, nat>>
    var idfCache: Option<map<nat, real>>
    var tfCache: Option<map<nat, map<nat, real>>>
    var tfidfCache: Option<map<nat, map<nat, real>>>

    /** Since the previous state no filled cache was refilled or emptied. */
    twostate predicate Settled()
      reads this
    {
      && Keeps(old(idxToTermCache), idxToTermCache)
      && Keeps(old(termHashToIdxCache), termHashToIdxCache)
      && Keeps(old(idxToDocCache), idxToDocCache)
      && Keeps(old(docHashToIdxCache), docHashToIdxCache)
      && Keeps(old(termCountsCache), termCountsCache)
      && Keeps(old(docCountsCache), docCountsCache)
      && Keeps(old(idfCache), idfCache)
      && Keeps(old(tfCache), tfCache)
      && Keeps(old(tfidfCache), tfidfCache)
    }

    /** Every filled cache holds the value its property is defined to have. */
    ghost predicate Valid()
      reads this
    {
      && (idxToTermCache.Some? ==> idxToTermCache.value == Indexer.IdxToTerm(docs, termsOf))
      && (termHashToIdxCache.Some? ==> termHashToIdxCache.value == Indexer.TermHashToIdx(docs, termsOf))
      && (idxToDocCache.Some? ==> idxToDocCache.value == Indexer.IdxToDoc(docs))
      && (docHashToIdxCache.Some? ==> docHashToIdxCache.value == Indexer.DocHashToIdx(docs))
      && (termCountsCache.Some? ==> termCountsCache.value == Views.Counts(docs, termsOf))
      && (docCountsCache.Some? ==> docCountsCache.value == Views.Df(docs, termsOf))
      && (idfCache.Some? ==> Views.Idf(docs, termsOf, ln) == Success(idfCache.value))
      && (tfCache.Some? ==> tfCache.value == Views.Tf(docs, termsOf))
      && (tfidfCache.Some? ==> tfidfCache.value == Views.TfIdf(docs, termsOf, ln))
    }

    /** `__init__`: nothing is computed yet. */
    constructor (termsOf: Doc -> seq<Term>, docs: seq<Doc>, ln: nat -> real)
      ensures this.termsOf == termsOf && this.docs == docs && this.ln == ln
      ensures Valid()
      ensures idxToTermCache.None? && termHashToIdxCache.None? && idxToDocCache.None?
      ensures docHashToIdxCache.None? && termCountsCache.None? && docCountsCache.None?
      ensures idfCache.None? && tfCache.None? && tfidfCache.None?
    {
      this.termsOf := termsOf;
      this.docs := docs;
      this.ln := ln;
      idxToTermCache := None;
      termHashToIdxCache := None;
      idxToDocCache := None;
      docHashToIdxCache := None;
      termCountsCache := None;
      docCountsCache := None;
      idfCache := None;
      tfCache := None;
      tfidfCache := None;
    }

    /** `idx_to_doc`. */
    method IdxToDoc() returns (m: map<nat, Doc>)
      requires Valid()
      modifies this`idxToDocCache
      ensures Valid() && Settled()
      ensures old(idxToDocCache).Some? ==> unchanged(this)
      ensures m == Indexer.IdxToDoc(docs) && idxToDocCache == Some(m)
    {
      if idxToDocCache.None? {
        idxToDocCache := Some(Indexer.IdxToDoc(docs));
      }
      m := idxToDocCache.value;
    }

    /** `idx_to_term`: reads the documents through `idx_to_doc`, so the first
        call fills that cache too. */
    method IdxToTerm() returns (m: map<nat, Term>)
      requires Valid()
      modifies this`idxToTermCache, this`idxToDocCache
      ensures Valid() && Settled()
      ensures old(idxToTermCache).Some? ==> unchanged(this)
      ensures old(idxToTermCache).None? ==> idxToDocCache.Some?
      ensures m == Indexer.IdxToTerm(docs, termsOf) && idxToTermCache == Some(m)
    {
      if idxToTermCache.None? {
        // Called for its effect: the documents are read through `idx_to_doc`.
        var _ := IdxToDoc();
        idxToTermCache := Some(Indexer.IdxToTerm(docs, termsOf));
      }
      m := idxToTermCache.value;
    }

    /** `term_hash_to_idx`: built from `idx_to_term`. */
    method TermHashToIdx() returns (r: map<Term, nat>)
      requires Valid()
      modifies this`idxToTermCache, this`termHashToIdxCache, this`idxToDocCache
      ensures Valid() && Settled()
      ensures old(termHashToIdxCache).Some? ==> unchanged(this)
      ensures r == Indexer.TermHashToIdx(docs, termsOf) && termHashToIdxCache == Some(r)
    {
      if termHashToIdxCache.None? {
        // Called for its effect: the terms are read through `idx_to_term`.
        var _ := IdxToTerm();
        termHashToIdxCache := Some(Indexer.TermHashToIdx(docs, termsOf));
      }
      r := termHashToIdxCache.value;
    }

    /** `doc_hash_to_idx`: built from `idx_to_doc`. */
    method DocHashToIdx() returns (r: map<Doc, nat>)
      requires Valid()
      modifies this`idxToDocCache, this`docHashToIdxCache
      ensures Valid() && Settled()
      ensures old(docHashToIdxCache).Some? ==> unchanged(this)
      ensures r == Indexer.DocHashToIdx(docs) && docHashToIdxCache == Some(r)
    {
      if docHashToIdxCache.None? {
        // Called for its effect: the documents are read through `idx_to_doc`.
        var _ := IdxToDoc();
        docHashToIdxCache := Some(Indexer.DocHashToIdx(docs));
      }
      r := docHashToIdxCache.value;
    }

    /** `doc_to_term_to_term_count`. */
    method DocToTermToTermCount() returns (counts: map<nat, map<nat, nat>>)
      requires Valid()
      modifies this`idxToTermCache, this`termHashToIdxCache,
               this`idxToDocCache, this`termCountsCache
      ensures Valid() && Settled()
      ensures old(termCountsCache).Some? ==> unchanged(this)
      ensures counts == Views.Counts(docs, termsOf) && termCountsCache == Some(counts)
    {
      if termCountsCache.None? {
        // Called for its effect: the documents are read through `idx_to_doc`.
        var _ := IdxToDoc();
        var termToIdx := TermHashToIdx();
        var c := CountTerms(docs, termsOf, termToIdx);
        termCountsCache := Some(c);
      }
      counts := termCountsCache.value;
    }

    /** `term_to_doc_count`. */
    method TermToDocCount() returns (df: map<nat, nat>)
      requires Valid()
      modifies this`idxToTermCache, this`termHashToIdxCache, this`idxToDocCache, this`docCountsCache
      ensures Valid() && Settled()
      ensures old(docCountsCache).Some? ==> unchanged(this)
      ensures df == Views.Df(docs, termsOf) && docCountsCache == Some(df)
    {
      if docCountsCache.None? {
        // Called for its effect: the documents are read through `idx_to_doc`.
        var _ := IdxToDoc();
        var termToIdx := TermHashToIdx();
        var d := CountDocs(docs, termsOf, termToIdx);
        docCountsCache := Some(d);
      }
      df := docCountsCache.value;
    }

    /** `term_to_idf`: the logarithm of the corpus size is taken first, so an
        empty corpus fails before any document count is computed, and the
        cache stays empty. */
    method TermToIdf() returns (r: Result<map<nat, real>, MathError>)
      requires Valid()
      modifies this`idxToTermCache, this`termHashToIdxCache, this`idxToDocCache,
               this`docCountsCache, this`idfCache
      ensures Valid() && Settled()
      ensures old(idfCache).Some? ==> unchanged(this)
      ensures r == Views.Idf(docs, termsOf, ln)
      ensures r.Failure? <==> |docs| == 0
      ensures r.Success? ==> idfCache == Some(r.value)
      ensures r.Failure? ==> idfCache == None
    {
      if idfCache.Some? {
        return Success(idfCache.value);
      }
      // Called for its effect: `len(self.idx_to_doc)` is the number of documents.
      var _ := IdxToDoc();
      if |docs| == 0 {
        return Failure(DomainError);
      }
      var df := TermToDocCount();
      r := IdfOf(|docs|, df, ln);
      idfCache := Some(r.value);
    }

    /** `doc_to_term_to_tf`. */
    method DocToTermToTf() returns (tf: map<nat, map<nat, real>>)
      requires Valid()
      modifies this`idxToTermCache, this`termHashToIdxCache, this`idxToDocCache,
               this`termCountsCache, this`tfCache
      ensures Valid() && Settled()
      ensures old(tfCache).Some? ==> unchanged(this)
      ensures tf == Views.Tf(docs, termsOf) && tfCache == Some(tf)
    {
      if tfCache.None? {
        // Called for its effect: the loop runs over the keys of `idx_to_doc`.
        var _ := IdxToDoc();
        var counts := DocToTermToTermCount();
        Views.TermCountsPositive(docs, termsOf, Indexer.TermHashToIdx(docs, termsOf));
        var t := ComputeTf(counts, |docs|);
        tfCache := Some(t);
      }
      tf := tfCache.value;
    }

    /** The IDF as the loop of `doc_to_term_to_tfidf` reads it: the
        comprehension of a row reads `term_to_idf` only for a term of that
        row, so it is read once some document has a term, and otherwise not
        at all. */
    method IdfFor(tf: map<nat, map<nat, real>>) returns (idf: map<nat, real>)
      requires Valid() && |docs| > 0 && tf == Views.Tf(docs, termsOf)
      modifies this`idxToTermCache, this`termHashToIdxCache, this`idxToDocCache,
               this`docCountsCache, this`idfCache
      ensures Valid() && Settled()
      ensures || Views.Idf(docs, termsOf, ln) == Success(idf)
              || (idf == map[] && forall i: nat :: i < |docs| ==> tf[i] == map[])
      ensures (forall i: nat :: i < |docs| ==> tf[i] == map[]) ==> idf == map[] && unchanged(this)
      ensures (exists i: nat :: i < |docs| && tf[i] != map[]) ==> idfCache == Some(idf)
    {
      idf := map[];
      if exists i :: 0 <= i < |docs| && tf[i] != map[] {
        var r := TermToIdf();
        idf := r.value;
      }
    }

    /** The rows of `doc_to_term_to_tfidf`: none for an empty corpus, which
        reads neither the TF nor the IDF. */
    method TfIdfTable() returns (tfidf: map<nat, map<nat, real>>)
      requires Valid()
      modifies this`idxToTermCache, this`termHashToIdxCache, this`idxToDocCache, this`termCountsCache,
               this`docCountsCache, this`idfCache, this`tfCache
      ensures Valid() && Settled()
      ensures tfidf == Views.TfIdf(docs, termsOf, ln)
      ensures |docs| == 0 ==> unchanged(this)
    {
      if |docs| == 0 {
        tfidf := map[];
        assert Views.TfIdf(docs, termsOf, ln).Keys == {};
      } else {
        var tf := DocToTermToTf();
        var idf := IdfFor(tf);
        tfidf := Views.TfIdfTable(docs, termsOf, ln, tf, idf);
      }
    }

    /** `doc_to_term_to_tfidf`. */
    method DocToTermToTfIdf() returns (tfidf: map<nat, map<nat, real>>)
      requires Valid()
      modifies this`idxToTermCache, this`termHashToIdxCache, this`idxToDocCache, this`termCountsCache,
               this`docCountsCache, this`idfCache, this`tfCache, this`tfidfCache
      ensures Valid() && Settled()
      ensures old(tfidfCache).Some? ==> unchanged(this)
      ensures tfidf == Views.TfIdf(docs, termsOf, ln) && tfidfCache == Some(tfidf)
    {
      if tfidfCache.Some? {
        return tfidfCache.value;
      }
      // Called for its effect: the loop runs over the keys of `idx_to_doc`.
      var _ := IdxToDoc();
      tfidf := TfIdfTable();
      tfidfCache := Some(tfidf);
    }

    /** `idx_of_term`: the term's index, 0 for a term no document contains. */
    method IdxOfTerm(t: Term) returns (idx: nat)
      requires Valid()
      modifies this`idxToTermCache, this`termHashToIdxCache, this`idxToDocCache
      ensures Valid() && Settled()
      ensures idx == Indexer.IdxOfTerm(Indexer.TermHashToIdx(docs, termsOf), t)
      ensures Observed(docs, termsOf, t) ==>
        idx in Indexer.IdxToTerm(docs, termsOf) && Indexer.IdxToTerm(docs, termsOf)[idx] == t
      ensures !Observed(docs, termsOf, t) ==> idx == 0
    {
      var termToIdx := TermHashToIdx();
      idx := Indexer.IdxOfTerm(termToIdx, t);
      TermLookupInverts(docs, termsOf);
      if Observed(docs, termsOf, t) {
        TermIndexOf(docs, termsOf, t);
      }
    }

    /** `decode_term_idx`: the term with the given index, or nothing. */
    method DecodeTermIdx(idx: int) returns (t: Option<Term>)
      requires Valid()
      modifies this`idxToTermCache, this`idxToDocCache
      ensures Valid() && Settled()
      ensures t == Indexer.DecodeTermIdx(Indexer.IdxToTerm(docs, termsOf), idx)
      ensures t.Some? <==> 1 <= idx <= NumTerms(docs, termsOf)
      ensures t.Some? ==> Indexer.IdxOfTerm(Indexer.TermHashToIdx(docs, termsOf), t.value) == idx
    {
      var idxToTerm := IdxToTerm();
      t := Indexer.DecodeTermIdx(idxToTerm, idx);
      if t.Some? {
        DecodeTermIdxInverse(docs, termsOf, idx, t.value);
      } else {
        DecodeTermIdxInverse(docs, termsOf, idx, 0);
      }
    }

    /** `idf`: the IDF keyed by term; fails on an empty corpus. */
    method Idf() returns (r: Result<map<Term, real>, MathError>)
      requires Valid()
      modifies this`idxToTermCache, this`termHashToIdxCache, this`idxToDocCache,
               this`docCountsCache, this`idfCache
      ensures Valid() && Settled()
      ensures r == Decoder.IdfByTerm(docs, termsOf, ln)
    {
      var byIdx := TermToIdf();
      if byIdx.Failure? {
        return Failure(byIdx.error);
      }
      var idxToTerm := IdxToTerm();
      Decoder.IdfDecoded(docs, termsOf, ln);
      r := Success(Decoder.DecodeKeys(byIdx.value, idxToTerm, Indexer.TermHashToIdx(docs, termsOf)));
    }

    /** `tf`: every document's term frequencies keyed by term. */
    method Tf() returns (r: map<nat, map<Term, real>>)
      requires Valid()
      modifies this`idxToTermCache, this`termHashToIdxCache, this`idxToDocCache,
               this`termCountsCache, this`tfCache
      ensures Valid() && Settled()
      ensures r == Decoder.TfByTerm(docs, termsOf)
    {
      var byIdx := DocToTermToTf();
      var idxToTerm := IdxToTerm();
      Decoder.IdxToTermInverted(docs, termsOf);
      Decoder.TfKeysAreTermIndices(docs, termsOf);
      r := Decoder.DecodePerDoc(byIdx, idxToTerm, Indexer.TermHashToIdx(docs, termsOf));
    }

    /** `tfidf`: every document's TF-IDF weights keyed by term. */
    method TfIdf() returns (r: map<nat, map<Term, real>>)
      requires Valid()
      modifies this`idxToTermCache, this`termHashToIdxCache, this`idxToDocCache, this`termCountsCache,
               this`docCountsCache, this`idfCache, this`tfCache, this`tfidfCache
      ensures Valid() && Settled()
      ensures r == Decoder.TfIdfByTerm(docs, termsOf, ln)
    {
      var byIdx := DocToTermToTfIdf();
      var idxToTerm := IdxToTerm();
      Decoder.IdxToTermInverted(docs, termsOf);
      Decoder.TfIdfKeysAreTermIndices(docs, termsOf, ln);
      r := Decoder.DecodePerDoc(byIdx, idxToTerm, Indexer.TermHashToIdx(docs, termsOf));
    }
  }
}
