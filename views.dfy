/** The engine's derived views as functions of the corpus: the document
    sequence and the term-extraction function. Each cached property of the
    engine holds the corresponding function's value. */
module Views {
  import opened Wrappers
  import opened Indexer
  import opened Counter
  import opened Metrics

  /** `doc_to_term_to_term_count`, on the engine's own term index: a tally
      for every document and no other key. */
  function Counts<Doc>(docs: seq<Doc>, termsOf: Doc -> seq<Term>): (c: map<nat, map<nat, nat>>)
    ensures forall i: nat :: i in c <==> i < |docs|
  {
    TermCounts(docs, termsOf, TermHashToIdx(docs, termsOf))
  }

  /** `term_to_doc_count`, on the engine's own term index: every count lies
      between 1 and the number of documents. */
  function Df<Doc>(docs: seq<Doc>, termsOf: Doc -> seq<Term>): (df: map<nat, nat>)
    ensures forall k :: k in df ==> 1 <= df[k] <= |docs|
  {
    DocCounts(docs, termsOf, TermHashToIdx(docs, termsOf))
  }

  /** `term_to_idf`: `math.log(len(idx_to_doc))` fails exactly on an empty
      corpus, and no document count is ever 0. */
  function Idf<Doc>(docs: seq<Doc>, termsOf: Doc -> seq<Term>, ln: nat -> real)
    : (r: Result<map<nat, real>, MathError>)
    ensures r.Failure? <==> |docs| == 0
    ensures r.Success? ==> r.value.Keys == Df(docs, termsOf).Keys
  {
    IdfOf(|docs|, Df(docs, termsOf), ln)
  }

  /** Every document has a positive tally, whatever the index map. */
  lemma TermCountsPositive<Doc>(docs: seq<Doc>, termsOf: Doc -> seq<Term>, termToIdx: map<Term, nat>)
    ensures forall i: nat :: i < |docs| ==>
      i in TermCounts(docs, termsOf, termToIdx) && Positive(TermCounts(docs, termsOf, termToIdx)[i])
  {
    forall i: nat | i < |docs|
      ensures Positive(TermCounts(docs, termsOf, termToIdx)[i])
    {
      TallyIsMultiset(IdxSeq(termToIdx, termsOf(docs[i])));
    }
  }

  /** Every term index counted in a document has a document count. */
  lemma CountsWithinDf<Doc>(docs: seq<Doc>, termsOf: Doc -> seq<Term>, termToIdx: map<Term, nat>, i: nat)
    requires i < |docs|
    ensures TermCounts(docs, termsOf, termToIdx)[i].Keys <= DocCounts(docs, termsOf, termToIdx).Keys
  {
    var idxs := IdxSeq(termToIdx, termsOf(docs[i]));
    TallyIsMultiset(idxs);
    forall k | k in TermCounts(docs, termsOf, termToIdx)[i]
      ensures k in DocCounts(docs, termsOf, termToIdx)
    {
      DocCountsCountsDocs(docs, termsOf, termToIdx, k);
      assert i in DocsWith(docs, termsOf, termToIdx, k);
    }
  }

  /** `doc_to_term_to_tf`: a row for every document, keyed like its counts. */
  ghost function Tf<Doc>(docs: seq<Doc>, termsOf: Doc -> seq<Term>): (tf: map<nat, map<nat, real>>)
    ensures forall i: nat :: i in tf <==> i < |docs|
    ensures forall i :: i in tf ==> tf[i].Keys == Counts(docs, termsOf)[i].Keys
  {
    TermCountsPositive(docs, termsOf, TermHashToIdx(docs, termsOf));
    TfMap(Counts(docs, termsOf), |docs|)
  }

  /** `doc_to_term_to_tfidf`: with no documents nothing is multiplied and the
      IDF is never needed. There is a row for every document and no other. */
  ghost function TfIdf<Doc>(docs: seq<Doc>, termsOf: Doc -> seq<Term>, ln: nat -> real)
    : (tfidf: map<nat, map<nat, real>>)
    ensures forall i: nat :: i in tfidf <==> i < |docs|
  {
    match Idf(docs, termsOf, ln)
    case Failure(_) => map[]
    case Success(idf) =>
      TermCountsPositive(docs, termsOf, TermHashToIdx(docs, termsOf));
      assert forall i: nat :: i < |docs| ==> Tf(docs, termsOf)[i].Keys <= idf.Keys by {
        forall i: nat | i < |docs|
          ensures Tf(docs, termsOf)[i].Keys <= idf.Keys
        {
          CountsWithinDf(docs, termsOf, TermHashToIdx(docs, termsOf), i);
        }
      }
      TfIdfMap(Tf(docs, termsOf), |docs|, idf)
  }

  /** The TF of a term in a document is its number of occurrences over the
      document's number of terms: the values lie in (0, 1] and add up to 1,
      and a document without terms gets an empty map (nothing is divided). */
  lemma TfSpec<Doc>(docs: seq<Doc>, termsOf: Doc -> seq<Term>, i: nat)
    requires i < |docs|
    ensures var tf := Tf(docs, termsOf)[i];
      var ts := termsOf(docs[i]);
      var r := TermHashToIdx(docs, termsOf);
      && tf.Keys == Counts(docs, termsOf)[i].Keys
      && (ts == [] <==> tf == map[])
      && (ts != [] ==> SumReals(tf) == 1.0)
      && (forall k :: k in tf ==> 0.0 < tf[k] <= 1.0)
      && (forall t :: t in ts ==>
            IdxOfTerm(r, t) in tf && tf[IdxOfTerm(r, t)] == multiset(ts)[t] as real / |ts| as real)
  {
    var r := TermHashToIdx(docs, termsOf);
    var ts := termsOf(docs[i]);
    var c := Counts(docs, termsOf)[i];
    TermCountsPositive(docs, termsOf, r);
    TallyIsMultiset(IdxSeq(r, ts));
    TfBounds(c);
    if ts != [] {
      assert IdxSeq(r, ts)[0] in c;
    }
    forall t | t in ts
      ensures IdxOfTerm(r, t) in Tf(docs, termsOf)[i]
      ensures Tf(docs, termsOf)[i][IdxOfTerm(r, t)] == multiset(ts)[t] as real / |ts| as real
    {
      TfOfTerm(docs, termsOf, i, t);
    }
  }

  /** The term part of `TfSpec`: one term's TF in one document. */
  lemma TfOfTerm<Doc>(docs: seq<Doc>, termsOf: Doc -> seq<Term>, i: nat, t: Term)
    requires i < |docs| && t in termsOf(docs[i])
    ensures var tf := Tf(docs, termsOf)[i];
      var ts := termsOf(docs[i]);
      var k := IdxOfTerm(TermHashToIdx(docs, termsOf), t);
      k in tf && tf[k] == multiset(ts)[t] as real / |ts| as real
  {
    var r := TermHashToIdx(docs, termsOf);
    TermCountsPositive(docs, termsOf, r);
    TermHashIndexes(docs, termsOf);
    TermCountsSum(docs, termsOf, r, IdxToTerm(docs, termsOf), i);
    TermCountsOccurrences(docs, termsOf, r, i, t);
  }

  /** A document's term counts add up to its number of terms, and are keyed
      by real term indices (1..N, never 0), each that of one of its terms. */
  lemma CountsKeysAreTermIndices<Doc>(docs: seq<Doc>, termsOf: Doc -> seq<Term>, i: nat)
    requires i < |docs|
    ensures var m := IdxToTerm(docs, termsOf);
      var c := Counts(docs, termsOf)[i];
      && SumCounts(c) == |termsOf(docs[i])|
      && (forall k :: k in c ==> 1 <= k <= NumTerms(docs, termsOf) && k in m && m[k] in termsOf(docs[i]))
  {
    TermHashIndexes(docs, termsOf);
    IdxToTermBijective(docs, termsOf);
    TermCountsSum(docs, termsOf, TermHashToIdx(docs, termsOf), IdxToTerm(docs, termsOf), i);
  }

  /** Document counts are keyed by real term indices. */
  lemma DfKeysAreTermIndices<Doc>(docs: seq<Doc>, termsOf: Doc -> seq<Term>)
    ensures forall k :: k in Df(docs, termsOf) ==> k in IdxToTerm(docs, termsOf)
    ensures forall k :: k in Df(docs, termsOf) ==> 1 <= Df(docs, termsOf)[k] <= |docs|
  {
    var r := TermHashToIdx(docs, termsOf);
    TermHashIndexes(docs, termsOf);
    forall k | k in Df(docs, termsOf)
      ensures k in IdxToTerm(docs, termsOf)
      ensures 1 <= Df(docs, termsOf)[k] <= |docs|
    {
      DocCountsCountsDocs(docs, termsOf, r, k);
      var i :| i in DocsWith(docs, termsOf, r, k);
      TallyIsMultiset(IdxSeq(r, termsOf(docs[i])));
      CountsKeysAreTermIndices(docs, termsOf, i);
    }
  }

  /** `term_to_idf` fails exactly for an empty corpus; otherwise it has the
      keys of `term_to_doc_count`, and the IDF of an observed term is
      log N minus the log of the number of documents containing it, which is
      0 for a term in every document and never negative for a monotone log. */
  lemma IdfSpec<Doc>(docs: seq<Doc>, termsOf: Doc -> seq<Term>, ln: nat -> real, t: Term)
    ensures Idf(docs, termsOf, ln).Failure? <==> |docs| == 0
    ensures Idf(docs, termsOf, ln).Success? ==>
      var idf := Idf(docs, termsOf, ln).value;
      && idf.Keys == Df(docs, termsOf).Keys
      && idf.Keys <= IdxToTerm(docs, termsOf).Keys
      && (Observed(docs, termsOf, t) ==>
            var k := IdxOfTerm(TermHashToIdx(docs, termsOf), t);
            var n := |set i: nat | i < |docs| && t in termsOf(docs[i])|;
            && k in idf
            && idf[k] == ln(|docs|) - ln(n)
            && (n == |docs| ==> idf[k] == 0.0)
            && (Monotone(ln) ==> idf[k] >= 0.0))
  {
    DfKeysAreTermIndices(docs, termsOf);
    if |docs| > 0 {
      IdfBounds(|docs|, Df(docs, termsOf), ln);
      if Observed(docs, termsOf, t) {
        TermHashIndexes(docs, termsOf);
        DocCountsSpec(docs, termsOf, TermHashToIdx(docs, termsOf), t);
      }
    }
  }

  /** `doc_to_term_to_tfidf` never needs a failing IDF: for every document
      the IDF exists, and the TF-IDF has exactly the TF's keys, each value the
      TF times the IDF. */
  lemma TfIdfSpec<Doc>(docs: seq<Doc>, termsOf: Doc -> seq<Term>, ln: nat -> real, i: nat)
    requires i < |docs|
    ensures Idf(docs, termsOf, ln).Success?
    ensures var tfidf := TfIdf(docs, termsOf, ln)[i];
      var tf := Tf(docs, termsOf)[i];
      var idf := Idf(docs, termsOf, ln).value;
      && tfidf.Keys == tf.Keys
      && forall k :: k in tf ==> k in idf && tfidf[k] == tf[k] * idf[k]
  {
    IdfSpec(docs, termsOf, ln, 0);
    CountsWithinDf(docs, termsOf, TermHashToIdx(docs, termsOf), i);
  }

  /** A document's index-keyed TF-IDF map is the product of its TF map with
      the IDF map, which exists and covers every term of the document. */
  lemma TfIdfIsProduct<Doc>(docs: seq<Doc>, termsOf: Doc -> seq<Term>, ln: nat -> real, i: nat)
    requires i < |docs|
    ensures Idf(docs, termsOf, ln).Success? && i in Tf(docs, termsOf) && i in TfIdf(docs, termsOf, ln)
    ensures Tf(docs, termsOf)[i].Keys <= Idf(docs, termsOf, ln).value.Keys
    ensures TfIdf(docs, termsOf, ln)[i] == TfIdfOf(Tf(docs, termsOf)[i], Idf(docs, termsOf, ln).value)
  {
    IdfSpec(docs, termsOf, ln, 0);
    CountsWithinDf(docs, termsOf, TermHashToIdx(docs, termsOf), i);
  }

  /** Two tables with rows 0..n-1 that agree row by row are equal. */
  lemma SameRows<V>(a: map<nat, V>, b: map<nat, V>, n: nat)
    requires forall i: nat :: i in a <==> i < n
    requires forall i: nat :: i in b <==> i < n
    requires forall i: nat :: i < n ==> a[i] == b[i]
    ensures a == b
  {
    assert a.Keys == b.Keys;
  }

  /** The TF-IDF table reads the IDF only at the terms of its rows: row i
      built from the IDF, or from no IDF at all when no document has a
      term, is row i of `doc_to_term_to_tfidf`. */
  lemma TfIdfRowFrom<Doc>(docs: seq<Doc>, termsOf: Doc -> seq<Term>, ln: nat -> real, idf: map<nat, real>, i: nat)
    requires i < |docs|
    requires || Idf(docs, termsOf, ln) == Success(idf)
             || (idf == map[] && forall j: nat :: j < |docs| ==> Tf(docs, termsOf)[j] == map[])
    ensures i in Tf(docs, termsOf) && i in TfIdf(docs, termsOf, ln)
    ensures Tf(docs, termsOf)[i].Keys <= idf.Keys
    ensures TfIdfOf(Tf(docs, termsOf)[i], idf) == TfIdf(docs, termsOf, ln)[i]
  {
    TfIdfIsProduct(docs, termsOf, ln, i);
    if Idf(docs, termsOf, ln) != Success(idf) {
      assert TfIdfOf(Tf(docs, termsOf)[i], idf).Keys == {};
    }
  }

  /** The loop of `doc_to_term_to_tfidf` over a non-empty corpus, given the
      TF table and the IDF as far as the loop reads it. */
  method TfIdfTable<Doc>(docs: seq<Doc>, termsOf: Doc -> seq<Term>, ln: nat -> real,
                         tf: map<nat, map<nat, real>>, idf: map<nat, real>)
    returns (tfidf: map<nat, map<nat, real>>)
    requires |docs| > 0 && tf == Tf(docs, termsOf)
    requires || Idf(docs, termsOf, ln) == Success(idf)
             || (idf == map[] && forall i: nat :: i < |docs| ==> tf[i] == map[])
    ensures tfidf == TfIdf(docs, termsOf, ln)
  {
    forall i: nat | i < |docs|
      ensures tf[i].Keys <= idf.Keys && TfIdfOf(tf[i], idf) == TfIdf(docs, termsOf, ln)[i]
    {
      TfIdfRowFrom(docs, termsOf, ln, idf, i);
    }
    tfidf := ComputeTfIdf(tf, |docs|, idf);
    SameRows(tfidf, TfIdf(docs, termsOf, ln), |docs|);
  }
}
