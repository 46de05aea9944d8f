/** The decoder of the TF-IDF engine: the public `idf`, `tf` and `tfidf`
    views, which re-key the index-keyed results by the terms themselves. */
module Decoder {
  import opened Wrappers
  import opened Indexer
  import opened Counter
  import opened Metrics
  import opened Views

  /** termToIdx leads every term of idxToTerm back to its index, so no two
      indices stand for the same term. */
  ghost predicate Inverts(idxToTerm: map<nat, Term>, termToIdx: map<Term, nat>)
  {
    forall k :: k in idxToTerm ==> idxToTerm[k] in termToIdx && termToIdx[idxToTerm[k]] == k
  }

  /** Re-keys a map from term indices by the decoded terms, so every key is
      a term of the numbering (`DecodeKeysAt` says where each value goes). */
  function DecodeKeys(m: map<nat, real>, idxToTerm: map<nat, Term>, ghost termToIdx: map<Term, nat>)
    : (r: map<Term, real>)
    requires m.Keys <= idxToTerm.Keys && Inverts(idxToTerm, termToIdx)
    ensures forall t :: t in r ==> t in idxToTerm.Values
  {
    map k | k in m :: DecodeTermIdx(idxToTerm, k).value := m[k]
  }

  /** Re-keys every document's inner map by the decoded terms, keeping every
      document. */
  function DecodePerDoc(perDoc: map<nat, map<nat, real>>, idxToTerm: map<nat, Term>,
                        ghost termToIdx: map<Term, nat>)
    : (r: map<nat, map<Term, real>>)
    requires Inverts(idxToTerm, termToIdx)
    requires forall d :: d in perDoc ==> perDoc[d].Keys <= idxToTerm.Keys
    ensures r.Keys == perDoc.Keys
  {
    map d | d in perDoc :: DecodeKeys(perDoc[d], idxToTerm, termToIdx)
  }

  /** A document's decoded row is its row decoded. */
  lemma DecodePerDocAt(perDoc: map<nat, map<nat, real>>, idxToTerm: map<nat, Term>,
                       termToIdx: map<Term, nat>, d: nat)
    requires Inverts(idxToTerm, termToIdx)
    requires forall e :: e in perDoc ==> perDoc[e].Keys <= idxToTerm.Keys
    requires d in perDoc
    ensures d in DecodePerDoc(perDoc, idxToTerm, termToIdx)
    ensures DecodePerDoc(perDoc, idxToTerm, termToIdx)[d] == DecodeKeys(perDoc[d], idxToTerm, termToIdx)
  {
  }

  /** The engine's own reverse lookup inverts its term numbering. */
  lemma IdxToTermInverted<Doc>(docs: seq<Doc>, termsOf: Doc -> seq<Term>)
    ensures Inverts(IdxToTerm(docs, termsOf), TermHashToIdx(docs, termsOf))
  {
    TermLookupInverts(docs, termsOf);
  }

  /** The `idf` property: fails with the IDF, on an empty corpus. */
  function IdfByTerm<Doc>(docs: seq<Doc>, termsOf: Doc -> seq<Term>, ln: nat -> real)
    : (r: Result<map<Term, real>, MathError>)
    ensures r.Failure? <==> |docs| == 0
  {
    match Idf(docs, termsOf, ln)
    case Failure(e) => Failure(e)
    case Success(idf) =>
      IdxToTermInverted(docs, termsOf);
      IdfSpec(docs, termsOf, ln, 0);
      Success(DecodeKeys(idf, IdxToTerm(docs, termsOf), TermHashToIdx(docs, termsOf)))
  }

  /** The `tf` property: a row for every document and no other. */
  ghost function TfByTerm<Doc>(docs: seq<Doc>, termsOf: Doc -> seq<Term>): (tf: map<nat, map<Term, real>>)
    ensures forall i: nat :: i in tf <==> i < |docs|
  {
    IdxToTermInverted(docs, termsOf);
    TfKeysAreTermIndices(docs, termsOf);
    DecodePerDoc(Tf(docs, termsOf), IdxToTerm(docs, termsOf), TermHashToIdx(docs, termsOf))
  }

  /** The `tfidf` property: a row for every document and no other. */
  ghost function TfIdfByTerm<Doc>(docs: seq<Doc>, termsOf: Doc -> seq<Term>, ln: nat -> real)
    : (tfidf: map<nat, map<Term, real>>)
    ensures forall i: nat :: i in tfidf <==> i < |docs|
  {
    IdxToTermInverted(docs, termsOf);
    TfIdfKeysAreTermIndices(docs, termsOf, ln);
    DecodePerDoc(TfIdf(docs, termsOf, ln), IdxToTerm(docs, termsOf), TermHashToIdx(docs, termsOf))
  }

  lemma TfKeysAreTermIndices<Doc>(docs: seq<Doc>, termsOf: Doc -> seq<Term>)
    ensures forall d :: d in Tf(docs, termsOf) ==> Tf(docs, termsOf)[d].Keys <= IdxToTerm(docs, termsOf).Keys
  {
    forall d | d in Tf(docs, termsOf)
      ensures Tf(docs, termsOf)[d].Keys <= IdxToTerm(docs, termsOf).Keys
    {
      TfSpec(docs, termsOf, d);
      CountsKeysAreTermIndices(docs, termsOf, d);
    }
  }

  lemma TfIdfKeysAreTermIndices<Doc>(docs: seq<Doc>, termsOf: Doc -> seq<Term>, ln: nat -> real)
    ensures forall d :: d in TfIdf(docs, termsOf, ln) ==>
      TfIdf(docs, termsOf, ln)[d].Keys <= IdxToTerm(docs, termsOf).Keys
  {
    TfKeysAreTermIndices(docs, termsOf);
    forall d | d in TfIdf(docs, termsOf, ln)
      ensures TfIdf(docs, termsOf, ln)[d].Keys <= IdxToTerm(docs, termsOf).Keys
    {
      TfIdfSpec(docs, termsOf, ln, d);
    }
  }

  /** Decoding moves each value from its index to that index's term. */
  lemma DecodeKeysAt(m: map<nat, real>, idxToTerm: map<nat, Term>, termToIdx: map<Term, nat>, k: nat)
    requires m.Keys <= idxToTerm.Keys && Inverts(idxToTerm, termToIdx)
    requires k in m
    ensures idxToTerm[k] in DecodeKeys(m, idxToTerm, termToIdx)
    ensures DecodeKeys(m, idxToTerm, termToIdx)[idxToTerm[k]] == m[k]
  {
    assert DecodeTermIdx(idxToTerm, k).value == idxToTerm[k];
  }

  /** Membership in a decoded map: some index of the original decodes to t. */
  lemma DecodeKeysHas(m: map<nat, real>, idxToTerm: map<nat, Term>, termToIdx: map<Term, nat>, t: Term)
    requires m.Keys <= idxToTerm.Keys && Inverts(idxToTerm, termToIdx)
    requires t in DecodeKeys(m, idxToTerm, termToIdx)
    ensures exists k :: k in m && idxToTerm[k] == t
  {
  }

  /** The `idf` view fails exactly on an empty corpus; otherwise its keys are
      exactly the terms of the corpus, and a term's value is log N minus the
      log of the number of documents containing it. */
  lemma IdfByTermSpec<Doc>(docs: seq<Doc>, termsOf: Doc -> seq<Term>, ln: nat -> real, t: Term)
    ensures IdfByTerm(docs, termsOf, ln).Failure? <==> |docs| == 0
    ensures IdfByTerm(docs, termsOf, ln).Success? ==>
      var idf := IdfByTerm(docs, termsOf, ln).value;
      && (t in idf <==> Observed(docs, termsOf, t))
      && (t in idf ==> idf[t] == ln(|docs|) - ln(|set i: nat | i < |docs| && t in termsOf(docs[i])|))
  {
    IdfSpec(docs, termsOf, ln, t);
    if |docs| > 0 {
      var byIdx := Idf(docs, termsOf, ln).value;
      var m := IdxToTerm(docs, termsOf);
      var r := TermHashToIdx(docs, termsOf);
      var idf := IdfByTerm(docs, termsOf, ln).value;
      IdxToTermInverted(docs, termsOf);
      IdxToTermBijective(docs, termsOf);
      if Observed(docs, termsOf, t) {
        TermIndexOf(docs, termsOf, t);
        DecodeKeysAt(byIdx, m, r, IdxOfTerm(TermHashToIdx(docs, termsOf), t));
      }
      if t in idf {
        DecodeKeysHas(byIdx, m, r, t);
        var k :| k in byIdx && m[k] == t;
        assert t in m.Values;
      }
    }
  }

  /** The `tf` view keys each document's values by exactly its own terms, and
      a term's TF is its number of occurrences over the document's length. */
  lemma TfByTermSpec<Doc>(docs: seq<Doc>, termsOf: Doc -> seq<Term>, i: nat, t: Term)
    requires i < |docs|
    ensures i in TfByTerm(docs, termsOf)
    ensures var tf := TfByTerm(docs, termsOf)[i];
      var ts := termsOf(docs[i]);
      && (t in tf <==> t in ts)
      && (t in ts ==> tf[t] == multiset(ts)[t] as real / |ts| as real)
  {
    var byIdx := Tf(docs, termsOf)[i];
    var m := IdxToTerm(docs, termsOf);
    var r := TermHashToIdx(docs, termsOf);
    var ts := termsOf(docs[i]);
    IdxToTermInverted(docs, termsOf);
    TfKeysAreTermIndices(docs, termsOf);
    TfSpec(docs, termsOf, i);
    CountsKeysAreTermIndices(docs, termsOf, i);
    if t in ts {
      assert Observed(docs, termsOf, t);
      TermIndexOf(docs, termsOf, t);
      DecodeKeysAt(byIdx, m, r, IdxOfTerm(TermHashToIdx(docs, termsOf), t));
    }
    if t in TfByTerm(docs, termsOf)[i] {
      DecodeKeysHas(byIdx, m, r, t);
    }
  }

  /** Decoding keeps a pointwise product pointwise. */
  lemma DecodeProduct(prod: map<nat, real>, a: map<nat, real>, b: map<nat, real>,
                      idxToTerm: map<nat, Term>, termToIdx: map<Term, nat>, t: Term)
    requires Inverts(idxToTerm, termToIdx)
    requires a.Keys <= b.Keys && b.Keys <= idxToTerm.Keys
    requires prod == TfIdfOf(a, b)
    ensures var p, x, y := DecodeKeys(prod, idxToTerm, termToIdx), DecodeKeys(a, idxToTerm, termToIdx),
                           DecodeKeys(b, idxToTerm, termToIdx);
      && (t in p <==> t in x)
      && (t in x ==> t in y && p[t] == Weight(x[t], y[t]))
  {
    if t in DecodeKeys(a, idxToTerm, termToIdx) {
      DecodeKeysHas(a, idxToTerm, termToIdx, t);
      var k :| k in a && idxToTerm[k] == t;
      DecodeKeysAt(prod, idxToTerm, termToIdx, k);
      DecodeKeysAt(a, idxToTerm, termToIdx, k);
      DecodeKeysAt(b, idxToTerm, termToIdx, k);
    }
    if t in DecodeKeys(prod, idxToTerm, termToIdx) {
      DecodeKeysHas(prod, idxToTerm, termToIdx, t);
      var k :| k in prod && idxToTerm[k] == t;
      DecodeKeysAt(a, idxToTerm, termToIdx, k);
    }
  }

  /** The `idf` view is the decoding of the index-keyed IDF map. */
  lemma IdfDecoded<Doc>(docs: seq<Doc>, termsOf: Doc -> seq<Term>, ln: nat -> real)
    requires |docs| > 0
    ensures Idf(docs, termsOf, ln).Success?
    ensures var m, r := IdxToTerm(docs, termsOf), TermHashToIdx(docs, termsOf);
      && Inverts(m, r) && Idf(docs, termsOf, ln).value.Keys <= m.Keys
      && IdfByTerm(docs, termsOf, ln) == Success(DecodeKeys(Idf(docs, termsOf, ln).value, m, r))
  {
    IdfSpec(docs, termsOf, ln, 0);
    IdxToTermInverted(docs, termsOf);
  }

  /** A document's `tf` view is the decoding of its index-keyed TF map. */
  lemma TfDecoded<Doc>(docs: seq<Doc>, termsOf: Doc -> seq<Term>, i: nat)
    requires i < |docs|
    ensures i in Tf(docs, termsOf) && i in TfByTerm(docs, termsOf)
    ensures var m, r := IdxToTerm(docs, termsOf), TermHashToIdx(docs, termsOf);
      && Inverts(m, r) && Tf(docs, termsOf)[i].Keys <= m.Keys
      && TfByTerm(docs, termsOf)[i] == DecodeKeys(Tf(docs, termsOf)[i], m, r)
  {
    var m, r := IdxToTerm(docs, termsOf), TermHashToIdx(docs, termsOf);
    IdxToTermInverted(docs, termsOf);
    TfKeysAreTermIndices(docs, termsOf);
    assert TfByTerm(docs, termsOf) == DecodePerDoc(Tf(docs, termsOf), m, r);
    DecodePerDocAt(Tf(docs, termsOf), m, r, i);
  }

  /** A document's `tfidf` view is the decoding of its index-keyed TF-IDF map. */
  lemma TfIdfDecoded<Doc>(docs: seq<Doc>, termsOf: Doc -> seq<Term>, ln: nat -> real, i: nat)
    requires i < |docs|
    ensures i in TfIdf(docs, termsOf, ln) && i in TfIdfByTerm(docs, termsOf, ln)
    ensures var m, r := IdxToTerm(docs, termsOf), TermHashToIdx(docs, termsOf);
      && Inverts(m, r) && TfIdf(docs, termsOf, ln)[i].Keys <= m.Keys
      && TfIdfByTerm(docs, termsOf, ln)[i] == DecodeKeys(TfIdf(docs, termsOf, ln)[i], m, r)
  {
    var m, r := IdxToTerm(docs, termsOf), TermHashToIdx(docs, termsOf);
    IdxToTermInverted(docs, termsOf);
    TfIdfKeysAreTermIndices(docs, termsOf, ln);
    assert TfIdfByTerm(docs, termsOf, ln) == DecodePerDoc(TfIdf(docs, termsOf, ln), m, r);
    DecodePerDocAt(TfIdf(docs, termsOf, ln), m, r, i);
  }

  /** The `tfidf` view covers every document, with the keys of its `tf`
      view; the IDF it needs exists. */
  lemma TfIdfByTermKeys<Doc>(docs: seq<Doc>, termsOf: Doc -> seq<Term>, ln: nat -> real, i: nat)
    requires i < |docs|
    ensures IdfByTerm(docs, termsOf, ln).Success?
    ensures i in TfIdfByTerm(docs, termsOf, ln) && i in TfByTerm(docs, termsOf)
    ensures TfIdfByTerm(docs, termsOf, ln)[i].Keys == TfByTerm(docs, termsOf)[i].Keys
    ensures TfByTerm(docs, termsOf)[i].Keys <= IdfByTerm(docs, termsOf, ln).value.Keys
  {
    IdfDecoded(docs, termsOf, ln);
    TfDecoded(docs, termsOf, i);
    TfIdfIsProduct(docs, termsOf, ln, i);
    TfIdfDecoded(docs, termsOf, ln, i);
    var m, r := IdxToTerm(docs, termsOf), TermHashToIdx(docs, termsOf);
    var prod, tf, idf := TfIdf(docs, termsOf, ln)[i], Tf(docs, termsOf)[i], Idf(docs, termsOf, ln).value;
    forall t ensures (t in DecodeKeys(prod, m, r) <==> t in DecodeKeys(tf, m, r))
      && (t in DecodeKeys(tf, m, r) ==> t in DecodeKeys(idf, m, r))
    {
      DecodeProduct(prod, tf, idf, m, r, t);
    }
  }

  /** Each value of a document's `tfidf` view is the term's TF in the
      document times its IDF. */
  lemma TfIdfByTermSpec<Doc>(docs: seq<Doc>, termsOf: Doc -> seq<Term>, ln: nat -> real, i: nat, t: Term)
    requires i < |docs| && t in termsOf(docs[i])
    ensures IdfByTerm(docs, termsOf, ln).Success? && t in IdfByTerm(docs, termsOf, ln).value
    ensures i in TfByTerm(docs, termsOf) && t in TfByTerm(docs, termsOf)[i]
    ensures i in TfIdfByTerm(docs, termsOf, ln) && t in TfIdfByTerm(docs, termsOf, ln)[i]
    ensures TfIdfByTerm(docs, termsOf, ln)[i][t]
         == TfByTerm(docs, termsOf)[i][t] * IdfByTerm(docs, termsOf, ln).value[t]
  {
    TfByTermSpec(docs, termsOf, i, t);
    TfIdfByTermKeys(docs, termsOf, ln, i);
    TfIdfByTermValue(docs, termsOf, ln, i, t);
  }

  /** The value part of `TfIdfByTermSpec`, for a term the `tf` view has. */
  lemma TfIdfByTermValue<Doc>(docs: seq<Doc>, termsOf: Doc -> seq<Term>, ln: nat -> real, i: nat, t: Term)
    requires i < |docs| && i in TfByTerm(docs, termsOf) && t in TfByTerm(docs, termsOf)[i]
    requires IdfByTerm(docs, termsOf, ln).Success? && t in IdfByTerm(docs, termsOf, ln).value
    requires i in TfIdfByTerm(docs, termsOf, ln) && t in TfIdfByTerm(docs, termsOf, ln)[i]
    ensures TfIdfByTerm(docs, termsOf, ln)[i][t]
         == TfByTerm(docs, termsOf)[i][t] * IdfByTerm(docs, termsOf, ln).value[t]
  {
    IdfDecoded(docs, termsOf, ln);
    TfDecoded(docs, termsOf, i);
    TfIdfIsProduct(docs, termsOf, ln, i);
    TfIdfDecoded(docs, termsOf, ln, i);
    DecodeProduct(TfIdf(docs, termsOf, ln)[i], Tf(docs, termsOf)[i], Idf(docs, termsOf, ln).value,
                  IdxToTerm(docs, termsOf), TermHashToIdx(docs, termsOf), t);
  }
}
