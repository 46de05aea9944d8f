/** The frequency counter of the TF-IDF engine: occurrences of each term
    index per document, and the number of documents containing each term
    index. */
module Counter {
  import opened Indexer

  /** The term indices of a sequence of terms, in order: the lookup the
      engine maps over a document's terms. */
  function IdxSeq(termToIdx: map<Term, nat>, ts: seq<Term>): (r: seq<nat>)
  {
    seq(|ts|, j requires 0 <= j < |ts| => IdxOfTerm(termToIdx, ts[j]))
  }

  /** One more occurrence of k, as `counter[k] += 1` on a `defaultdict(int)`. */
  function Inc(m: map<nat, nat>, k: nat): map<nat, nat>
  {
    m[k := Lookup(m, k) + 1]
  }

  /** The occurrence counts of a sequence of term indices, tallied front to
      back: every counted index has a count between 1 and the length. */
  function Tally(s: seq<nat>): (m: map<nat, nat>)
    ensures forall k :: k in m ==> 0 < m[k] <= |s|
  {
    if s == [] then map[] else Inc(Tally(s[..|s| - 1]), s[|s| - 1])
  }

  /** The sum of a dictionary's values (`sum(d.values())`). */
  ghost function SumCounts(m: map<nat, nat>): (r: nat)
    ensures forall k :: k in m ==> m[k] <= r
    decreases |m|
  {
    if m == map[] then 0
    else
      var k :| k in m;
      assert (m - {k}).Keys == m.Keys - {k};
      assert forall j :: j in m - {k} ==> (m - {k})[j] == m[j];
      m[k] + SumCounts(m - {k})
  }

  /** Any key may be taken out first: the sum does not depend on the order. */
  lemma {:induction false} SumCountsRemove(m: map<nat, nat>, k: nat)
    requires k in m
    ensures SumCounts(m) == m[k] + SumCounts(m - {k})
    decreases |m|
  {
    var j :| j in m && SumCounts(m) == m[j] + SumCounts(m - {j});
    if j != k {
      assert (m - {j}).Keys == m.Keys - {j};
      assert (m - {k}).Keys == m.Keys - {k};
      SumCountsRemove(m - {j}, k);
      SumCountsRemove(m - {k}, j);
      assert m - {j} - {k} == m - {k} - {j};
    }
  }

  /** A tally counts exactly the occurrences: its keys are the elements, each
      value is the element's multiplicity, and the values add up to the length. */
  lemma {:induction false} TallyIsMultiset(s: seq<nat>)
    ensures Tally(s).Keys == Elems(s)
    ensures forall k :: k in Tally(s) ==> Tally(s)[k] == multiset(s)[k] > 0
    ensures SumCounts(Tally(s)) == |s|
  {
    if s != [] {
      var init, x := s[..|s| - 1], s[|s| - 1];
      TallyIsMultiset(init);
      assert s == init + [x];
      TallyStep(Tally(init), init, x);
    }
  }

  /** One step of `TallyIsMultiset`: counting one more occurrence of x. */
  lemma TallyStep(t: map<nat, nat>, init: seq<nat>, x: nat)
    requires t.Keys == Elems(init)
    requires forall k :: k in t ==> t[k] == multiset(init)[k] > 0
    requires SumCounts(t) == |init|
    ensures Inc(t, x).Keys == Elems(init + [x])
    ensures forall k :: k in Inc(t, x) ==> Inc(t, x)[k] == multiset(init + [x])[k] > 0
    ensures SumCounts(Inc(t, x)) == |init + [x]|
  {
    var t' := Inc(t, x);
    var ms := multiset(init + [x]);
    assert ms == multiset(init) + multiset{x};
    assert Elems(init + [x]) == Elems(init) + {x};
    forall k | k in t'
      ensures t'[k] == ms[k] > 0
    {
      if k != x {
        assert t'[k] == t[k];
      } else if x !in t {
        assert x !in init;
      }
    }
    TallySum(t, x);
  }

  /** Counting one more occurrence adds one to the sum of the counts. */
  lemma TallySum(t: map<nat, nat>, x: nat)
    ensures SumCounts(Inc(t, x)) == SumCounts(t) + 1
  {
    var t' := Inc(t, x);
    SumCountsRemove(t', x);
    assert t' - {x} == t - {x};
    if x in t {
      SumCountsRemove(t, x);
    } else {
      assert t - {x} == t;
    }
  }

  /** `doc_to_term_to_term_count`: for each document index, the occurrence
      count of each term index in that document. */
  function TermCounts<Doc>(docs: seq<Doc>, termsOf: Doc -> seq<Term>, termToIdx: map<Term, nat>)
    : (c: map<nat, map<nat, nat>>)
    ensures forall i: nat :: i in c <==> i < |docs|
    ensures forall i, k :: i in c && k in c[i] ==> 0 < c[i][k] <= |termsOf(docs[i])|
  {
    map i: nat | i < |docs| :: Tally(IdxSeq(termToIdx, termsOf(docs[i])))
  }

  /** Counts one more document for every term index it contains: the
      indices present gain one, every other count stays as it was. */
  function AddDoc(df: map<nat, nat>, present: set<nat>): (r: map<nat, nat>)
    ensures r.Keys == df.Keys + present
    ensures forall k :: k in present ==> r[k] == Lookup(df, k) + 1
    ensures forall k :: k in df && k !in present ==> r[k] == df[k]
  {
    map k | k in df.Keys + present :: Lookup(df, k) + (if k in present then 1 else 0)
  }

  /** `term_to_doc_count`: for each term index, the number of documents
      whose terms contain it, repeats within a document counting once. */
  function DocCounts<Doc>(docs: seq<Doc>, termsOf: Doc -> seq<Term>, termToIdx: map<Term, nat>)
    : (df: map<nat, nat>)
    ensures forall k :: k in df ==> 1 <= df[k] <= |docs|
  {
    if docs == [] then map[]
    else
      AddDoc(DocCounts(docs[..|docs| - 1], termsOf, termToIdx),
             Elems(IdxSeq(termToIdx, termsOf(docs[|docs| - 1]))))
  }

  /** The inner loop of `doc_to_term_to_term_count`: tallies the term
      indices of one document's terms. */
  method CountOccurrences(termToIdx: map<Term, nat>, ts: seq<Term>) returns (termToCount: map<nat, nat>)
    ensures termToCount == Tally(IdxSeq(termToIdx, ts))
  {
    termToCount := map[];
    var k := 0;
    while k < |ts|
      invariant 0 <= k <= |ts|
      invariant termToCount == Tally(IdxSeq(termToIdx, ts[..k]))
    {
      termToCount := Inc(termToCount, IdxOfTerm(termToIdx, ts[k]));
      assert IdxSeq(termToIdx, ts[..k + 1]) == IdxSeq(termToIdx, ts[..k]) + [IdxOfTerm(termToIdx, ts[k])];
      k := k + 1;
    }
    assert ts[..k] == ts;
  }

  /** The nested counting loops of `doc_to_term_to_term_count`. */
  method CountTerms<Doc>(docs: seq<Doc>, termsOf: Doc -> seq<Term>, termToIdx: map<Term, nat>)
    returns (counts: map<nat, map<nat, nat>>)
    ensures counts == TermCounts(docs, termsOf, termToIdx)
  {
    counts := map[];
    var i := 0;
    while i < |docs|
      invariant 0 <= i <= |docs|
      invariant forall j: nat :: j in counts <==> j < i
      invariant forall j :: 0 <= j < i ==> counts[j] == Tally(IdxSeq(termToIdx, termsOf(docs[j])))
    {
      var termToCount := CountOccurrences(termToIdx, termsOf(docs[i]));
      counts := counts[i := termToCount];
      i := i + 1;
    }
    assert counts.Keys == TermCounts(docs, termsOf, termToIdx).Keys;
  }

  /** The inner loop of `term_to_doc_count`: one more document for each
      term index in `present`. */
  method AddPresent(df0: map<nat, nat>, present: set<nat>) returns (df: map<nat, nat>)
    ensures df == AddDoc(df0, present)
  {
    df := df0;
    var rest := present;
    while rest != {}
      invariant rest <= present
      invariant df == AddDoc(df0, present - rest)
      decreases rest
    {
      var t :| t in rest;
      df := Inc(df, t);
      rest := rest - {t};
    }
    assert present - rest == present;
  }

  /** The counting loops of `term_to_doc_count`. */
  method CountDocs<Doc>(docs: seq<Doc>, termsOf: Doc -> seq<Term>, termToIdx: map<Term, nat>)
    returns (df: map<nat, nat>)
    ensures df == DocCounts(docs, termsOf, termToIdx)
  {
    df := map[];
    var i := 0;
    while i < |docs|
      invariant 0 <= i <= |docs|
      invariant df == DocCounts(docs[..i], termsOf, termToIdx)
    {
      df := AddPresent(df, Elems(IdxSeq(termToIdx, termsOf(docs[i]))));
      assert docs[..i + 1][..i] == docs[..i];
      i := i + 1;
    }
    assert docs[..i] == docs;
  }

  /** Under an index map that tells apart the terms of ts, the multiplicity
      of t's index among the indices is that of t among ts. */
  lemma {:induction false} IdxSeqMultiplicity(r: map<Term, nat>, ts: seq<Term>, t: Term)
    requires t in r && Injective(r)
    requires forall u :: u in ts ==> u in r
    ensures multiset(IdxSeq(r, ts))[r[t]] == multiset(ts)[t]
  {
    if ts != [] {
      var init, x := ts[..|ts| - 1], ts[|ts| - 1];
      assert ts == init + [x];
      IdxSeqMultiplicity(r, init, t);
      assert multiset(ts) == multiset(init) + multiset{x};
      assert IdxSeq(r, ts) == IdxSeq(r, init) + [IdxOfTerm(r, x)];
    }
  }

  /** Under such an index map, t's index occurs among the indices of ts
      exactly when t occurs in ts. */
  lemma IdxSeqHas(r: map<Term, nat>, ts: seq<Term>, t: Term)
    requires t in r && Injective(r)
    requires forall u :: u in ts ==> u in r
    ensures r[t] in IdxSeq(r, ts) <==> t in ts
  {
    var idxs := IdxSeq(r, ts);
    if r[t] in idxs {
      var j :| 0 <= j < |idxs| && idxs[j] == r[t];
      assert r[ts[j]] == r[t];
    }
    if t in ts {
      var j :| 0 <= j < |ts| && ts[j] == t;
      assert idxs[j] == r[t];
    }
  }

  /** For each document, the term counts add up to the number of its terms;
      under an index map numbered by m, every key leads back through m to a
      term of the document. */
  lemma TermCountsSum<Doc>(docs: seq<Doc>, termsOf: Doc -> seq<Term>, r: map<Term, nat>,
                           m: map<nat, Term>, i: nat)
    requires i < |docs| && Covers(r, docs, termsOf) && Numbers(m, r)
    ensures var c := TermCounts(docs, termsOf, r)[i];
      && SumCounts(c) == |termsOf(docs[i])|
      && (forall k :: k in c ==> k in m && m[k] in termsOf(docs[i]))
  {
    var ts := termsOf(docs[i]);
    var idxs := IdxSeq(r, ts);
    TallyIsMultiset(idxs);
    forall k | k in Tally(idxs)
      ensures k in m && m[k] in ts
    {
      var j :| 0 <= j < |idxs| && idxs[j] == k;
      assert ts[j] in r;
    }
  }

  /** The count at a term's index is how often that term occurs in the
      document, when the index map tells the corpus's terms apart. */
  lemma TermCountsOccurrences<Doc>(docs: seq<Doc>, termsOf: Doc -> seq<Term>, r: map<Term, nat>,
                                   i: nat, t: Term)
    requires i < |docs| && t in termsOf(docs[i])
    requires Covers(r, docs, termsOf) && Injective(r)
    ensures var c := TermCounts(docs, termsOf, r)[i];
      IdxOfTerm(r, t) in c && c[IdxOfTerm(r, t)] == multiset(termsOf(docs[i]))[t]
  {
    var ts := termsOf(docs[i]);
    var idxs := IdxSeq(r, ts);
    TallyIsMultiset(idxs);
    IdxSeqMultiplicity(r, ts, t);
    var j :| 0 <= j < |ts| && ts[j] == t;
    assert idxs[j] == IdxOfTerm(r, t);
  }

  /** The documents whose term indices include k. */
  ghost function DocsWith<Doc>(docs: seq<Doc>, termsOf: Doc -> seq<Term>, termToIdx: map<Term, nat>, k: nat)
    : set<nat>
  {
    set i: nat | i < |docs| && k in IdxSeq(termToIdx, termsOf(docs[i]))
  }

  /** Adding the last document adds its position to `DocsWith` when it
      contains k, and nothing otherwise. */
  lemma DocsWithLast<Doc>(docs: seq<Doc>, termsOf: Doc -> seq<Term>, termToIdx: map<Term, nat>, k: nat)
    requires docs != []
    ensures var n := |docs| - 1;
      var before := DocsWith(docs[..n], termsOf, termToIdx, k);
      var here := k in IdxSeq(termToIdx, termsOf(docs[n]));
      && n !in before
      && DocsWith(docs, termsOf, termToIdx, k) == before + (if here then {n} else {})
  {
    var n := |docs| - 1;
    forall j: nat | j < n
      ensures docs[j] == docs[..n][j]
    {}
  }

  /** One step of `DocCountsCountsDocs`: the last document's contribution. */
  lemma DocCountsStep<Doc>(docs: seq<Doc>, termsOf: Doc -> seq<Term>, termToIdx: map<Term, nat>, k: nat)
    requires docs != []
    requires var n := |docs| - 1;
      var df := DocCounts(docs[..n], termsOf, termToIdx);
      var with := DocsWith(docs[..n], termsOf, termToIdx, k);
      && (k in df <==> with != {})
      && (k in df ==> df[k] == |with|)
    ensures var df := DocCounts(docs, termsOf, termToIdx);
      var with := DocsWith(docs, termsOf, termToIdx, k);
      && (k in df <==> with != {})
      && (k in df ==> df[k] == |with|)
  {
    var n := |docs| - 1;
    var df0 := DocCounts(docs[..n], termsOf, termToIdx);
    var present := Elems(IdxSeq(termToIdx, termsOf(docs[n])));
    assert DocCounts(docs, termsOf, termToIdx) == AddDoc(df0, present);
    DocsWithLast(docs, termsOf, termToIdx, k);
    CountStep(df0, present, DocsWith(docs[..n], termsOf, termToIdx, k), n, k);
  }

  /** The same step on the count and the set of positions alone: a new
      position n joins the set exactly when the new document holds k. */
  lemma CountStep(df0: map<nat, nat>, present: set<nat>, before: set<nat>, n: nat, k: nat)
    requires k in df0 <==> before != {}
    requires k in df0 ==> df0[k] == |before|
    requires n !in before
    ensures var df := AddDoc(df0, present);
      var with := before + (if k in present then {n} else {});
      && (k in df <==> with != {})
      && (k in df ==> df[k] == |with|)
  {
    AddDocAt(df0, present, k);
    if k in present {
      assert |before + {n}| == |before| + 1;
    }
  }

  /** The contract of `AddDoc` at one key. */
  lemma AddDocAt(df: map<nat, nat>, present: set<nat>, k: nat)
    ensures k in AddDoc(df, present) <==> k in df || k in present
    ensures k in AddDoc(df, present) ==>
      AddDoc(df, present)[k] == Lookup(df, k) + (if k in present then 1 else 0)
  {
  }

  /** `term_to_doc_count` counts documents, not occurrences: a key is present
      exactly when some document contains it, with the number of such
      documents as its value, so 1 <= value <= number of documents. */
  lemma {:induction false} DocCountsCountsDocs<Doc>(docs: seq<Doc>, termsOf: Doc -> seq<Term>,
                                                    termToIdx: map<Term, nat>, k: nat)
    ensures var df := DocCounts(docs, termsOf, termToIdx);
      var with := DocsWith(docs, termsOf, termToIdx, k);
      && (k in df <==> with != {})
      && (k in df ==> df[k] == |with| && 1 <= df[k] <= |docs|)
  {
    if docs != [] {
      DocCountsCountsDocs(docs[..|docs| - 1], termsOf, termToIdx, k);
      DocCountsStep(docs, termsOf, termToIdx, k);
    }
  }

  /** In term space: under an index map that tells the corpus's terms apart,
      the document count at a term's index is the number of documents whose
      terms contain that term. */
  lemma DocCountsSpec<Doc>(docs: seq<Doc>, termsOf: Doc -> seq<Term>, r: map<Term, nat>, t: Term)
    requires Observed(docs, termsOf, t)
    requires Covers(r, docs, termsOf) && Injective(r)
    ensures var df := DocCounts(docs, termsOf, r);
      var k := IdxOfTerm(r, t);
      && k in df
      && df[k] == |set i: nat | i < |docs| && t in termsOf(docs[i])|
      && 1 <= df[k] <= |docs|
  {
    var k := IdxOfTerm(r, t);
    var i :| 0 <= i < |docs| && t in termsOf(docs[i]);
    assert t in r;
    DocCountsCountsDocs(docs, termsOf, r, k);
    forall j: nat | j < |docs|
      ensures k in IdxSeq(r, termsOf(docs[j])) <==> t in termsOf(docs[j])
    {
      IdxSeqHas(r, termsOf(docs[j]), t);
    }
    assert DocsWith(docs, termsOf, r, k) == set j: nat | j < |docs| && t in termsOf(docs[j]);
    assert i in DocsWith(docs, termsOf, r, k);
  }
}
