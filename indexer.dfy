/** The indexer of the TF-IDF engine: numbers the documents 0-based in
    enumeration order and the distinct terms 1-based in sorted order, with
    reverse lookups that answer 0 for an identity never seen. */
module Indexer {
  import opened Wrappers

  /** Terms are modelled as integers, a totally ordered type whose hash is
      taken to be its identity. */
  type Term = int

  /** A dictionary read with a default of 0, as Python's `defaultdict(int)`
      answers for a missing key (the auto-insertion is not modelled). */
  function Lookup<K>(m: map<K, nat>, k: K): nat
  {
    if k in m then m[k] else 0
  }

  function Elems<T>(s: seq<T>): set<T>
  {
    set x | x in s
  }

  /** Strictly increasing: sorted and without repeats. */
  predicate StrictlySorted(s: seq<Term>)
  {
    forall i, j :: 0 <= i < j < |s| ==> s[i] < s[j]
  }

  /** Inserts x into a strictly increasing sequence unless it is already there. */
  function Insert(x: Term, s: seq<Term>): seq<Term>
  {
    if s == [] then [x]
    else if x < s[0] then [x] + s
    else if x == s[0] then s
    else [s[0]] + Insert(x, s[1..])
  }

  /** Insertion keeps a sequence strictly increasing and adds exactly x. */
  lemma {:induction false} InsertSorted(x: Term, s: seq<Term>)
    requires StrictlySorted(s)
    ensures StrictlySorted(Insert(x, s))
    ensures Elems(Insert(x, s)) == Elems(s) + {x}
  {
    if s == [] {
      assert Elems([x]) == {x};
    } else if x < s[0] {
      BelowAll(x, s);
      ConsSorted(x, s);
    } else if x == s[0] {
      assert x in Elems(s);
    } else {
      InsertSorted(x, s[1..]);
      assert s == [s[0]] + s[1..];
      InsertStep(x, s[0], s[1..], Insert(x, s[1..]));
    }
  }

  /** A value below the head of a strictly increasing sequence is below all of it. */
  lemma BelowAll(h: Term, s: seq<Term>)
    requires StrictlySorted(s) && (s == [] || h < s[0])
    ensures forall y :: y in Elems(s) ==> h < y
  {
    forall y | y in Elems(s)
      ensures h < y
    {
      var j :| 0 <= j < |s| && s[j] == y;
      assert s[0] <= s[j];
    }
  }

  /** The recursive case of `InsertSorted`: x goes after the head h. */
  lemma InsertStep(x: Term, h: Term, rest: seq<Term>, ins: seq<Term>)
    requires StrictlySorted([h] + rest) && h < x
    requires StrictlySorted(ins) && Elems(ins) == Elems(rest) + {x}
    ensures StrictlySorted([h] + ins)
    ensures Elems([h] + ins) == Elems([h] + rest) + {x}
  {
    TailSorted(h, rest);
    BelowAll(h, rest);
    ConsSorted(h, ins);
    ConsSorted(h, rest);
  }

  lemma TailSorted(h: Term, rest: seq<Term>)
    requires StrictlySorted([h] + rest)
    ensures StrictlySorted(rest) && (rest == [] || h < rest[0])
  {
    var s := [h] + rest;
    forall i, j | 0 <= i < j < |rest|
      ensures rest[i] < rest[j]
    {
      assert rest[i] == s[i + 1] && rest[j] == s[j + 1];
    }
    if rest != [] {
      assert s[0] < s[1];
    }
  }

  lemma ConsSorted(h: Term, t: seq<Term>)
    requires StrictlySorted(t)
    requires forall y :: y in Elems(t) ==> h < y
    ensures StrictlySorted([h] + t)
    ensures Elems([h] + t) == {h} + Elems(t)
  {
    assert forall k :: 0 <= k < |t| ==> t[k] in Elems(t);
  }

  /** `sorted(set(xs))`: the distinct elements of xs in increasing order. */
  function SortedSet(xs: seq<Term>): (r: seq<Term>)
    ensures StrictlySorted(r)
    ensures Elems(r) == Elems(xs)
  {
    if xs == [] then []
    else
      var init := xs[..|xs| - 1];
      assert xs == init + [xs[|xs| - 1]];
      assert Elems(xs) == Elems(init) + {xs[|xs| - 1]};
      InsertSorted(xs[|xs| - 1], SortedSet(init));
      Insert(xs[|xs| - 1], SortedSet(init))
  }

  /** There is only one strictly increasing arrangement of a set: the term
      numbering depends on the set of terms alone. */
  lemma {:induction false} StrictlySortedUnique(a: seq<Term>, b: seq<Term>)
    requires StrictlySorted(a) && StrictlySorted(b)
    requires Elems(a) == Elems(b)
    ensures a == b
  {
    if a != [] {
      assert a[0] in Elems(a);
    }
    if b != [] {
      assert b[0] in Elems(b);
    }
    if a != [] && b != [] {
      assert a[0] in Elems(b) && b[0] in Elems(a);
      assert a[0] == b[0];
      assert Elems(a[1..]) == Elems(a) - {a[0]} by {
        assert a == [a[0]] + a[1..];
      }
      assert Elems(b[1..]) == Elems(b) - {b[0]} by {
        assert b == [b[0]] + b[1..];
      }
      StrictlySortedUnique(a[1..], b[1..]);
      assert a == [a[0]] + a[1..] && b == [b[0]] + b[1..];
    }
  }

  function ElemAt<T>(s: seq<T>, start: nat, i: nat): T
    requires start <= i < start + |s|
  {
    s[i - start]
  }

  /** `enumerate(s, start)` collected into a dictionary. */
  function Enumerate<T>(s: seq<T>, start: nat): (m: map<nat, T>)
    ensures forall i: nat :: i in m <==> start <= i < start + |s|
    ensures forall k :: 0 <= k < |s| ==> m[start + k] == s[k]
  {
    map i: nat | start <= i < start + |s| :: ElemAt(s, start, i)
  }

  /** Every term occurrence of the corpus, documents in enumeration order. */
  function AllTerms<Doc>(docs: seq<Doc>, termsOf: Doc -> seq<Term>): seq<Term>
  {
    if docs == [] then []
    else AllTerms(docs[..|docs| - 1], termsOf) + termsOf(docs[|docs| - 1])
  }

  /** A term occurs in the corpus when some document's terms contain it. */
  ghost predicate Observed<Doc>(docs: seq<Doc>, termsOf: Doc -> seq<Term>, t: Term)
  {
    exists i :: 0 <= i < |docs| && t in termsOf(docs[i])
  }

  lemma {:induction false} AllTermsObserved<Doc>(docs: seq<Doc>, termsOf: Doc -> seq<Term>, t: Term)
    ensures t in AllTerms(docs, termsOf) <==> Observed(docs, termsOf, t)
  {
    if docs != [] {
      var init := docs[..|docs| - 1];
      AllTermsObserved(init, termsOf, t);
      if Observed(init, termsOf, t) {
        var i :| 0 <= i < |init| && t in termsOf(init[i]);
        assert docs[i] == init[i];
      }
      if Observed(docs, termsOf, t) {
        var i :| 0 <= i < |docs| && t in termsOf(docs[i]);
        if i < |init| {
          assert init[i] == docs[i];
        }
      }
    }
  }

  /** `idx_to_term`: the distinct terms of all documents, sorted, numbered
      from 1; index 0 is left free and every value is a term of the corpus. */
  function IdxToTerm<Doc>(docs: seq<Doc>, termsOf: Doc -> seq<Term>): (m: map<nat, Term>)
    ensures 0 !in m
    ensures forall i :: i in m ==> m[i] in AllTerms(docs, termsOf)
  {
    var terms := SortedSet(AllTerms(docs, termsOf));
    assert forall i :: i in Enumerate(terms, 1) ==> Enumerate(terms, 1)[i] in Elems(terms) by {
      forall i | i in Enumerate(terms, 1)
        ensures Enumerate(terms, 1)[i] in Elems(terms)
      {
        assert Enumerate(terms, 1)[1 + (i - 1)] == terms[i - 1];
      }
    }
    Enumerate(terms, 1)
  }

  /** `term_hash_to_idx`: each term of `idx_to_term` keyed back to its index;
      its keys are exactly the terms of the corpus, and no term gets the
      default index 0. */
  function TermHashToIdx<Doc>(docs: seq<Doc>, termsOf: Doc -> seq<Term>): (r: map<Term, nat>)
    ensures r.Keys == Elems(AllTerms(docs, termsOf))
    ensures forall t :: t in r ==> r[t] != 0
  {
    var terms := SortedSet(AllTerms(docs, termsOf));
    IndexMapInverts(terms);
    IndexMap(terms)
  }

  /** Each term of a strictly increasing sequence keyed to its 1-based position. */
  function IndexMap(terms: seq<Term>): map<Term, nat>
    requires StrictlySorted(terms)
  {
    map k | 0 <= k < |terms| :: terms[k] := k + 1
  }

  /** `idx_of_term`: the index of a term, 0 when it was never seen. */
  function IdxOfTerm(termToIdx: map<Term, nat>, t: Term): (idx: nat)
    ensures t in termToIdx ==> idx == termToIdx[t]
    ensures t !in termToIdx ==> idx == 0
  {
    Lookup(termToIdx, t)
  }

  /** `decode_term_idx` (`dict.get`): the term with a given index, if there
      is one; a negative index finds nothing. */
  function DecodeTermIdx(idxToTerm: map<nat, Term>, idx: int): (r: Option<Term>)
    ensures r.Some? <==> 0 <= idx && idx in idxToTerm
    ensures r.Some? ==> r.value in idxToTerm.Values
  {
    if idx >= 0 && idx in idxToTerm then Some(idxToTerm[idx]) else None
  }

  /** The number of distinct terms in the corpus. */
  function NumTerms<Doc>(docs: seq<Doc>, termsOf: Doc -> seq<Term>): nat
  {
    |Elems(AllTerms(docs, termsOf))|
  }

  lemma {:induction false} StrictlySortedCard(s: seq<Term>)
    requires StrictlySorted(s)
    ensures |Elems(s)| == |s|
  {
    if s != [] {
      assert s == [s[0]] + s[1..];
      assert Elems(s) == {s[0]} + Elems(s[1..]);
      StrictlySortedCard(s[1..]);
    }
  }

  /** `idx_to_term` numbers exactly the distinct terms of the corpus as
      1..N, and index order is term order. */
  lemma IdxToTermBijective<Doc>(docs: seq<Doc>, termsOf: Doc -> seq<Term>)
    ensures var m := IdxToTerm(docs, termsOf);
      && (forall i: nat :: i in m <==> 1 <= i <= NumTerms(docs, termsOf))
      && (forall t :: t in m.Values <==> Observed(docs, termsOf, t))
      && (forall i, j :: i in m && j in m && i < j ==> m[i] < m[j])
  {
    var terms := SortedSet(AllTerms(docs, termsOf));
    var m := IdxToTerm(docs, termsOf);
    StrictlySortedCard(terms);
    forall t
      ensures t in m.Values <==> Observed(docs, termsOf, t)
    {
      AllTermsObserved(docs, termsOf, t);
      if t in Elems(terms) {
        var k :| 0 <= k < |terms| && terms[k] == t;
        assert m[k + 1] == t;
      }
    }
  }

  /** Numbering a strictly increasing sequence from 1 and keying each element
      back to its number give two inverse maps; 0 is never a number. */
  lemma IndexMapInverts(terms: seq<Term>)
    requires StrictlySorted(terms)
    ensures var m := Enumerate(terms, 1);
      var r := IndexMap(terms);
      && r.Keys == Elems(terms)
      && r.Keys == m.Values
      && (forall i :: i in m ==> m[i] in r && r[m[i]] == i)
      && Numbers(m, r)
      && 0 !in m
  {
    var m := Enumerate(terms, 1);
    var r := IndexMap(terms);
    forall i | i in m
      ensures m[i] in r && r[m[i]] == i
    {
      assert m[1 + (i - 1)] == terms[i - 1];
    }
    forall t | t in r
      ensures r[t] in m && m[r[t]] == t
    {
      var k :| 0 <= k < |terms| && terms[k] == t;
      assert m[1 + k] == terms[k];
    }
    forall t | t in m.Values
      ensures t in r
    {
      var i :| i in m && m[i] == t;
    }
  }

  /** `m` numbers the keys of `r`: every key's index leads back to it. */
  ghost predicate Numbers(m: map<nat, Term>, r: map<Term, nat>)
  {
    forall t :: t in r ==> r[t] in m && m[r[t]] == t
  }

  /** Every term of every document has an index under `r`. */
  ghost predicate Covers<Doc>(r: map<Term, nat>, docs: seq<Doc>, termsOf: Doc -> seq<Term>)
  {
    forall i, t :: 0 <= i < |docs| && t in termsOf(docs[i]) ==> t in r
  }

  /** Distinct terms get distinct indices. */
  ghost predicate Injective(r: map<Term, nat>)
  {
    forall u, v :: u in r && v in r && r[u] == r[v] ==> u == v
  }

  /** `term_hash_to_idx` inverts `idx_to_term`; `idx_of_term` answers 0 for
      a term the corpus does not contain, and 0 is never a term index. */
  lemma TermLookupInverts<Doc>(docs: seq<Doc>, termsOf: Doc -> seq<Term>)
    ensures var m := IdxToTerm(docs, termsOf);
      var r := TermHashToIdx(docs, termsOf);
      && r.Keys == m.Values
      && (forall i :: i in m ==> IdxOfTerm(r, m[i]) == i)
      && (forall t :: t in r ==> r[t] in m && m[r[t]] == t)
      && 0 !in m
      && (forall t :: !Observed(docs, termsOf, t) ==> IdxOfTerm(r, t) == 0)
  {
    IndexMapInverts(SortedSet(AllTerms(docs, termsOf)));
    TermHashKeys(docs, termsOf);
  }

  /** The terms with an index are exactly the observed ones. */
  lemma TermHashKeys<Doc>(docs: seq<Doc>, termsOf: Doc -> seq<Term>)
    ensures forall t :: t in TermHashToIdx(docs, termsOf) <==> Observed(docs, termsOf, t)
  {
    var terms := SortedSet(AllTerms(docs, termsOf));
    IndexMapInverts(terms);
    forall t
      ensures t in IndexMap(terms) <==> Observed(docs, termsOf, t)
    {
      AllTermsObserved(docs, termsOf, t);
    }
  }

  /** The engine's term index is fit for counting: it covers every term of
      the corpus, tells distinct terms apart, and `idx_to_term` numbers it
      within 1..N. */
  lemma TermHashIndexes<Doc>(docs: seq<Doc>, termsOf: Doc -> seq<Term>)
    ensures var r := TermHashToIdx(docs, termsOf);
      && Covers(r, docs, termsOf)
      && Injective(r)
      && Numbers(IdxToTerm(docs, termsOf), r)
      && forall t :: t in r ==> 1 <= r[t] <= NumTerms(docs, termsOf)
  {
    var r := TermHashToIdx(docs, termsOf);
    var m := IdxToTerm(docs, termsOf);
    TermLookupInverts(docs, termsOf);
    IdxToTermBijective(docs, termsOf);
    forall i, t | 0 <= i < |docs| && t in termsOf(docs[i])
      ensures t in r
    {
      assert Observed(docs, termsOf, t);
    }
    forall u, v | u in r && v in r && r[u] == r[v]
      ensures u == v
    {
      assert m[r[u]] == u && m[r[v]] == v;
    }
  }

  /** The index of one observed term: a real index that leads back to it. */
  lemma TermIndexOf<Doc>(docs: seq<Doc>, termsOf: Doc -> seq<Term>, t: Term)
    requires Observed(docs, termsOf, t)
    ensures var r := TermHashToIdx(docs, termsOf);
      var m := IdxToTerm(docs, termsOf);
      && t in r && r[t] in m && m[r[t]] == t && 1 <= r[t] <= NumTerms(docs, termsOf)
  {
    IdxToTermBijective(docs, termsOf);
    TermLookupInverts(docs, termsOf);
  }

  /** `decode_term_idx` finds a term exactly for the indices 1..N, and it
      undoes `idx_of_term`: the two are inverse on the observed terms. */
  lemma DecodeTermIdxInverse<Doc>(docs: seq<Doc>, termsOf: Doc -> seq<Term>, idx: int, t: Term)
    ensures var d := DecodeTermIdx(IdxToTerm(docs, termsOf), idx);
      && (d.None? <==> !(1 <= idx <= NumTerms(docs, termsOf)))
      && (d.Some? ==> Observed(docs, termsOf, d.value)
                      && IdxOfTerm(TermHashToIdx(docs, termsOf), d.value) == idx)
    ensures var i := IdxOfTerm(TermHashToIdx(docs, termsOf), t);
      && (i != 0 <==> Observed(docs, termsOf, t))
      && (i != 0 ==> DecodeTermIdx(IdxToTerm(docs, termsOf), i) == Some(t))
  {
    var m := IdxToTerm(docs, termsOf);
    IdxToTermBijective(docs, termsOf);
    TermLookupInverts(docs, termsOf);
    if idx >= 0 && idx in m {
      assert m[idx] in m.Values;
    }
  }

  /** `idx_to_doc`: the documents numbered from 0 in enumeration order. */
  function IdxToDoc<Doc>(docs: seq<Doc>): (m: map<nat, Doc>)
    ensures forall i: nat :: i in m <==> i < |docs|
    ensures forall i :: 0 <= i < |docs| ==> m[i] == docs[i]
  {
    assert forall i :: 0 <= i < |docs| ==> Enumerate(docs, 0)[0 + i] == docs[i];
    Enumerate(docs, 0)
  }

  /** `doc_hash_to_idx`: each document keyed to its index, a later equal
      document overwriting an earlier one; every key's index holds it. */
  function DocHashToIdx<Doc(==)>(docs: seq<Doc>): (r: map<Doc, nat>)
    ensures forall d :: d in r ==> r[d] < |docs| && docs[r[d]] == d
  {
    if docs == [] then map[]
    else DocHashToIdx(docs[..|docs| - 1])[docs[|docs| - 1] := |docs| - 1]
  }

  /** `doc_hash_to_idx` has exactly the documents as keys and maps every
      document back to its LAST position, so it inverts `idx_to_doc` when the
      documents are distinct. */
  lemma {:induction false} DocIndexInverts<Doc>(docs: seq<Doc>)
    ensures var r := DocHashToIdx(docs);
      && r.Keys == Elems(docs)
      && (forall d :: d in r ==> r[d] < |docs| && docs[r[d]] == d)
      && (forall j, d :: 0 <= j < |docs| && docs[j] == d ==> j <= r[d])
  {
    if docs != [] {
      var n := |docs| - 1;
      DocIndexInverts(docs[..n]);
      DocIndexStep(docs[..n], docs[n]);
      assert docs == docs[..n] + [docs[n]];
    }
  }

  /** One step of `DocIndexInverts`: enumerating one more document. */
  lemma DocIndexStep<Doc>(init: seq<Doc>, d: Doc)
    requires var r := DocHashToIdx(init);
      && r.Keys == Elems(init)
      && (forall e :: e in r ==> r[e] < |init| && init[r[e]] == e)
      && (forall j, e :: 0 <= j < |init| && init[j] == e ==> j <= r[e])
    ensures var docs := init + [d];
      var r := DocHashToIdx(docs);
      && r.Keys == Elems(docs)
      && (forall e :: e in r ==> r[e] < |docs| && docs[r[e]] == e)
      && (forall j, e :: 0 <= j < |docs| && docs[j] == e ==> j <= r[e])
  {
    var docs := init + [d];
    var n := |init|;
    assert docs[..n] == init;
    var r := DocHashToIdx(docs);
    assert r == DocHashToIdx(init)[d := n];
    assert Elems(docs) == Elems(init) + {d};
    forall j, e | 0 <= j < |docs| && docs[j] == e
      ensures j <= r[e]
    {
      if j < n && e != d {
        assert init[j] == e;
      }
    }
  }

  /** With distinct documents, `doc_hash_to_idx` recovers every position. */
  lemma DocIndexOfDistinct<Doc>(docs: seq<Doc>, i: nat)
    requires forall j, k :: 0 <= j < k < |docs| ==> docs[j] != docs[k]
    requires i < |docs|
    ensures Lookup(DocHashToIdx(docs), docs[i]) == i
  {
    DocIndexInverts(docs);
  }

  /** The sharp edge of the default-0 document lookup: an unknown document
      gets the same answer as the first document. */
  lemma DocSentinelAmbiguous<Doc>(docs: seq<Doc>, d: Doc)
    requires |docs| > 0 && d !in docs
    requires forall j :: 0 < j < |docs| ==> docs[j] != docs[0]
    ensures Lookup(DocHashToIdx(docs), d) == Lookup(DocHashToIdx(docs), docs[0]) == 0
  {
    DocIndexInverts(docs);
  }
}
