/** The metric engine of the TF-IDF engine: term frequency, inverse
    document frequency and their product, all keyed by term index. */
module Metrics {
  import opened Wrappers
  import opened Indexer
  import opened Counter

  /** Every count positive, as every tally is. */
  predicate Positive(c: map<nat, nat>)
  {
    forall k :: k in c ==> c[k] > 0
  }

  /** The sum of a dictionary of reals. */
  ghost function SumReals(m: map<nat, real>): real
    decreases |m|
  {
    if m == map[] then 0.0
    else
      var k :| k in m;
      assert (m - {k}).Keys == m.Keys - {k};
      m[k] + SumReals(m - {k})
  }

  lemma {:induction false} SumRealsRemove(m: map<nat, real>, k: nat)
    requires k in m
    ensures SumReals(m) == m[k] + SumReals(m - {k})
    decreases |m|
  {
    var j :| j in m && SumReals(m) == m[j] + SumReals(m - {j});
    if j != k {
      assert (m - {j}).Keys == m.Keys - {j};
      assert (m - {k}).Keys == m.Keys - {k};
      SumRealsRemove(m - {j}, k);
      SumRealsRemove(m - {k}, j);
      assert m - {j} - {k} == m - {k} - {j};
    }
  }

  /** Each count divided by the same total; nothing is divided when there
      are no counts. */
  function Scale(c: map<nat, nat>, total: real): map<nat, real>
    requires c != map[] ==> total != 0.0
  {
    map k | k in c :: c[k] as real / total
  }

  lemma DivAdd(a: real, b: real, sum: real, t: real)
    requires t != 0.0 && sum == a + b
    ensures a / t + b / t == sum / t
  {
    assert (a / t) * t == a && (b / t) * t == b;
    assert (a / t + b / t) * t == a + b;
  }

  lemma DivSelf(t: real)
    requires t != 0.0
    ensures t / t == 1.0
  {
    assert (t / t) * t == t;
  }

  lemma DivAtMostOne(a: real, t: real)
    requires 0.0 < a <= t
    ensures 0.0 < a / t <= 1.0
  {
    assert (a / t) * t == a;
  }

  /** One step of `SumScale`: take one count out of the sum. */
  lemma SumScaleStep(c: map<nat, nat>, total: real, k: nat)
    requires total != 0.0 && k in c
    requires SumReals(Scale(c - {k}, total)) == SumCounts(c - {k}) as real / total
    ensures SumReals(Scale(c, total)) == SumCounts(c) as real / total
  {
    var s := Scale(c, total);
    SumRealsRemove(s, k);
    SumCountsRemove(c, k);
    assert s - {k} == Scale(c - {k}, total);
    DivAdd(c[k] as real, SumCounts(c - {k}) as real, SumCounts(c) as real, total);
  }

  /** Dividing every count by the same total divides their sum by it. */
  lemma {:induction false} SumScale(c: map<nat, nat>, total: real)
    requires total != 0.0
    ensures SumReals(Scale(c, total)) == SumCounts(c) as real / total
    decreases |c|
  {
    if c != map[] {
      var k :| k in c;
      assert (c - {k}).Keys == c.Keys - {k};
      SumScale(c - {k}, total);
      SumScaleStep(c, total, k);
    } else {
      assert Scale(c, total) == map[];
      assert SumCounts(c) == 0;
      assert 0.0 / total == 0.0;
    }
  }

  /** One document's term frequencies: each count over the document's total.
      They have the counts' keys and lie in (0, 1]. */
  ghost function TfOf(c: map<nat, nat>): (tf: map<nat, real>)
    requires Positive(c)
    ensures tf.Keys == c.Keys
    ensures forall k :: k in tf ==> 0.0 < tf[k] <= 1.0
  {
    var total := SumCounts(c);
    assert forall k :: k in c ==> 0.0 < c[k] as real / total as real <= 1.0 by {
      forall k | k in c
        ensures 0.0 < c[k] as real / total as real <= 1.0
      {
        DivAtMostOne(c[k] as real, total as real);
      }
    }
    Scale(c, total as real)
  }

  /** Unless the document has no terms, its term frequencies add up to 1. */
  lemma TfBounds(c: map<nat, nat>)
    requires Positive(c)
    ensures c != map[] ==> SumReals(TfOf(c)) == 1.0
  {
    if c != map[] {
      var total := SumCounts(c);
      var k :| k in c;
      SumScale(c, total as real);
      assert total >= c[k] > 0;
      DivSelf(total as real);
    }
  }

  /** `doc_to_term_to_tf` for documents 0..n-1: one row per document, keyed
      like that document's counts. */
  ghost function TfMap(counts: map<nat, map<nat, nat>>, n: nat): (tf: map<nat, map<nat, real>>)
    requires forall i: nat :: i < n ==> i in counts && Positive(counts[i])
    ensures forall i: nat :: i in tf <==> i < n
    ensures forall i :: i in tf ==> tf[i].Keys == counts[i].Keys
  {
    map i: nat | i < n :: TfOf(counts[i])
  }

  /** `sum(d.values())`, one key at a time. */
  method Total(c: map<nat, nat>) returns (total: nat)
    ensures total == SumCounts(c)
  {
    total := 0;
    var rest := c;
    while rest != map[]
      invariant total + SumCounts(rest) == SumCounts(c)
      decreases |rest|
    {
      var k :| k in rest;
      SumCountsRemove(rest, k);
      assert (rest - {k}).Keys == rest.Keys - {k};
      total := total + rest[k];
      rest := rest - {k};
    }
  }

  /** The loop of `doc_to_term_to_tf`. */
  method ComputeTf(counts: map<nat, map<nat, nat>>, n: nat) returns (tf: map<nat, map<nat, real>>)
    requires forall i: nat :: i < n ==> i in counts && Positive(counts[i])
    ensures tf == TfMap(counts, n)
  {
    tf := map[];
    var i := 0;
    while i < n
      invariant 0 <= i <= n
      invariant forall j: nat :: j in tf <==> j < i
      invariant forall j: nat :: j < i ==> tf[j] == TfOf(counts[j])
    {
      var c := counts[i];
      var total := Total(c);
      var termToTf := Scale(c, total as real);
      tf := tf[i := termToTf];
      i := i + 1;
    }
    assert tf.Keys == TfMap(counts, n).Keys;
  }

  /** The error `math.log` raises outside its domain. */
  datatype MathError = DomainError

  /** `term_to_idf`: log N - log df for every counted term; the logarithm of
      a zero document total (or count) fails. It succeeds exactly when every
      logarithm taken is of a positive number, and then keeps the keys. */
  function IdfOf(n: nat, df: map<nat, nat>, ln: nat -> real): (r: Result<map<nat, real>, MathError>)
    ensures r.Success? <==> n > 0 && forall k :: k in df ==> df[k] > 0
    ensures r.Success? ==> r.value.Keys == df.Keys
  {
    if n == 0 || 0 in df.Values then Failure(DomainError)
    else Success(map k | k in df :: ln(n) - ln(df[k]))
  }

  /** A logarithm that does not decrease on the positive integers. */
  ghost predicate Monotone(ln: nat -> real)
  {
    forall x: nat, y: nat :: 0 < x <= y ==> ln(x) <= ln(y)
  }

  /** A logarithm that strictly increases on the positive integers. */
  ghost predicate StrictlyMonotone(ln: nat -> real)
  {
    forall x: nat, y: nat :: 0 < x < y ==> ln(x) < ln(y)
  }

  /** With document counts between 1 and n, the IDF exists with the same
      keys; it is 0 for a term in every document, never negative for a
      monotone logarithm, and larger for rarer terms. */
  lemma IdfBounds(n: nat, df: map<nat, nat>, ln: nat -> real)
    requires n > 0
    requires forall k :: k in df ==> 1 <= df[k] <= n
    ensures IdfOf(n, df, ln).Success?
    ensures var idf := IdfOf(n, df, ln).value;
      && idf.Keys == df.Keys
      && (forall k :: k in df && df[k] == n ==> idf[k] == 0.0)
      && (Monotone(ln) ==> forall k :: k in df ==> idf[k] >= 0.0)
      && (Monotone(ln) ==> forall a, b :: a in df && b in df && df[a] <= df[b] ==> idf[a] >= idf[b])
      && (StrictlyMonotone(ln) ==> forall a, b :: a in df && b in df && df[a] < df[b] ==> idf[a] > idf[b])
  {
    assert 0 !in df.Values;
  }

  /** The TF-IDF weight of a term: its TF times its IDF. */
  function Weight(tf: real, idf: real): real
  {
    tf * idf
  }

  /** The product of a document's term frequencies with the IDF: the TF's
      keys, and a zero weight wherever the IDF is zero. */
  function TfIdfOf(tf: map<nat, real>, idf: map<nat, real>): (r: map<nat, real>)
    requires tf.Keys <= idf.Keys
    ensures r.Keys == tf.Keys
    ensures forall k :: k in r && idf[k] == 0.0 ==> r[k] == 0.0
  {
    map k | k in tf :: Weight(tf[k], idf[k])
  }

  /** `doc_to_term_to_tfidf` for documents 0..n-1: one row per document,
      keyed like that document's TF. */
  function TfIdfMap(tf: map<nat, map<nat, real>>, n: nat, idf: map<nat, real>): (r: map<nat, map<nat, real>>)
    requires forall i: nat :: i < n ==> i in tf && tf[i].Keys <= idf.Keys
    ensures forall i: nat :: i in r <==> i < n
    ensures forall i :: i in r ==> r[i].Keys == tf[i].Keys
  {
    map i: nat | i < n :: TfIdfOf(tf[i], idf)
  }

  /** The loop of `doc_to_term_to_tfidf`, given the TF and the IDF it reads. */
  method ComputeTfIdf(tf: map<nat, map<nat, real>>, n: nat, idf: map<nat, real>)
    returns (tfidf: map<nat, map<nat, real>>)
    requires forall i: nat :: i < n ==> i in tf && tf[i].Keys <= idf.Keys
    ensures tfidf == TfIdfMap(tf, n, idf)
  {
    tfidf := map[];
    var i := 0;
    while i < n
      invariant 0 <= i <= n
      invariant forall j: nat :: j in tfidf <==> j < i
      invariant forall j: nat :: j < i ==> tfidf[j] == TfIdfOf(tf[j], idf)
    {
      tfidf := tfidf[i := TfIdfOf(tf[i], idf)];
      i := i + 1;
    }
    assert tfidf.Keys == TfIdfMap(tf, n, idf).Keys;
  }
}
