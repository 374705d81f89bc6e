/** TF-IDF weighting (indexer.py): the document list, term frequencies
    normalised by one index-wide maximum count, inverse document frequencies,
    their product, and the term/document transpose used when writing. */
module Indexer {
  import opened Collections
  import opened InvertedIndex

  type Weights = map<Token, map<DocId, real>>

  /** The document collection: every id that occurs in some posting list. */
  function DocSet(inv: Index): set<DocId> {
    set t, k | t in inv && k in inv[t] :: k
  }

  /** `get_doc_list`: concatenates all posting lists, then removes repeats
      (`list(set(...))`, so the order is unspecified). */
  method GetDocList(inv: Index) returns (docList: seq<DocId>)
    ensures Distinct(docList)
    ensures Elements(docList) == DocSet(inv)
  {
    var all: seq<DocId> := [];
    var todo := inv.Keys;
    while todo != {}
      invariant todo <= inv.Keys
      invariant forall k :: k in all <==> exists t :: t in inv && t !in todo && k in inv[t]
      decreases todo
    {
      ghost var w := Pick(todo);
      var t :| t in todo;
      all := all + inv[t];
      todo := todo - {t};
    }
    forall k ensures k in all <==> k in DocSet(inv) {
      if k in all {
        var t :| t in inv && k in inv[t];
      }
    }
    var rest := Elements(all);
    docList := [];
    while rest != {}
      invariant Distinct(docList)
      invariant Elements(docList) !! rest
      invariant Elements(docList) + rest == Elements(all)
      decreases rest
    {
      ghost var w := Pick(rest);
      var d :| d in rest;
      docList := docList + [d];
      rest := rest - {d};
    }
  }

  /** N, the size of the document collection. */
  function CollectionSize(inv: Index): nat {
    |DocSet(inv)|
  }

  lemma DocListLength(inv: Index, docList: seq<DocId>)
    requires Distinct(docList) && Elements(docList) == DocSet(inv)
    ensures |docList| == CollectionSize(inv)
  {
    DistinctCard(docList);
  }

  // ---------------------------------------------------------------------------
  // Term frequency.

  /** m is the largest raw count of any (term, document) pair of the whole
      index, or 0 when there is no pair at all. */
  ghost predicate IsGlobalMax(inv: Index, m: nat) {
    && (forall t, k :: t in inv && k in inv[t] ==> Count(inv[t], k) <= m)
    && (m > 0 ==> exists t, k :: t in inv && k in inv[t] && Count(inv[t], k) == m)
  }

  lemma GlobalMaxUnique(inv: Index, a: nat, b: nat)
    requires IsGlobalMax(inv, a) && IsGlobalMax(inv, b)
    ensures a == b
  {
    if a > 0 {
      var t, k :| t in inv && k in inv[t] && Count(inv[t], k) == a;
    }
    if b > 0 {
      var t, k :| t in inv && k in inv[t] && Count(inv[t], k) == b;
    }
  }

  /** Largest count in s of the ids ks. */
  function MaxCountIn(s: seq<DocId>, ks: seq<DocId>): (r: nat)
    ensures forall k :: k in ks ==> Count(s, k) <= r
    ensures r > 0 ==> exists k :: k in ks && Count(s, k) == r
  {
    if ks == [] then 0
    else
      var rest := MaxCountIn(s, ks[..|ks| - 1]);
      var here := Count(s, ks[|ks| - 1]);
      assert forall k :: k in ks ==> k in ks[..|ks| - 1] || k == ks[|ks| - 1];
      if here > rest then here else rest
  }

  /** `maxf` of `TF`: one index-wide maximum, not a per-document one. */
  ghost function GlobalMax(inv: Index): (m: nat)
    ensures IsGlobalMax(inv, m)
    decreases |inv|
  {
    if inv == map[] then 0
    else
      var t :| t in inv;
      var rest := GlobalMax(inv - {t});
      var here := MaxCountIn(inv[t], inv[t]);
      GlobalMaxStep(inv, t, rest, here);
      if here > rest then here else rest
  }

  lemma GlobalMaxStep(inv: Index, t: Token, rest: nat, here: nat)
    requires t in inv && IsGlobalMax(inv - {t}, rest)
    requires forall k :: k in inv[t] ==> Count(inv[t], k) <= here
    requires here > 0 ==> exists k :: k in inv[t] && Count(inv[t], k) == here
    ensures IsGlobalMax(inv, if here > rest then here else rest)
  {
    var m := if here > rest then here else rest;
    forall t', k | t' in inv && k in inv[t'] ensures Count(inv[t'], k) <= m {
      if t' != t {
        assert t' in inv - {t} && (inv - {t})[t'] == inv[t'];
      } else {
        assert Count(inv[t], k) <= here;
      }
    }
    if m > 0 {
      if m == here {
        var k :| k in inv[t] && Count(inv[t], k) == here;
      } else {
        var t', k :| t' in inv - {t} && k in (inv - {t})[t'] && Count((inv - {t})[t'], k) == rest;
        assert t' in inv && k in inv[t'] && Count(inv[t'], k) == m;
      }
    }
  }

  /** Raw counts of the index divided by m (m is positive whenever some
      posting list is non-empty). */
  function Normalized(inv: Index, m: nat): (tf: Weights)
    requires forall t, k :: t in inv && k in inv[t] ==> m > 0
    ensures tf.Keys == inv.Keys
    ensures forall t :: t in tf ==> tf[t].Keys == Elements(inv[t])
  {
    map t | t in inv :: map k | k in Elements(inv[t]) :: Count(inv[t], k) as real / m as real
  }

  /** The frequencies `TF` returns: raw counts over the global maximum. */
  ghost function TfOf(inv: Index): Weights {
    Normalized(inv, GlobalMax(inv))
  }

  /** Raw counts of one posting list: each distinct id with its count. */
  function RawRow(keys: seq<DocId>): (row: map<DocId, real>)
    ensures row.Keys == Elements(keys)
  {
    map k | k in Elements(keys) :: Count(keys, k) as real
  }

  /** Raw per-(term, document) counts, before normalisation. */
  function RawTf(inv: Index): (raw: Weights)
    ensures raw.Keys == inv.Keys
  {
    map t | t in inv :: RawRow(inv[t])
  }

  /** Inner loop of the first loop nest of `TF` for one posting list; `maxf`
      is raised to any larger count it meets. */
  method CountRow(listKeys: seq<DocId>, maxIn: nat) returns (row: map<DocId, real>, maxf: nat)
    ensures row == RawRow(listKeys)
    ensures maxIn <= maxf
    ensures forall k :: k in listKeys ==> Count(listKeys, k) <= maxf
    ensures maxf > maxIn ==> exists k :: k in listKeys && Count(listKeys, k) == maxf
  {
    row, maxf := map[], maxIn;
    var j := 0;
    while j < |listKeys|
      invariant 0 <= j <= |listKeys|
      invariant maxIn <= maxf
      invariant row.Keys == Elements(listKeys[..j])
      invariant forall k :: k in row ==> row[k] == Count(listKeys, k) as real
      invariant forall k :: k in listKeys[..j] ==> Count(listKeys, k) <= maxf
      invariant maxf > maxIn ==> exists k :: k in listKeys[..j] && Count(listKeys, k) == maxf
    {
      var key := listKeys[j];
      assert listKeys[..j + 1] == listKeys[..j] + [key];
      var c := Count(listKeys, key);
      row := row[key := c as real];
      if c > maxf {
        maxf := c;
      }
      j := j + 1;
    }
    assert listKeys[..j] == listKeys;
    assert row.Keys == RawRow(listKeys).Keys;
    forall k | k in row ensures row[k] == RawRow(listKeys)[k] {
    }
  }

  /** First loop nest of `TF`: `tf[token][key] = inv_ix[token].count(key)`
      for every key of every posting list, tracking the running `maxf`. */
  method CountTerms(inv: Index) returns (tf: Weights, maxf: nat)
    ensures tf == RawTf(inv)
    ensures IsGlobalMax(inv, maxf)
  {
    tf, maxf := map[], 0;
    var todo := inv.Keys;
    while todo != {}
      invariant todo <= inv.Keys
      invariant tf.Keys == inv.Keys - todo
      invariant forall t :: t in tf ==> tf[t] == RawRow(inv[t])
      invariant forall t, k :: t in tf && k in inv[t] ==> Count(inv[t], k) <= maxf
      invariant maxf > 0 ==> exists t, k :: t in tf && k in inv[t] && Count(inv[t], k) == maxf
      decreases todo
    {
      ghost var w := Pick(todo);
      var token :| token in todo;
      var row, maxf' := CountRow(inv[token], maxf);
      if maxf' > maxf {
        var k :| k in inv[token] && Count(inv[token], k) == maxf';
        assert token in tf[token := row];
      } else if maxf > 0 {
        var t, k :| t in tf && k in inv[t] && Count(inv[t], k) == maxf;
        assert t in tf[token := row];
      }
      tf, maxf := tf[token := row], maxf';
      todo := todo - {token};
    }
  }

  /** Every entry of a table divided by m. */
  function Scaled(raw: Weights, m: nat): (tf: Weights)
    requires forall t, k :: t in raw && k in raw[t] ==> m > 0
  {
    map t | t in raw :: map k | k in raw[t] :: raw[t][k] / m as real
  }

  /** Second loop nest of `TF`: `tf[token][key] /= maxf` for every entry; with
      no entry at all nothing is divided. */
  method Normalize(raw: Weights, maxf: nat) returns (tf: Weights)
    requires forall t, k :: t in raw && k in raw[t] ==> maxf > 0
    ensures tf == Scaled(raw, maxf)
  {
    tf := raw;
    var norm := tf.Keys;
    while norm != {}
      invariant norm <= tf.Keys
      invariant tf.Keys == raw.Keys
      invariant forall t :: t in tf ==> tf[t].Keys == raw[t].Keys
      invariant forall t, k :: t in tf && t !in norm && k in tf[t] ==> tf[t][k] == raw[t][k] / maxf as real
      invariant forall t :: t in norm ==> tf[t] == raw[t]
      decreases norm
    {
      ghost var w := Pick(norm);
      var token :| token in norm;
      var row := tf[token];
      var ks := row.Keys;
      while ks != {}
        invariant ks <= row.Keys
        invariant row.Keys == raw[token].Keys
        invariant forall k :: k in row && k !in ks ==> row[k] == raw[token][k] / maxf as real
        invariant forall k :: k in ks ==> row[k] == raw[token][k]
        decreases ks
      {
        ghost var w' := Pick(ks);
        var key :| key in ks;
        row := row[key := row[key] / maxf as real];
        ks := ks - {key};
      }
      tf := tf[token := row];
      norm := norm - {token};
    }
    forall t | t in tf ensures tf[t] == Scaled(raw, maxf)[t] {
      assert tf[t].Keys == Scaled(raw, maxf)[t].Keys;
      forall k | k in tf[t] ensures tf[t][k] == Scaled(raw, maxf)[t][k] {
      }
    }
  }

  lemma ScaledRawTf(inv: Index, m: nat)
    requires forall t, k :: t in inv && k in inv[t] ==> m > 0
    ensures forall t, k :: t in RawTf(inv) && k in RawTf(inv)[t] ==> m > 0
    ensures Scaled(RawTf(inv), m) == Normalized(inv, m)
  {
    var a, b := Scaled(RawTf(inv), m), Normalized(inv, m);
    forall t | t in inv ensures a[t] == b[t] {
      assert a[t].Keys == b[t].Keys;
    }
  }

  /** `TF`: raw counts and `maxf`, then every entry divided by `maxf`. */
  method TF(inv: Index) returns (tf: Weights, maxf: nat)
    ensures maxf == GlobalMax(inv)
    ensures tf == TfOf(inv)
  {
    var raw;
    raw, maxf := CountTerms(inv);
    GlobalMaxUnique(inv, maxf, GlobalMax(inv));
    forall t, k | t in inv && k in inv[t] ensures maxf > 0 {
      assert Count(inv[t], k) > 0;
    }
    ScaledRawTf(inv, maxf);
    tf := Normalize(raw, maxf);
  }

  /** Every normalised frequency lies in (0, 1], and it is 1 exactly for the
      pairs whose raw count is the global maximum. */
  lemma TfBounds(inv: Index, t: Token, k: DocId)
    requires t in inv && k in inv[t]
    ensures t in TfOf(inv) && k in TfOf(inv)[t]
    ensures 0.0 < TfOf(inv)[t][k] <= 1.0
    ensures TfOf(inv)[t][k] == 1.0 <==> Count(inv[t], k) == GlobalMax(inv)
  {
    var m := GlobalMax(inv);
    NormalizedBounds(inv, m, t, k);
  }

  lemma NormalizedBounds(inv: Index, m: nat, t: Token, k: DocId)
    requires IsGlobalMax(inv, m)
    requires t in inv && k in inv[t]
    ensures forall t, k :: t in inv && k in inv[t] ==> m > 0
    ensures t in Normalized(inv, m) && k in Normalized(inv, m)[t]
    ensures 0.0 < Normalized(inv, m)[t][k] <= 1.0
    ensures Normalized(inv, m)[t][k] == 1.0 <==> Count(inv[t], k) == m
  {
    forall t, k | t in inv && k in inv[t] ensures m > 0 {
      assert Count(inv[t], k) > 0;
    }
    var c := Count(inv[t], k);
    assert k in Elements(inv[t]);
    assert Normalized(inv, m)[t][k] == c as real / m as real;
    RatioBounds(c, m);
  }

  lemma RatioBounds(c: nat, m: nat)
    requires 0 < c <= m
    ensures 0.0 < c as real / m as real <= 1.0
    ensures c as real / m as real == 1.0 <==> c == m
  {
    if c as real / m as real == 1.0 {
      assert c as real == (c as real / m as real) * m as real;
    }
  }

  /** An empty index, or one whose posting lists are all empty, has global
      maximum 0 and no frequency at all (no division takes place). */
  lemma TfOfNoPostings(inv: Index)
    requires forall t :: t in inv ==> inv[t] == []
    ensures GlobalMax(inv) == 0
    ensures forall t :: t in TfOf(inv) ==> TfOf(inv)[t] == map[]
  {
    assert IsGlobalMax(inv, 0);
    GlobalMaxUnique(inv, 0, GlobalMax(inv));
  }

  // ---------------------------------------------------------------------------
  // Inverse document frequency.

  datatype Failure = ZeroDivision | MathDomain

  /** Number of distinct ids in a posting list. */
  function Df(keys: seq<DocId>): nat {
    |Elements(keys)|
  }

  /** `IDF` for a term with a non-empty posting list, N documents. */
  function Idf(keys: seq<DocId>, n: nat, log10: real -> real): real
    requires keys != [] && n > 0
  {
    assert keys[0] in Elements(keys);
    log10(n as real / Df(keys) as real)
  }

  ghost function IdfOf(inv: Index, n: nat, log10: real -> real): (idf: map<Token, real>)
    requires forall t :: t in inv ==> inv[t] != [] && n > 0
    ensures idf.Keys == inv.Keys
  {
    map t | t in inv :: Idf(inv[t], n, log10)
  }

  /** `IDF`: an empty posting list divides by zero, and a zero document count
      is outside the domain of log10 (which of the two is raised first
      depends on dictionary order). */
  method IDF(inv: Index, n: nat, log10: real -> real) returns (r: Result<map<Token, real>, Failure>)
    ensures r.Failure? <==> exists t :: t in inv && (inv[t] == [] || n == 0)
    ensures r.Failure? && r.error == ZeroDivision ==> exists t :: t in inv && inv[t] == []
    ensures r.Failure? && r.error == MathDomain ==> n == 0 && exists t :: t in inv && inv[t] != []
    ensures r.Success? ==>
              && (forall t :: t in inv ==> inv[t] != [] && n > 0)
              && r.value == IdfOf(inv, n, log10)
  {
    var idf: map<Token, real> := map[];
    var todo := inv.Keys;
    while todo != {}
      invariant todo <= inv.Keys
      invariant idf.Keys == inv.Keys - todo
      invariant forall t :: t in idf ==> inv[t] != [] && n > 0 && idf[t] == Idf(inv[t], n, log10)
      decreases todo
    {
      ghost var w := Pick(todo);
      var t :| t in todo;
      var keys := inv[t];
      if keys == [] {
        return Failure(ZeroDivision);
      }
      if n == 0 {
        return Failure(MathDomain);
      }
      idf := idf[t := Idf(keys, n, log10)];
      todo := todo - {t};
    }
    return Success(idf);
  }

  /** Every id of a posting list belongs to the collection. */
  lemma PostingInCollection(inv: Index, t: Token)
    requires t in inv
    ensures Elements(inv[t]) <= DocSet(inv)
  {
    forall k | k in Elements(inv[t]) ensures k in DocSet(inv) {
      assert t in inv && k in inv[t];
    }
  }

  lemma DfBound(inv: Index, t: Token)
    requires t in inv && inv[t] != []
    ensures 0 < Df(inv[t]) <= CollectionSize(inv)
  {
    PostingInCollection(inv, t);
    assert inv[t][0] in Elements(inv[t]);
    SubsetCard(Elements(inv[t]), DocSet(inv));
  }

  /** The IDF ratio N / df is at least 1; it is exactly 1, and IDF is
      log10(1) = 0, for a term that occurs in every document. */
  lemma IdfRatio(inv: Index, t: Token, log10: real -> real)
    requires log10(1.0) == 0.0
    requires t in inv && inv[t] != []
    ensures 0 < Df(inv[t]) <= CollectionSize(inv)
    ensures CollectionSize(inv) as real / Df(inv[t]) as real >= 1.0
    ensures CollectionSize(inv) as real / Df(inv[t]) as real == 1.0
        <==> Elements(inv[t]) == DocSet(inv)
    ensures Elements(inv[t]) == DocSet(inv) ==> Idf(inv[t], CollectionSize(inv), log10) == 0.0
  {
    var ids, all := Elements(inv[t]), DocSet(inv);
    PostingInCollection(inv, t);
    DfBound(inv, t);
    var n, df := |all| as real, |ids| as real;
    assert df > 0.0;
    if ids != all {
      SubsetCardStrict(ids, all);
      assert n / df > 1.0;
    }
  }

  lemma SubsetCard<T>(a: set<T>, b: set<T>)
    requires a <= b
    ensures |a| <= |b|
  {
    assert b == a + (b - a);
  }

  lemma SubsetCardStrict<T>(a: set<T>, b: set<T>)
    requires a <= b && a != b
    ensures |a| < |b|
  {
    var x :| x in b && x !in a;
    assert b == a + (b - a);
    assert x in b - a;
  }

  // ---------------------------------------------------------------------------
  // TF * IDF.

  ghost predicate NoEmptyPostings(inv: Index) {
    forall t :: t in inv ==> inv[t] != []
  }

  /** A term with a non-empty posting list makes the collection non-empty. */
  lemma PositiveSize(inv: Index)
    requires NoEmptyPostings(inv)
    ensures forall t :: t in inv ==> inv[t] != [] && CollectionSize(inv) > 0
  {
    forall t | t in inv ensures CollectionSize(inv) > 0 {
      DfBound(inv, t);
    }
  }

  /** `tfidf[token][key] = tf[token][key] * idf[token]`, entry by entry. */
  function Product(tf: Weights, idf: map<Token, real>): (w: Weights)
    requires tf.Keys <= idf.Keys
  {
    map t | t in tf :: map k | k in tf[t] :: tf[t][k] * idf[t]
  }

  /** The matrix `TFIDF` returns when no posting list is empty. */
  ghost function TfIdfOf(inv: Index, log10: real -> real): (w: Weights)
    requires NoEmptyPostings(inv)
  {
    PositiveSize(inv);
    Product(TfOf(inv), IdfOf(inv, CollectionSize(inv), log10))
  }

  /** The product loop nest of `TFIDF`. */
  method Multiply(tf: Weights, idf: map<Token, real>) returns (tfidf: Weights)
    requires tf.Keys <= idf.Keys
    ensures tfidf == Product(tf, idf)
  {
    tfidf := map[];
    var todo := tf.Keys;
    while todo != {}
      invariant todo <= tf.Keys
      invariant tfidf.Keys == tf.Keys - todo
      invariant forall t :: t in tfidf ==> tfidf[t] == Product(tf, idf)[t]
      decreases todo
    {
      ghost var w := Pick(todo);
      var token :| token in todo;
      var row: map<DocId, real> := map[];
      var ks := tf[token].Keys;
      while ks != {}
        invariant ks <= tf[token].Keys
        invariant row.Keys == tf[token].Keys - ks
        invariant forall k :: k in row ==> row[k] == tf[token][k] * idf[token]
        decreases ks
      {
        ghost var w' := Pick(ks);
        var key :| key in ks;
        row := row[key := tf[token][key] * idf[token]];
        ks := ks - {key};
      }
      assert row.Keys == Product(tf, idf)[token].Keys;
      forall k | k in row ensures row[k] == Product(tf, idf)[token][k] {
      }
      assert row == Product(tf, idf)[token];
      tfidf := tfidf[token := row];
      todo := todo - {token};
    }
  }

  /** `TFIDF`: document list, IDF over N = len(doc_list), TF, then the product
      entry by entry. It fails exactly when some posting list is empty, and
      then with a division by zero (N is positive whenever some list is not
      empty, so log10 never sees 0). */
  method TFIDF(inv: Index, log10: real -> real) returns (r: Result<(Weights, seq<DocId>), Failure>)
    ensures r.Failure? <==> !NoEmptyPostings(inv)
    ensures r.Failure? ==> r.error == ZeroDivision
    ensures r.Success? ==> NoEmptyPostings(inv) && r.value.0 == TfIdfOf(inv, log10)
    ensures r.Success? ==> Distinct(r.value.1) && Elements(r.value.1) == DocSet(inv)
  {
    var docList := GetDocList(inv);
    DocListLength(inv, docList);
    var n := |docList|;
    var idfResult := IDF(inv, n, log10);
    if idfResult.Failure? {
      if idfResult.error == MathDomain {
        var t :| t in inv && inv[t] != [];
        DfBound(inv, t);
        assert false;
      }
      return Failure(idfResult.error);
    }
    var idf := idfResult.value;
    var tf, maxf := TF(inv);
    var tfidf := Multiply(tf, idf);
    return Success((tfidf, docList));
  }

  /** A term that occurs in every document has weight 0 in every document,
      however often it occurs. */
  lemma UbiquitousTermWeighsZero(inv: Index, log10: real -> real, t: Token, k: DocId)
    requires log10(1.0) == 0.0
    requires NoEmptyPostings(inv)
    requires t in inv && Elements(inv[t]) == DocSet(inv) && k in inv[t]
    ensures TfIdfOf(inv, log10)[t][k] == 0.0
  {
    IdfRatio(inv, t, log10);
  }

  // ---------------------------------------------------------------------------
  // The transpose written by `write_tfidf`.

  /** `{d : {k: m[k][d] for k in m if d in m[k]} for d in rows}`. */
  function Transpose<A(!new), B(!new)>(m: map<A, map<B, real>>, rows: set<B>): (r: map<B, map<A, real>>)
    ensures r.Keys == rows
    ensures forall d, k :: d in r ==> (k in r[d] <==> k in m && d in m[k])
    ensures forall d, k :: d in r && k in r[d] ==> r[d][k] == m[k][d]
  {
    map d | d in rows :: map k | k in m.Keys && d in m[k] :: m[k][d]
  }

  /** Transposing back over the original keys gives the original matrix, as
      long as every column key is one of the rows. */
  lemma TransposeRoundTrip<A(!new), B(!new)>(m: map<A, map<B, real>>, rows: set<B>)
    requires forall k :: k in m ==> m[k].Keys <= rows
    ensures Transpose(Transpose(m, rows), m.Keys) == m
  {
    var back := Transpose(Transpose(m, rows), m.Keys);
    forall k | k in m ensures back[k] == m[k] {
      assert back[k].Keys == m[k].Keys;
    }
  }

  /** The transpose of the TF-IDF matrix over the document list gives each
      document a row holding exactly the terms whose posting list names it,
      and transposing it back recovers the matrix. */
  lemma TfIdfTranspose(inv: Index, log10: real -> real, docList: seq<DocId>)
    requires NoEmptyPostings(inv)
    requires Elements(docList) == DocSet(inv)
    ensures var rows := Transpose(TfIdfOf(inv, log10), Elements(docList));
      forall d, t :: d in rows ==> (t in rows[d] <==> t in inv && d in inv[t])
    ensures Transpose(Transpose(TfIdfOf(inv, log10), Elements(docList)), inv.Keys) == TfIdfOf(inv, log10)
  {
    var w := TfIdfOf(inv, log10);
    forall t | t in w ensures w[t].Keys <= Elements(docList) {
      forall k | k in w[t] ensures k in DocSet(inv) {
        assert k in inv[t];
      }
    }
    TransposeRoundTrip(w, Elements(docList));
  }
}
