/** Inverted-index construction (inverted_index.py, `inverted_index_minion`).
    Token lists and document keys are paired by position; for every token
    occurrence the document key is appended to that token's posting list. */
module InvertedIndex {
  import opened Collections

  type Token = string
  type DocId = int
  type QueryId = string

  /** term -> posting list; one entry per occurrence, repeats are meaningful. */
  type Index = map<Token, seq<DocId>>

  /** One document's token list together with its key. */
  datatype Paired = Paired(doc: seq<Token>, key: DocId)

  /** Python's `zip(docs, docs_keys)`: pairs by position, as long as the shorter list. */
  function Zip(docs: seq<seq<Token>>, keys: seq<DocId>): (pairs: seq<Paired>)
    ensures |pairs| == if |docs| <= |keys| then |docs| else |keys|
    ensures forall i :: 0 <= i < |pairs| ==> pairs[i] == Paired(docs[i], keys[i])
  {
    var n := if |docs| <= |keys| then |docs| else |keys|;
    seq(n, i requires 0 <= i < n => Paired(docs[i], keys[i]))
  }

  /** All token occurrences of the paired documents, document after document. */
  function AllTokens(pairs: seq<Paired>): seq<Token> {
    if pairs == [] then []
    else AllTokens(pairs[..|pairs| - 1]) + pairs[|pairs| - 1].doc
  }

  /** The tokens that occur in at least one paired document. */
  function Vocabulary(pairs: seq<Paired>): set<Token> {
    set i, t | 0 <= i < |pairs| && t in pairs[i].doc :: t
  }

  /** Reference posting list of t: each paired document in turn contributes its
      key once per occurrence of t. */
  function Postings(pairs: seq<Paired>, t: Token): seq<DocId> {
    if pairs == [] then []
    else
      var last := pairs[|pairs| - 1];
      Postings(pairs[..|pairs| - 1], t) + Repeat(last.key, Count(last.doc, t))
  }

  /** The index the builder must produce. */
  function IndexOf(pairs: seq<Paired>): Index {
    map t | t in Vocabulary(pairs) :: Postings(pairs, t)
  }

  lemma VocabularySnoc(pairs: seq<Paired>, x: Paired)
    ensures Vocabulary(pairs + [x]) == Vocabulary(pairs) + Elements(x.doc)
  {
    var p := pairs + [x];
    forall t | t in Vocabulary(p) ensures t in Vocabulary(pairs) + Elements(x.doc) {
      var i :| 0 <= i < |p| && t in p[i].doc;
      if i < |pairs| { assert t in pairs[i].doc; }
    }
    forall t | t in Vocabulary(pairs) ensures t in Vocabulary(p) {
      var i :| 0 <= i < |pairs| && t in pairs[i].doc;
      assert p[i] == pairs[i];
    }
    forall t | t in Elements(x.doc) ensures t in Vocabulary(p) {
      assert p[|pairs|] == x;
    }
  }

  /** A token has a non-empty posting list exactly when it occurs somewhere. */
  lemma {:induction false} PostingsNonEmpty(pairs: seq<Paired>, t: Token)
    ensures Postings(pairs, t) != [] <==> t in Vocabulary(pairs)
  {
    if pairs != [] {
      var init, last := pairs[..|pairs| - 1], pairs[|pairs| - 1];
      assert pairs == init + [last];
      PostingsNonEmpty(init, t);
      VocabularySnoc(init, last);
    }
  }

  lemma PostingsSnoc(pairs: seq<Paired>, x: Paired, t: Token)
    ensures Postings(pairs + [x], t) == Postings(pairs, t) + Repeat(x.key, Count(x.doc, t))
  {
    assert (pairs + [x])[..|pairs|] == pairs;
  }

  /** Once a whole document has been added, the index is that of the longer prefix. */
  lemma IndexAfterDocument(done: seq<Paired>, x: Paired, inv: Index)
    requires forall t :: t in inv <==> t in Vocabulary(done) || t in x.doc
    requires forall t :: t in inv ==> inv[t] == Postings(done, t) + Repeat(x.key, Count(x.doc, t))
    ensures inv == IndexOf(done + [x])
  {
    VocabularySnoc(done, x);
    forall t | t in inv ensures inv[t] == Postings(done + [x], t) {
      PostingsSnoc(done, x, t);
    }
  }

  /** Appending one occurrence of `token` for `key` keeps the inner-loop view. */
  lemma AddOccurrence(done: seq<Paired>, seen: seq<Token>, token: Token, key: DocId, inv: Index)
    requires forall t :: t in inv <==> t in Vocabulary(done) || t in seen
    requires forall t :: t in inv ==> inv[t] == Postings(done, t) + Repeat(key, Count(seen, t))
    ensures var inv' := if token in inv then inv[token := inv[token] + [key]] else inv[token := [key]];
      && (forall t :: t in inv' <==> t in Vocabulary(done) || t in seen + [token])
      && (forall t :: t in inv' ==> inv'[t] == Postings(done, t) + Repeat(key, Count(seen + [token], t)))
  {
    var inv' := if token in inv then inv[token := inv[token] + [key]] else inv[token := [key]];
    forall t | t in inv'
      ensures inv'[t] == Postings(done, t) + Repeat(key, Count(seen + [token], t))
    {
      CountAppend(seen, [token], t);
      if t == token {
        var n := Count(seen, token);
        if token !in inv {
          PostingsNonEmpty(done, token);
          assert n == 0;
        }
        assert Repeat(key, n) + [key] == Repeat(key, n + 1);
      }
    }
  }

  lemma AllTokensSnoc(pairs: seq<Paired>, x: Paired)
    ensures AllTokens(pairs + [x]) == AllTokens(pairs) + x.doc
  {
    assert (pairs + [x])[..|pairs|] == pairs;
  }

  /** `inverted_index_minion`: returns the index and the final value of the
      occurrence counter `i`. */
  method BuildIndex(docs: seq<seq<Token>>, keys: seq<DocId>) returns (inv: Index, i: nat)
    ensures inv == IndexOf(Zip(docs, keys))
    ensures i == |AllTokens(Zip(docs, keys))|
  {
    ghost var pairs := Zip(docs, keys);
    inv, i := map[], 0;
    var p := 0;
    while p < |docs| && p < |keys|
      invariant 0 <= p <= |pairs|
      invariant inv == IndexOf(pairs[..p])
      invariant i == |AllTokens(pairs[..p])|
    {
      var doc, key := docs[p], keys[p];
      ghost var done := pairs[..p];
      var j := 0;
      while j < |doc|
        invariant 0 <= j <= |doc|
        invariant forall t :: t in inv <==> t in Vocabulary(done) || t in doc[..j]
        invariant forall t :: t in inv ==> inv[t] == Postings(done, t) + Repeat(key, Count(doc[..j], t))
        invariant i == |AllTokens(done)| + j
      {
        var token := doc[j];
        AddOccurrence(done, doc[..j], token, key, inv);
        assert doc[..j + 1] == doc[..j] + [token];
        if token in inv {
          inv := inv[token := inv[token] + [key]];
        } else {
          inv := inv[token := [key]];
        }
        i := i + 1;
        j := j + 1;
      }
      assert doc[..j] == doc;
      IndexAfterDocument(done, Paired(doc, key), inv);
      AllTokensSnoc(done, Paired(doc, key));
      assert pairs[..p + 1] == done + [Paired(doc, key)];
      p := p + 1;
    }
    assert pairs[..p] == pairs;
  }

  // ---------------------------------------------------------------------------
  // Properties of the index the builder produces.

  /** The index's keys are exactly the tokens that occur in a paired document. */
  lemma IndexKeys(docs: seq<seq<Token>>, keys: seq<DocId>, t: Token)
    ensures t in IndexOf(Zip(docs, keys))
        <==> exists i :: 0 <= i < |docs| && i < |keys| && t in docs[i]
  {
    var pairs := Zip(docs, keys);
    if t in IndexOf(pairs) {
      var i :| 0 <= i < |pairs| && t in pairs[i].doc;
      assert t in docs[i];
    }
    if exists i :: 0 <= i < |docs| && i < |keys| && t in docs[i] {
      var i :| 0 <= i < |docs| && i < |keys| && t in docs[i];
      assert t in pairs[i].doc;
    }
  }

  /** A posting list is as long as the number of occurrences of its token. */
  lemma {:induction false} PostingLength(pairs: seq<Paired>, t: Token)
    ensures |Postings(pairs, t)| == Count(AllTokens(pairs), t)
  {
    if pairs != [] {
      var init, last := pairs[..|pairs| - 1], pairs[|pairs| - 1];
      PostingLength(init, t);
      CountAppend(AllTokens(init), last.doc, t);
    }
  }

  /** No pair carries key k: k is in no posting list. */
  lemma {:induction false} PostingsForeignKey(pairs: seq<Paired>, t: Token, k: DocId)
    requires forall i :: 0 <= i < |pairs| ==> pairs[i].key != k
    ensures Count(Postings(pairs, t), k) == 0
  {
    if pairs != [] {
      var init, last := pairs[..|pairs| - 1], pairs[|pairs| - 1];
      PostingsForeignKey(init, t, k);
      CountAppend(Postings(init, t), Repeat(last.key, Count(last.doc, t)), k);
      RepeatCount(last.key, Count(last.doc, t), k);
    }
  }

  /** With distinct keys, a document's key occurs in a posting list exactly as
      often as the token occurs in that document. */
  lemma {:induction false} PostingsCountAt(pairs: seq<Paired>, t: Token, j: nat)
    requires forall a, b :: 0 <= a < b < |pairs| ==> pairs[a].key != pairs[b].key
    requires j < |pairs|
    ensures Count(Postings(pairs, t), pairs[j].key) == Count(pairs[j].doc, t)
  {
    var init, last := pairs[..|pairs| - 1], pairs[|pairs| - 1];
    var k := pairs[j].key;
    CountAppend(Postings(init, t), Repeat(last.key, Count(last.doc, t)), k);
    RepeatCount(last.key, Count(last.doc, t), k);
    if j == |pairs| - 1 {
      PostingsForeignKey(init, t, k);
    } else {
      PostingsCountAt(init, t, j);
    }
  }

  /** The same property stated on the builder's inputs. */
  lemma DocumentFrequency(docs: seq<seq<Token>>, keys: seq<DocId>, t: Token, j: nat)
    requires Distinct(keys)
    requires j < |docs| && j < |keys|
    ensures Count(Postings(Zip(docs, keys), t), keys[j]) == Count(docs[j], t)
  {
    PostingsCountAt(Zip(docs, keys), t, j);
  }

  /** Posting lists only grow at the end: the index of a prefix of the
      documents has, for each of its tokens, a prefix of the final posting list. */
  lemma {:induction false} PostingsAppendOnly(pairs: seq<Paired>, j: nat, t: Token)
    requires j <= |pairs|
    ensures Postings(pairs[..j], t) <= Postings(pairs, t)
    decreases |pairs| - j
  {
    if j < |pairs| {
      var next := pairs[..j + 1];
      assert next[..j] == pairs[..j];
      PostingsSnoc(pairs[..j], pairs[j], t);
      assert next == pairs[..j] + [pairs[j]];
      PostingsAppendOnly(pairs, j + 1, t);
    } else {
      assert pairs[..j] == pairs;
    }
  }

  lemma IndexGrowsByAppending(pairs: seq<Paired>, j: nat, t: Token)
    requires j <= |pairs|
    requires t in IndexOf(pairs[..j])
    ensures t in IndexOf(pairs) && IndexOf(pairs[..j])[t] <= IndexOf(pairs)[t]
  {
    PostingsAppendOnly(pairs, j, t);
    PostingsNonEmpty(pairs[..j], t);
    PostingsNonEmpty(pairs, t);
  }

  /** Entries beyond the shorter of the two lists contribute nothing. */
  lemma ZipIgnoresSurplus(docs: seq<seq<Token>>, keys: seq<DocId>,
                          moreDocs: seq<seq<Token>>, moreKeys: seq<DocId>)
    requires |docs| == |keys|
    ensures IndexOf(Zip(docs + moreDocs, keys)) == IndexOf(Zip(docs, keys))
    ensures IndexOf(Zip(docs, keys + moreKeys)) == IndexOf(Zip(docs, keys))
  {
    assert Zip(docs + moreDocs, keys) == Zip(docs, keys);
    assert Zip(docs, keys + moreKeys) == Zip(docs, keys);
  }

  /** No documents, or only empty ones, give the empty index. */
  lemma EmptyIndex(docs: seq<seq<Token>>, keys: seq<DocId>)
    requires forall i :: 0 <= i < |docs| && i < |keys| ==> docs[i] == []
    ensures IndexOf(Zip(docs, keys)) == map[]
  {
    assert Vocabulary(Zip(docs, keys)) == {};
  }

  /** Sum of the posting-list lengths of the tokens ts. */
  function SumLengths(inv: Index, ts: seq<Token>): nat
    requires forall t :: t in ts ==> t in inv
  {
    if ts == [] then 0 else SumLengths(inv, ts[..|ts| - 1]) + |inv[ts[|ts| - 1]]|
  }

  /** Sum over the tokens ts of the occurrence counts of each in s. */
  function SumCounts(ts: seq<Token>, s: seq<Token>): nat {
    if ts == [] then 0 else SumCounts(ts[..|ts| - 1], s) + Count(s, ts[|ts| - 1])
  }

  lemma {:induction false} SumCountsSnoc(ts: seq<Token>, s: seq<Token>, x: Token)
    ensures SumCounts(ts, s + [x]) == SumCounts(ts, s) + Count(ts, x)
  {
    if ts != [] {
      SumCountsSnoc(ts[..|ts| - 1], s, x);
      CountAppend(s, [x], ts[|ts| - 1]);
    }
  }

  lemma {:induction false} CountDistinct<T>(s: seq<T>, x: T)
    requires Distinct(s) && x in s
    ensures Count(s, x) == 1
  {
    var init := s[..|s| - 1];
    if s[|s| - 1] == x {
      assert x !in init;
    } else {
      assert x in init;
      CountDistinct(init, x);
    }
  }

  /** Every occurrence in s is counted once when ts lists each token once. */
  lemma {:induction false} SumCountsCoversAll(ts: seq<Token>, s: seq<Token>)
    requires Distinct(ts)
    requires forall x :: x in s ==> x in ts
    ensures SumCounts(ts, s) == |s|
  {
    if s == [] {
      SumCountsEmpty(ts);
    } else {
      var init, x := s[..|s| - 1], s[|s| - 1];
      assert s == init + [x];
      SumCountsCoversAll(ts, init);
      SumCountsSnoc(ts, init, x);
      CountDistinct(ts, x);
    }
  }

  lemma {:induction false} SumCountsEmpty(ts: seq<Token>)
    ensures SumCounts(ts, []) == 0
  {
    if ts != [] { SumCountsEmpty(ts[..|ts| - 1]); }
  }

  lemma {:induction false} SumLengthsIsSumCounts(pairs: seq<Paired>, ts: seq<Token>)
    requires forall t :: t in ts ==> t in Vocabulary(pairs)
    ensures SumLengths(IndexOf(pairs), ts) == SumCounts(ts, AllTokens(pairs))
  {
    if ts != [] {
      SumLengthsIsSumCounts(pairs, ts[..|ts| - 1]);
      PostingLength(pairs, ts[|ts| - 1]);
    }
  }

  /** The builder's counter `i` ends equal to the sum of all posting-list
      lengths, for any enumeration ts of the index's keys. */
  lemma CounterIsTotalLength(docs: seq<seq<Token>>, keys: seq<DocId>, ts: seq<Token>)
    requires Distinct(ts)
    requires Elements(ts) == IndexOf(Zip(docs, keys)).Keys
    ensures SumLengths(IndexOf(Zip(docs, keys)), ts) == |AllTokens(Zip(docs, keys))|
  {
    var pairs := Zip(docs, keys);
    assert forall t :: t in ts ==> t in Vocabulary(pairs) by {
      forall t | t in ts ensures t in Vocabulary(pairs) { assert t in Elements(ts); }
    }
    SumLengthsIsSumCounts(pairs, ts);
    forall x | x in AllTokens(pairs) ensures x in ts {
      AllTokensInVocabulary(pairs, x);
      assert x in Elements(ts);
    }
    SumCountsCoversAll(ts, AllTokens(pairs));
  }

  lemma {:induction false} AllTokensInVocabulary(pairs: seq<Paired>, x: Token)
    requires x in AllTokens(pairs)
    ensures x in Vocabulary(pairs)
  {
    var init, last := pairs[..|pairs| - 1], pairs[|pairs| - 1];
    assert pairs == init + [last];
    VocabularySnoc(init, last);
    if x !in last.doc {
      AllTokensInVocabulary(init, x);
    }
  }
}
