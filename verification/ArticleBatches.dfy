/** Batches of article writes: when all of them succeed, and why their order does not matter. */
module ArticleBatches {
  import opened Schema
  import opened Repository
  import opened RepositoryRuns

  /** The tables after writing the batch in order, when each write succeeds. */
  function WriteAll(db: Db, ws: seq<ArticleWrite>): Db
    decreases |ws|
  {
    if ws == [] then db else ArticleWritten(WriteAll(db, ws[..|ws| - 1]), ws[|ws| - 1])
  }

  /** Every write of the batch succeeds in its turn. */
  ghost predicate AllSucceed(db: Db, ws: seq<ArticleWrite>)
    decreases |ws|
  {
    ws == [] || (&& AllSucceed(db, ws[..|ws| - 1])
                 && CanUpsertArticle(WriteAll(db, ws[..|ws| - 1]), ws[|ws| - 1]))
  }

  /** Two writes do not bind the same article, key or history row differently. */
  ghost predicate Consistent(v: ArticleWrite, w: ArticleWrite) {
    && (v.articleID == w.articleID ==> v.feedID == w.feedID)
    && (AllKeyIDs(v) !! AllKeyIDs(w) || v.articleID == w.articleID)
    && (v.historyID == w.historyID ==> v.articleID == w.articleID && v.feedID == w.feedID)
  }

  ghost predicate PairwiseConsistent(ws: seq<ArticleWrite>) {
    forall i, j :: 0 <= i < j < |ws| ==> Consistent(ws[i], ws[j])
  }

  lemma {:induction false} FeedAfterWrite(db: Db, v: ArticleWrite, w: ArticleWrite)
    requires FeedAvailable(db.articles, db.feeds.Keys, v)
    ensures FeedAvailable(ArticleWritten(db, v).articles, db.feeds.Keys, w) <==>
      FeedAvailable(db.articles, db.feeds.Keys, w) && (v.articleID == w.articleID ==> v.feedID == w.feedID)
  {
  }

  lemma {:induction false} KeysAfterWrite(keys: map<KeyID, ID>, added: set<KeyID>, a: ID, wanted: set<KeyID>, b: ID)
    requires KeysAvailable(keys, added, a)
    ensures KeysAvailable(WithKeys(keys, added, a), wanted, b)
        <==> KeysAvailable(keys, wanted, b) && (added !! wanted || a == b)
  {
    var after := WithKeys(keys, added, a);
    if KeysAvailable(after, wanted, b) {
      forall k | k in added && k in wanted ensures a == b {
        assert k in after && after[k] == a;
      }
      assert forall k :: k in wanted && k in keys ==> k in after && after[k] == keys[k];
    }
  }

  lemma {:induction false} HistoryAfterWrite(db: Db, v: ArticleWrite, w: ArticleWrite)
    requires HistoryAvailable(db.history, v)
    ensures HistoryAvailable(ArticleWritten(db, v).history, w) <==>
      && HistoryAvailable(db.history, w)
      && (v.historyID == w.historyID ==> v.articleID == w.articleID && v.feedID == w.feedID)
  {
  }

  /** What a successful write adds to the conditions of the next is exactly consistency with it. */
  lemma {:induction false} WriteAfterWrite(db: Db, v: ArticleWrite, w: ArticleWrite)
    requires CanUpsertArticle(db, v)
    ensures CanUpsertArticle(ArticleWritten(db, v), w) <==> CanUpsertArticle(db, w) && Consistent(v, w)
  {
    FeedAfterWrite(db, v, w);
    KeysAfterWrite(db.keys, AllKeyIDs(v), v.articleID, AllKeyIDs(w), w.articleID);
    HistoryAfterWrite(db, v, w);
  }

  ghost predicate ConsistentWithAll(ws: seq<ArticleWrite>, w: ArticleWrite) {
    forall i :: 0 <= i < |ws| ==> Consistent(ws[i], w)
  }

  lemma {:induction false} ConsistentWithOneMore(ws: seq<ArticleWrite>, w: ArticleWrite)
    requires ws != []
    ensures ConsistentWithAll(ws, w) <==> ConsistentWithAll(ws[..|ws| - 1], w) && Consistent(ws[|ws| - 1], w)
  {
  }

  lemma {:induction false} WriteAfterBatch(db: Db, ws: seq<ArticleWrite>, w: ArticleWrite)
    requires AllSucceed(db, ws)
    ensures CanUpsertArticle(WriteAll(db, ws), w) <==> CanUpsertArticle(db, w) && ConsistentWithAll(ws, w)
    decreases |ws|
  {
    if ws != [] {
      var front, last := ws[..|ws| - 1], ws[|ws| - 1];
      WriteAfterBatch(db, front, w);
      WriteAfterWrite(WriteAll(db, front), last, w);
      ConsistentWithOneMore(ws, w);
    }
  }

  lemma {:induction false} PairwiseFront(ws: seq<ArticleWrite>)
    requires ws != []
    ensures var front := ws[..|ws| - 1];
      PairwiseConsistent(ws) <==> PairwiseConsistent(front) && ConsistentWithAll(front, ws[|ws| - 1])
  {
    var front, last := ws[..|ws| - 1], ws[|ws| - 1];
    if PairwiseConsistent(front) && ConsistentWithAll(front, last) {
      forall i, j | 0 <= i < j < |ws| ensures Consistent(ws[i], ws[j]) {
        if j < |front| { assert Consistent(front[i], front[j]); } else { assert Consistent(front[i], last); }
      }
    }
    if PairwiseConsistent(ws) {
      forall i, j | 0 <= i < j < |front| ensures Consistent(front[i], front[j]) { assert Consistent(ws[i], ws[j]); }
      forall i | 0 <= i < |front| ensures Consistent(front[i], last) { assert Consistent(ws[i], ws[|ws| - 1]); }
    }
  }

  ghost predicate EachAlone(db: Db, ws: seq<ArticleWrite>) {
    forall w :: w in ws ==> CanUpsertArticle(db, w)
  }

  /**
   A batch succeeds, in the order given, exactly when each write could be made alone and no two
   of them bind something differently. The condition does not mention the order.
   */
  lemma {:induction false} BatchSucceedsExactly(db: Db, ws: seq<ArticleWrite>)
    ensures AllSucceed(db, ws) <==> EachAlone(db, ws) && PairwiseConsistent(ws)
    decreases |ws|
  {
    if ws != [] {
      var front, last := ws[..|ws| - 1], ws[|ws| - 1];
      BatchSucceedsExactly(db, front);
      PairwiseFront(ws);
      if AllSucceed(db, front) {
        WriteAfterBatch(db, front, last);
      }
      assert forall w :: w in ws <==> w in front || w == last;
      assert EachAlone(db, ws) <==> EachAlone(db, front) && CanUpsertArticle(db, last);
    }
  }

  // ---------- The bindings a batch leaves ----------

  ghost predicate Writes(ws: seq<ArticleWrite>, a: ID) {
    exists w :: w in ws && w.articleID == a
  }

  /** First and last retrieval times are the least and greatest over the old row and the writes. */
  ghost predicate TimesExplained(before: map<ID, ArticleRow>, ws: seq<ArticleWrite>, row: ArticleRow, a: ID) {
    && (forall w :: w in ws && w.articleID == a ==> row.firstRetrieved <= w.retrievedAt <= row.lastRetrieved)
    && (a in before ==> row.firstRetrieved <= before[a].firstRetrieved && before[a].lastRetrieved <= row.lastRetrieved)
    && ((a in before && row.firstRetrieved == before[a].firstRetrieved)
        || exists w :: w in ws && w.articleID == a && row.firstRetrieved == w.retrievedAt)
    && ((a in before && row.lastRetrieved == before[a].lastRetrieved)
        || exists w :: w in ws && w.articleID == a && row.lastRetrieved == w.retrievedAt)
  }

  ghost predicate FeedsExplained(before: map<ID, ArticleRow>, ws: seq<ArticleWrite>, after: map<ID, ArticleRow>) {
    && (forall a :: a in after <==> a in before || Writes(ws, a))
    && (forall a :: a in before ==> a in after && after[a].feedID == before[a].feedID)
    && (forall w :: w in ws ==> w.articleID in after && after[w.articleID].feedID == w.feedID)
  }

  ghost predicate ArticlesExplained(before: map<ID, ArticleRow>, ws: seq<ArticleWrite>, after: map<ID, ArticleRow>) {
    && FeedsExplained(before, ws, after)
    && (forall a :: a in after ==> TimesExplained(before, ws, after[a], a))
  }

  ghost predicate KeysExplained(before: map<KeyID, ID>, ws: seq<ArticleWrite>, after: map<KeyID, ID>) {
    && RowsKept(before, after)
    && (forall w, k :: w in ws && k in AllKeyIDs(w) ==> k in after && after[k] == w.articleID)
    && (forall k :: k in after ==> k in before || exists w :: w in ws && k in AllKeyIDs(w))
  }

  ghost predicate HistoryExplained(before: map<ID, HistoryRow>, ws: seq<ArticleWrite>, after: map<ID, HistoryRow>) {
    && RowsKept(before, after)
    && (forall w :: w in ws ==> w.historyID in after && HistoryAvailable(after, w))
    && (forall h :: h in after ==> h in before || exists w :: w in ws && w.historyID == h)
  }

  /** Which articles, keys and history rows there are, whom they belong to, and the article times. */
  ghost predicate BindingsExplained(db: Db, ws: seq<ArticleWrite>, after: Db) {
    && ArticlesExplained(db.articles, ws, after.articles)
    && KeysExplained(db.keys, ws, after.keys)
    && HistoryExplained(db.history, ws, after.history)
  }

  lemma {:induction false} OneArticleExplained(before: map<ID, ArticleRow>, ws: seq<ArticleWrite>,
      mid: Db, w: ArticleWrite)
    requires ArticlesExplained(before, ws, mid.articles) && FeedAvailable(mid.articles, mid.feeds.Keys, w)
    ensures ArticlesExplained(before, ws + [w], mid.articles[w.articleID := WrittenRow(mid, w)])
  {
    var after, more := mid.articles[w.articleID := WrittenRow(mid, w)], ws + [w];
    FeedsOfOneMore(before, ws, mid, w);
    forall a | a in after ensures TimesExplained(before, more, after[a], a) {
      WritesOneMore(ws, w, a);
      if a in mid.articles {
        TimesOfOneMore(before, ws, w, mid.articles[a], after[a], a);
      } else {
        FirstTimes(before, ws, w);
      }
    }
  }

  lemma {:induction false} FeedsOfOneMore(before: map<ID, ArticleRow>, ws: seq<ArticleWrite>, mid: Db, w: ArticleWrite)
    requires FeedsExplained(before, ws, mid.articles) && FeedAvailable(mid.articles, mid.feeds.Keys, w)
    ensures FeedsExplained(before, ws + [w], mid.articles[w.articleID := WrittenRow(mid, w)])
  {
    forall a ensures Writes(ws + [w], a) <==> Writes(ws, a) || a == w.articleID {
      WritesOneMore(ws, w, a);
    }
    assert forall v :: v in ws + [w] ==> v in ws || v == w;
  }

  lemma {:induction false} WritesOneMore(ws: seq<ArticleWrite>, w: ArticleWrite, a: ID)
    ensures Writes(ws + [w], a) <==> Writes(ws, a) || a == w.articleID
  {
    var more := ws + [w];
    assert w in more && forall v :: v in more <==> v in ws || v == w;
  }

  lemma {:induction false} FirstTimes(before: map<ID, ArticleRow>, ws: seq<ArticleWrite>, w: ArticleWrite)
    requires w.articleID !in before && !Writes(ws, w.articleID)
    ensures forall row: ArticleRow :: row.firstRetrieved == row.lastRetrieved == w.retrievedAt ==>
      TimesExplained(before, ws + [w], row, w.articleID)
  {
    var more := ws + [w];
    assert w in more && forall v :: v in more <==> v in ws || v == w;
  }

  lemma {:induction false} TimesOfOneMore(before: map<ID, ArticleRow>, ws: seq<ArticleWrite>, w: ArticleWrite,
      prior: ArticleRow, row: ArticleRow, a: ID)
    requires TimesExplained(before, ws, prior, a)
    requires if w.articleID == a
             then && row.firstRetrieved == Min(prior.firstRetrieved, w.retrievedAt)
                  && row.lastRetrieved == Max(prior.lastRetrieved, w.retrievedAt)
             else row == prior
    ensures TimesExplained(before, ws + [w], row, a)
  {
    var more := ws + [w];
    assert w in more && forall v :: v in more <==> v in ws || v == w;
  }

  lemma {:induction false} OneMoreKeySet(before: map<KeyID, ID>, ws: seq<ArticleWrite>,
      mid: map<KeyID, ID>, w: ArticleWrite)
    requires KeysExplained(before, ws, mid) && KeysAvailable(mid, AllKeyIDs(w), w.articleID)
    ensures KeysExplained(before, ws + [w], WithKeys(mid, AllKeyIDs(w), w.articleID))
  {
    var more := ws + [w];
    assert w in more && forall v :: v in more <==> v in ws || v == w;
  }

  lemma {:induction false} OneMoreHistory(before: map<ID, HistoryRow>, ws: seq<ArticleWrite>, mid: Db, w: ArticleWrite)
    requires HistoryExplained(before, ws, mid.history) && HistoryAvailable(mid.history, w)
    ensures HistoryExplained(before, ws + [w], ArticleWritten(mid, w).history)
  {
    var more := ws + [w];
    assert w in more && forall v :: v in more <==> v in ws || v == w;
  }

  lemma {:induction false} OneWriteExplained(db: Db, ws: seq<ArticleWrite>, mid: Db, w: ArticleWrite)
    requires BindingsExplained(db, ws, mid) && CanUpsertArticle(mid, w)
    ensures BindingsExplained(db, ws + [w], ArticleWritten(mid, w))
  {
    OneArticleExplained(db.articles, ws, mid, w);
    OneMoreKeySet(db.keys, ws, mid.keys, w);
    OneMoreHistory(db.history, ws, mid, w);
  }

  lemma {:induction false} NothingExplained(db: Db)
    ensures BindingsExplained(db, [], db)
  {
  }

  lemma {:induction false} BatchExplained(db: Db, ws: seq<ArticleWrite>)
    requires AllSucceed(db, ws)
    ensures BindingsExplained(db, ws, WriteAll(db, ws))
    decreases |ws|
  {
    if ws == [] {
      NothingExplained(db);
    } else {
      var front, last := ws[..|ws| - 1], ws[|ws| - 1];
      assert ws == front + [last];
      BatchExplained(db, front);
      OneWriteExplained(db, front, WriteAll(db, front), last);
    }
  }

  /** Equal keys, equal history bindings, and articles of the same feeds and retrieval times. */
  ghost predicate SameBindings(a: Db, b: Db) {
    a.keys == b.keys && SameHistory(a.history, b.history) && SameArticles(a.articles, b.articles)
  }

  ghost predicate SameHistory(a: map<ID, HistoryRow>, b: map<ID, HistoryRow>) {
    && a.Keys == b.Keys
    && forall h :: h in a ==> a[h].articleID == b[h].articleID && a[h].feedID == b[h].feedID
  }

  ghost predicate SameArticles(a: map<ID, ArticleRow>, b: map<ID, ArticleRow>) {
    && a.Keys == b.Keys
    && forall id :: id in a ==>
         && a[id].feedID == b[id].feedID
         && a[id].firstRetrieved == b[id].firstRetrieved
         && a[id].lastRetrieved == b[id].lastRetrieved
  }

  lemma {:induction false} KeysExplainedAlike(before: map<KeyID, ID>, ws: seq<ArticleWrite>, vs: seq<ArticleWrite>,
                           a: map<KeyID, ID>, b: map<KeyID, ID>)
    requires KeysExplained(before, ws, a) && KeysExplained(before, vs, b) && forall w :: w in ws <==> w in vs
    ensures a == b
  {
    KeysExplainedThere(before, ws, vs, a, b);
    KeysExplainedThere(before, vs, ws, b, a);
    assert a.Keys == b.Keys;
  }

  lemma {:induction false} KeysExplainedThere(before: map<KeyID, ID>, ws: seq<ArticleWrite>, vs: seq<ArticleWrite>,
                           a: map<KeyID, ID>, b: map<KeyID, ID>)
    requires KeysExplained(before, ws, a) && KeysExplained(before, vs, b) && forall w :: w in ws ==> w in vs
    ensures forall k :: k in a ==> k in b && a[k] == b[k]
  {
    forall k | k in a ensures k in b && a[k] == b[k] {
      if k !in before { var w :| w in ws && k in AllKeyIDs(w); assert w in vs; }
    }
  }

  lemma {:induction false} HistoryExplainedAlike(before: map<ID, HistoryRow>, ws: seq<ArticleWrite>,
      vs: seq<ArticleWrite>, a: map<ID, HistoryRow>, b: map<ID, HistoryRow>)
    requires HistoryExplained(before, ws, a) && HistoryExplained(before, vs, b) && forall w :: w in ws <==> w in vs
    ensures SameHistory(a, b)
  {
    forall h ensures h in a ==> h in b && a[h].articleID == b[h].articleID && a[h].feedID == b[h].feedID {
      if h in a && h !in before { var w :| w in ws && w.historyID == h; assert w in vs; }
    }
    forall h ensures h in b ==> h in a {
      if h in b && h !in before { var w :| w in vs && w.historyID == h; assert w in ws; }
    }
  }

  lemma {:induction false} ArticlesExplainedAlike(before: map<ID, ArticleRow>, ws: seq<ArticleWrite>,
      vs: seq<ArticleWrite>, a: map<ID, ArticleRow>, b: map<ID, ArticleRow>)
    requires ArticlesExplained(before, ws, a) && ArticlesExplained(before, vs, b) && forall w :: w in ws <==> w in vs
    ensures SameArticles(a, b)
  {
    assert forall id :: Writes(ws, id) <==> Writes(vs, id);
    forall id | id in a
      ensures id in b && a[id].feedID == b[id].feedID
      ensures a[id].firstRetrieved == b[id].firstRetrieved && a[id].lastRetrieved == b[id].lastRetrieved
    {
      assert TimesExplained(before, ws, a[id], id) && TimesExplained(before, vs, b[id], id);
      if id !in before { var w :| w in ws && w.articleID == id; assert w in vs; }
    }
    assert a.Keys == b.Keys;
  }

  /**
   Any reordering of a batch of pairwise consistent writes that could each be made alone succeeds
   too and leaves the same bindings, with first and last retrieval times the least and greatest
   over what was there and all writes to that article.
   */
  lemma {:induction false} OrderDoesNotMatter(db: Db, ws: seq<ArticleWrite>, vs: seq<ArticleWrite>)
    requires multiset(ws) == multiset(vs) && EachAlone(db, ws) && PairwiseConsistent(ws)
    ensures AllSucceed(db, ws) && AllSucceed(db, vs)
    ensures SameBindings(WriteAll(db, ws), WriteAll(db, vs))
    ensures BindingsExplained(db, vs, WriteAll(db, vs))
  {
    SameElements(ws, vs);
    PermutedStaysConsistent(ws, vs);
    BatchSucceedsExactly(db, ws);
    BatchSucceedsExactly(db, vs);
    BatchExplained(db, ws);
    BatchExplained(db, vs);
    var a, b := WriteAll(db, ws), WriteAll(db, vs);
    KeysExplainedAlike(db.keys, ws, vs, a.keys, b.keys);
    HistoryExplainedAlike(db.history, ws, vs, a.history, b.history);
    ArticlesExplainedAlike(db.articles, ws, vs, a.articles, b.articles);
  }

  lemma {:induction false} SameElements(ws: seq<ArticleWrite>, vs: seq<ArticleWrite>)
    requires multiset(ws) == multiset(vs)
    ensures forall w :: w in ws <==> w in vs
  {
    forall w ensures w in ws <==> w in vs {
      assert w in ws <==> w in multiset(ws);
      assert w in vs <==> w in multiset(vs);
    }
  }

  lemma {:induction false} ConsistencyIsSymmetricAndReflexive(v: ArticleWrite, w: ArticleWrite)
    ensures Consistent(v, v)
    ensures Consistent(v, w) <==> Consistent(w, v)
  {
  }

  lemma {:induction false} PermutedStaysConsistent(ws: seq<ArticleWrite>, vs: seq<ArticleWrite>)
    requires PairwiseConsistent(ws) && forall w :: w in vs ==> w in ws
    ensures PairwiseConsistent(vs)
  {
    forall i, j | 0 <= i < j < |vs| ensures Consistent(vs[i], vs[j]) {
      assert vs[i] in ws && vs[j] in ws;
      var x :| 0 <= x < |ws| && ws[x] == vs[i];
      var y :| 0 <= y < |ws| && ws[y] == vs[j];
      ConsistencyIsSymmetricAndReflexive(ws[x], ws[y]);
      if x < y { assert Consistent(ws[x], ws[y]); }
      if y < x { assert Consistent(ws[y], ws[x]); }
    }
  }

  function AsWrites(ws: seq<ArticleWrite>): seq<Write> {
    seq(|ws|, i requires 0 <= i < |ws| => Article(ws[i]))
  }

  lemma {:induction false} AsWritesFront(ws: seq<ArticleWrite>)
    requires ws != []
    ensures AsWrites(ws)[..|ws| - 1] == AsWrites(ws[..|ws| - 1]) && AsWrites(ws)[|ws| - 1] == Article(ws[|ws| - 1])
  {
  }

  lemma {:induction false} RunOneMore(db: Db, ops: seq<Write>, mid: Db, w: ArticleWrite)
    requires ops != [] && Run(db, ops[..|ops| - 1]) == mid && ops[|ops| - 1] == Article(w) && CanUpsertArticle(mid, w)
    ensures Run(db, ops) == ArticleWritten(mid, w)
  {
  }

  /** A batch that succeeds is a run of the repository. */
  lemma {:induction false} BatchIsRun(db: Db, ws: seq<ArticleWrite>)
    requires AllSucceed(db, ws)
    ensures Run(db, AsWrites(ws)) == WriteAll(db, ws)
    decreases |ws|
  {
    if ws != [] {
      var mid := WriteAll(db, ws[..|ws| - 1]);
      BatchIsRun(db, ws[..|ws| - 1]);
      AsWritesFront(ws);
      RunOneMore(db, AsWrites(ws), mid, ws[|ws| - 1]);
    }
  }

  // ---------- Which write is stored ----------

  /** Article rows that the batch does not write are as they were. */
  lemma {:induction false} UnwrittenUnchanged(db: Db, ws: seq<ArticleWrite>, a: ID)
    requires AllSucceed(db, ws) && forall i :: 0 <= i < |ws| ==> ws[i].articleID != a
    ensures a in WriteAll(db, ws).articles <==> a in db.articles
    ensures a in db.articles ==> WriteAll(db, ws).articles[a] == db.articles[a]
    decreases |ws|
  {
    if ws != [] {
      UnwrittenUnchanged(db, ws[..|ws| - 1], a);
    }
  }

  /** What is stored of an article is the content of the last write to it, whole. */
  lemma {:induction false} LastContentStored(db: Db, ws: seq<ArticleWrite>, i: nat)
    requires AllSucceed(db, ws) && i < |ws|
    requires forall j :: i < j < |ws| ==> ws[j].articleID != ws[i].articleID
    ensures var rows := WriteAll(db, ws).articles;
      && ws[i].articleID in rows
      && rows[ws[i].articleID].content == ws[i].content
      && rows[ws[i].articleID].retentionEligibleAt == ws[i].retentionEligibleAt
    decreases |ws|
  {
    var front, last := ws[..|ws| - 1], ws[|ws| - 1];
    if i < |ws| - 1 {
      LastContentStored(db, front, i);
      assert last.articleID != ws[i].articleID;
    }
    WrittenIsStored(WriteAll(db, front), last);
  }

  /** Source history, on the contrary, keeps the first write under each id. */
  lemma {:induction false} FirstHistoryStored(db: Db, ws: seq<ArticleWrite>, i: nat)
    requires AllSucceed(db, ws) && i < |ws| && ws[i].historyID !in db.history
    requires forall j :: 0 <= j < i ==> ws[j].historyID != ws[i].historyID
    ensures var rows := WriteAll(db, ws).history;
      && ws[i].historyID in rows
      && rows[ws[i].historyID]
         == HistoryRow(ws[i].articleID, ws[i].feedID, ws[i].retrievedAt, ws[i].content.provenance)
    decreases |ws|
  {
    var front, last := ws[..|ws| - 1], ws[|ws| - 1];
    if i < |ws| - 1 {
      FirstHistoryStored(db, front, i);
    } else {
      HistoryNotYet(db, front, last.historyID);
    }
    WrittenIsStored(WriteAll(db, front), last);
  }

  lemma {:induction false} HistoryNotYet(db: Db, ws: seq<ArticleWrite>, h: ID)
    requires AllSucceed(db, ws) && h !in db.history && forall i :: 0 <= i < |ws| ==> ws[i].historyID != h
    ensures h !in WriteAll(db, ws).history
    decreases |ws|
  {
    if ws != [] {
      HistoryNotYet(db, ws[..|ws| - 1], h);
    }
  }
}
