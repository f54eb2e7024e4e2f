/** What every run of repository writes keeps. */
module RepositoryRuns {
  import opened Text
  import opened Schema
  import opened Repository

  ghost function Run(db: Db, ops: seq<Write>): Db
    decreases |ops|
  {
    if ops == [] then db else Step(Run(db, ops[..|ops| - 1]), ops[|ops| - 1])
  }

  // ---------- Integrity, table by table ----------

  ghost predicate UsersOk(users: map<ID, UserRow>) {
    forall u, v :: u in users && v in users && users[u].subject == users[v].subject ==> u == v
  }

  ghost predicate FeedsOk(feeds: map<ID, FeedRow>) {
    && (forall f, g ::
          f in feeds && g in feeds && feeds[f].details.normalizedURL == feeds[g].details.normalizedURL ==> f == g)
    && (forall f :: f in feeds ==> feeds[f].firstSeen <= feeds[f].lastSeen)
  }

  ghost predicate SubscriptionsOk(subscriptions: map<ID, SubscriptionRow>, users: set<ID>, feeds: set<ID>) {
    && (forall s :: s in subscriptions ==> subscriptions[s].userID in users && subscriptions[s].feedID in feeds)
    && (forall s, t ::
          s in subscriptions && t in subscriptions && Pair(subscriptions[s]) == Pair(subscriptions[t]) ==> s == t)
  }

  ghost predicate ArticlesOk(articles: map<ID, ArticleRow>, feeds: set<ID>) {
    forall a :: a in articles ==>
      && articles[a].feedID in feeds
      && articles[a].firstRetrieved <= articles[a].lastRetrieved
      && FingerprintOk(articles[a].content.provenance.fingerprint)
  }

  ghost predicate KeysOk(keys: map<KeyID, ID>, articles: map<ID, ArticleRow>) {
    forall k :: k in keys ==> NamesArticle(articles, keys[k], k.feedID) && k.keyType in KEY_TYPES && !Blank(k.value)
  }

  ghost predicate HistoryOk(history: map<ID, HistoryRow>, articles: map<ID, ArticleRow>) {
    forall h :: h in history ==> NamesArticle(articles, history[h].articleID, history[h].feedID)
  }

  ghost predicate StatesOk(states: map<StateID, StateRow>, users: set<ID>, articles: set<ID>) {
    forall k :: k in states ==> k.userID in users && k.articleID in articles && PositionOk(states[k].position)
  }

  ghost predicate Integrity(db: Db) {
    && UsersOk(db.users) && FeedsOk(db.feeds)
    && SubscriptionsOk(db.subscriptions, db.users.Keys, db.feeds.Keys)
    && ArticlesOk(db.articles, db.feeds.Keys)
    && KeysOk(db.keys, db.articles) && HistoryOk(db.history, db.articles)
    && StatesOk(db.states, db.users.Keys, db.articles.Keys)
  }

  // ---------- Write-once bindings, table by table ----------

  ghost predicate UsersKept(before: map<ID, UserRow>, after: map<ID, UserRow>) {
    forall u :: u in before ==> u in after && after[u].subject == before[u].subject
  }

  ghost predicate FeedsKept(before: map<ID, FeedRow>, after: map<ID, FeedRow>) {
    forall f :: f in before ==>
      f in after && after[f].firstSeen <= before[f].firstSeen && before[f].lastSeen <= after[f].lastSeen
  }

  ghost predicate SubscriptionsKept(before: map<ID, SubscriptionRow>, after: map<ID, SubscriptionRow>) {
    forall s :: s in before ==>
      s in after && Pair(after[s]) == Pair(before[s]) && after[s].createdAt == before[s].createdAt
  }

  ghost predicate ArticlesKept(before: map<ID, ArticleRow>, after: map<ID, ArticleRow>) {
    forall a :: a in before ==>
      && a in after && after[a].feedID == before[a].feedID
      && after[a].firstRetrieved <= before[a].firstRetrieved
      && before[a].lastRetrieved <= after[a].lastRetrieved
  }

  ghost predicate RowsKept<K, V>(before: map<K, V>, after: map<K, V>) {
    forall k :: k in before ==> k in after && after[k] == before[k]
  }

  /**
   Nothing is unbound or bound anew: user to subject, subscription to user and feed, article to
   feed, key to article, and whole history rows. First times only move back, last times forward.
   */
  ghost predicate BindingsKept(before: Db, after: Db) {
    && UsersKept(before.users, after.users)
    && FeedsKept(before.feeds, after.feeds)
    && SubscriptionsKept(before.subscriptions, after.subscriptions)
    && ArticlesKept(before.articles, after.articles)
    && RowsKept(before.keys, after.keys)
    && RowsKept(before.history, after.history)
    && before.states.Keys <= after.states.Keys
  }

  // ---------- Each write keeps both ----------

  /** Rows that point at users, feeds and articles still do when more of those exist. */
  lemma {:induction false} MoreToPointAt(db: Db, users: set<ID>, feeds: set<ID>, articles: set<ID>)
    requires Integrity(db) && db.users.Keys <= users && db.feeds.Keys <= feeds && db.articles.Keys <= articles
    ensures SubscriptionsOk(db.subscriptions, users, feeds)
    ensures ArticlesOk(db.articles, feeds)
    ensures StatesOk(db.states, users, articles)
  {
  }

  lemma {:induction false} NothingWritten(db: Db)
    ensures BindingsKept(db, db)
  {
  }

  lemma {:induction false} ArticleRowKeeps(db: Db, w: ArticleWrite)
    requires ArticlesOk(db.articles, db.feeds.Keys) && FingerprintOk(w.content.provenance.fingerprint)
    requires FeedAvailable(db.articles, db.feeds.Keys, w)
    ensures var after := db.articles[w.articleID := WrittenRow(db, w)];
      && ArticlesOk(after, db.feeds.Keys) && ArticlesKept(db.articles, after)
      && NamesArticle(after, w.articleID, w.feedID)
  {
  }

  lemma {:induction false} KeyRowsKeep(db: Db, w: ArticleWrite, articles: map<ID, ArticleRow>)
    requires KeysOk(db.keys, db.articles) && ArticlesKept(db.articles, articles)
    requires NamesArticle(articles, w.articleID, w.feedID)
    requires forall key :: key in w.identityKeys ==> ValidKey(key)
    ensures KeysOk(WithKeys(db.keys, AllKeyIDs(w), w.articleID), articles)
    ensures RowsKept(db.keys, WithKeys(db.keys, AllKeyIDs(w), w.articleID))
  {
    var after := WithKeys(db.keys, AllKeyIDs(w), w.articleID);
    forall k | k in after
      ensures NamesArticle(articles, after[k], k.feedID) && k.keyType in KEY_TYPES && !Blank(k.value)
    {
      if k !in db.keys {
        var i :| 0 <= i < |w.identityKeys| && k == KeyOf(w, w.identityKeys[i]);
        assert w.identityKeys[i] in w.identityKeys;
      }
    }
  }

  lemma {:induction false} HistoryRowKeeps(db: Db, w: ArticleWrite, articles: map<ID, ArticleRow>)
    requires HistoryOk(db.history, db.articles) && ArticlesKept(db.articles, articles)
    requires NamesArticle(articles, w.articleID, w.feedID)
    ensures HistoryOk(db.history, articles) && HistoryOk(db.history[w.historyID := WrittenHistory(w)], articles)
  {
  }

  lemma {:induction false} ArticleWriteKeepsTables(db: Db, w: ArticleWrite)
    requires Integrity(db) && CanUpsertArticle(db, w)
    ensures var after := ArticleWritten(db, w);
      && ArticlesOk(after.articles, db.feeds.Keys) && ArticlesKept(db.articles, after.articles)
      && KeysOk(after.keys, after.articles) && RowsKept(db.keys, after.keys)
      && HistoryOk(after.history, after.articles) && RowsKept(db.history, after.history)
  {
    var articles := db.articles[w.articleID := WrittenRow(db, w)];
    ArticleRowKeeps(db, w);
    KeyRowsKeep(db, w, articles);
    HistoryRowKeeps(db, w, articles);
  }

  lemma {:induction false} ArticleWriteKeeps(db: Db, w: ArticleWrite)
    requires Integrity(db) && CanUpsertArticle(db, w)
    ensures Integrity(ArticleWritten(db, w)) && BindingsKept(db, ArticleWritten(db, w))
  {
    ArticleWriteKeepsTables(db, w);
    MoreToPointAt(db, db.users.Keys, db.feeds.Keys, ArticleWritten(db, w).articles.Keys);
    NothingWritten(db);
  }

  lemma {:induction false} UserRowKeeps(users: map<ID, UserRow>, id: ID, row: UserRow)
    requires UsersOk(users)
    requires if id in users then row.subject == users[id].subject
             else forall other :: other in users ==> users[other].subject != row.subject
    ensures UsersOk(users[id := row]) && UsersKept(users, users[id := row])
  {
  }

  lemma {:induction false} SubscriptionRowKeeps(db: Db, id: ID, row: SubscriptionRow)
    requires SubscriptionsOk(db.subscriptions, db.users.Keys, db.feeds.Keys)
    requires if id in db.subscriptions
             then Pair(row) == Pair(db.subscriptions[id]) && row.createdAt == db.subscriptions[id].createdAt
             else && row.userID in db.users && row.feedID in db.feeds
                  && forall other :: other in db.subscriptions ==> Pair(db.subscriptions[other]) != Pair(row)
    ensures SubscriptionsOk(db.subscriptions[id := row], db.users.Keys, db.feeds.Keys)
    ensures SubscriptionsKept(db.subscriptions, db.subscriptions[id := row])
  {
  }

  lemma {:induction false} UserWriteKeeps(db: Db, id: ID, subject: string, now: Time)
    requires Integrity(db) && UpsertUserRow(db, id, subject, now).Ok?
    ensures Integrity(UpsertUserRow(db, id, subject, now).value)
    ensures BindingsKept(db, UpsertUserRow(db, id, subject, now).value)
  {
    var after := UpsertUserRow(db, id, subject, now).value;
    UserRowKeeps(db.users, id, after.users[id]);
    MoreToPointAt(db, after.users.Keys, db.feeds.Keys, db.articles.Keys);
    NothingWritten(db);
  }

  lemma {:induction false} FeedWriteKeeps(db: Db, id: ID, details: FeedDetails, seenAt: Time, now: Time)
    requires Integrity(db) && UpsertFeedRow(db, id, details, seenAt, now).Ok?
    ensures Integrity(UpsertFeedRow(db, id, details, seenAt, now).value)
    ensures BindingsKept(db, UpsertFeedRow(db, id, details, seenAt, now).value)
  {
    var after := UpsertFeedRow(db, id, details, seenAt, now).value;
    assert FeedsOk(after.feeds) && FeedsKept(db.feeds, after.feeds);
    MoreToPointAt(db, db.users.Keys, after.feeds.Keys, db.articles.Keys);
    NothingWritten(db);
  }

  lemma {:induction false} SubscriptionWriteKeeps(db: Db, id: ID, row: SubscriptionRow)
    requires Integrity(db) && UpsertSubscriptionRow(db, id, row).Ok?
    ensures Integrity(UpsertSubscriptionRow(db, id, row).value)
    ensures BindingsKept(db, UpsertSubscriptionRow(db, id, row).value)
  {
    var after := UpsertSubscriptionRow(db, id, row).value;
    SubscriptionRowKeeps(db, id, after.subscriptions[id]);
    NothingWritten(db);
  }

  lemma {:induction false} StateWriteKeeps(db: Db, id: StateID, row: StateRow)
    requires Integrity(db) && UpsertStateRow(db, id, row).Ok?
    ensures Integrity(UpsertStateRow(db, id, row).value)
    ensures BindingsKept(db, UpsertStateRow(db, id, row).value)
  {
    var after := UpsertStateRow(db, id, row).value;
    assert StatesOk(after.states, db.users.Keys, db.articles.Keys);
    NothingWritten(db);
  }

  lemma {:induction false} StepKeeps(db: Db, op: Write)
    requires Integrity(db)
    ensures Integrity(Step(db, op)) && BindingsKept(db, Step(db, op))
  {
    NothingWritten(db);
    match op {
      case UserWrite(id, subject, now) =>
        if UpsertUserRow(db, id, subject, now).Ok? { UserWriteKeeps(db, id, subject, now); }
      case FeedWrite(id, details, seenAt, now) =>
        if UpsertFeedRow(db, id, details, seenAt, now).Ok? { FeedWriteKeeps(db, id, details, seenAt, now); }
      case SubscriptionWrite(id, row) =>
        if UpsertSubscriptionRow(db, id, row).Ok? { SubscriptionWriteKeeps(db, id, row); }
      case StateWrite(key, row) =>
        if UpsertStateRow(db, key, row).Ok? { StateWriteKeeps(db, key, row); }
      case Article(w) =>
        if CanUpsertArticle(db, w) { ArticleWriteKeeps(db, w); }
    }
  }

  lemma {:induction false} BindingsKeptTransitive(a: Db, b: Db, c: Db)
    requires BindingsKept(a, b) && BindingsKept(b, c)
    ensures BindingsKept(a, c)
  {
  }

  lemma {:induction false} RunKeeps(db: Db, ops: seq<Write>)
    requires Integrity(db)
    ensures Integrity(Run(db, ops)) && BindingsKept(db, Run(db, ops))
    decreases |ops|
  {
    if ops != [] {
      var front := ops[..|ops| - 1];
      RunKeeps(db, front);
      StepKeeps(Run(db, front), ops[|ops| - 1]);
      BindingsKeptTransitive(db, Run(db, front), Run(db, ops));
    }
  }

  lemma {:induction false} RunAppend(db: Db, a: seq<Write>, b: seq<Write>)
    ensures Run(db, a + b) == Run(Run(db, a), b)
    decreases |b|
  {
    if b == [] {
      assert a + b == a;
    } else {
      var front := b[..|b| - 1];
      RunAppend(db, a, front);
      assert (a + b)[..|a + b| - 1] == a + front;
    }
  }

  /**
   For every run `a` from empty tables and every continuation `b` of it: the tables are consistent
   after both, and everything bound by the end of `a` is bound the same way at the end of `b`.
   */
  lemma {:induction false} EveryRunIsWriteOnce(a: seq<Write>, b: seq<Write>)
    ensures Integrity(Run(EMPTY, a)) && Integrity(Run(EMPTY, a + b))
    ensures BindingsKept(Run(EMPTY, a), Run(EMPTY, a + b))
  {
    RunFromEmpty(a);
    RunKeeps(Run(EMPTY, a), b);
    RunAppend(EMPTY, a, b);
  }

  lemma {:induction false} RunFromEmpty(ops: seq<Write>)
    ensures Integrity(Run(EMPTY, ops))
  {
    assert Integrity(EMPTY);
    RunKeeps(EMPTY, ops);
  }

  // ---------- Rejected calls that leave a trace ----------

  lemma {:induction false} LettersAreNotBlank()
    ensures !Blank("a") && !Blank("b") && !Blank("f") && !Blank("g") && !Blank("s") && !Blank("u")
  {
  }

  /** User `u` is registered as `a` and then refused as `b`: the subject stays, `updated_at` moves. */
  lemma {:induction false} RefusedSubjectMovesUpdatedAt()
    ensures var known := Step(EMPTY, UserWrite("u", "a", 1));
      && SubjectRefused(known, "u", "b")
      && Step(known, UserWrite("u", "b", 2)).users == map["u" := UserRow("a", 2)]
  {
    LettersAreNotBlank();
  }

  /** A database with user `u`, feeds `f` and `g`, and subscription `s` of `u` to `f`. */
  function Subscribed(): Db {
    var details := FeedDetails("f", "f", "", "", "", "", "", "", "");
    EMPTY.(users := map["u" := UserRow("a", 1)],
           feeds := map["f" := FeedRow(details, 1, 1, 1),
                        "g" := FeedRow(details.(url := "g", normalizedURL := "g"), 1, 1, 1)],
           subscriptions := map["s" := SubscriptionRow("u", "f", 1, false, 1)])
  }

  /** Asking for `s` to be a disabled subscription to `g` is refused, and disables the one to `f`. */
  lemma {:induction false} RefusedPairStoresDisabled()
    ensures var row := SubscriptionRow("u", "g", 1, true, 2);
      && PairRefused(Subscribed(), "s", row)
      && Step(Subscribed(), SubscriptionWrite("s", row)).subscriptions
         == map["s" := SubscriptionRow("u", "f", 1, true, 2)]
  {
    LettersAreNotBlank();
  }

  lemma {:induction false} SubscribedIsConsistent()
    ensures Integrity(Subscribed())
  {
  }
}
