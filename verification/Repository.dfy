/** The repository's write operations, proved against what they do to the committed tables. */
module Repository {
  import opened Options
  import opened Text
  import opened Schema

  // ---------- What an article write needs, and what it leaves ----------

  predicate ValidKey(key: IdentityKey) {
    key.keyType in KEY_TYPES && !Blank(key.value)
  }

  predicate ValidArticleWrite(w: ArticleWrite) {
    && !Blank(w.articleID) && !Blank(w.feedID) && w.retrievedAt != ZERO_TIME && !Blank(w.historyID)
    && w.categories == [] && w.tags == [] && w.media == [] && w.images == []
    && forall key :: key in w.identityKeys ==> ValidKey(key)
  }

  function KeyOf(w: ArticleWrite, key: IdentityKey): KeyID {
    KeyID(w.feedID, key.keyType, key.value)
  }

  function KeyIDs(w: ArticleWrite, n: nat): set<KeyID>
    requires n <= |w.identityKeys|
  {
    set i | 0 <= i < n :: KeyOf(w, w.identityKeys[i])
  }

  function AllKeyIDs(w: ArticleWrite): set<KeyID> {
    KeyIDs(w, |w.identityKeys|)
  }

  /** A known article belongs to the feed the write names; a new one needs that feed to exist. */
  ghost predicate FeedAvailable(articles: map<ID, ArticleRow>, feeds: set<ID>, w: ArticleWrite) {
    if w.articleID in articles then articles[w.articleID].feedID == w.feedID else w.feedID in feeds
  }

  /** Each of these keys is free or already bound to this article. */
  ghost predicate KeysAvailable(keys: map<KeyID, ID>, wanted: set<KeyID>, articleID: ID) {
    forall k :: k in wanted && k in keys ==> keys[k] == articleID
  }

  ghost predicate HistoryAvailable(history: map<ID, HistoryRow>, w: ArticleWrite) {
    w.historyID in history ==> history[w.historyID].articleID == w.articleID && history[w.historyID].feedID == w.feedID
  }

  /** The write names an existing feed, and everything it binds is free or bound the same way. */
  ghost predicate CanUpsertArticle(db: Db, w: ArticleWrite) {
    && ValidArticleWrite(w)
    && FingerprintOk(w.content.provenance.fingerprint)
    && FeedAvailable(db.articles, db.feeds.Keys, w)
    && KeysAvailable(db.keys, AllKeyIDs(w), w.articleID)
    && HistoryAvailable(db.history, w)
  }

  function WithKeys(keys: map<KeyID, ID>, added: set<KeyID>, articleID: ID): map<KeyID, ID> {
    map k | k in keys.Keys + added :: if k in keys then keys[k] else articleID
  }

  /** The tables after a successful write. */
  function ArticleWritten(db: Db, w: ArticleWrite): Db {
    db.(articles := db.articles[w.articleID := WrittenRow(db, w)],
        keys := WithKeys(db.keys, AllKeyIDs(w), w.articleID),
        history := if w.historyID in db.history then db.history else db.history[w.historyID := WrittenHistory(w)])
  }

  /**
   The write's content is stored with the article, replacing what was there; times take in the new
   one; each key of the write names the article; the history has a row for it; nothing else changed.
   */
  ghost predicate StoresArticle(before: Db, w: ArticleWrite, after: Db) {
    && ArticleStored(before.articles, w, after.articles)
    && KeysStored(before.keys, w, after.keys)
    && HistoryStored(before.history, w, after.history)
    && after == before.(articles := after.articles, keys := after.keys, history := after.history)
  }

  ghost predicate ArticleStored(before: map<ID, ArticleRow>, w: ArticleWrite, after: map<ID, ArticleRow>) {
    && after.Keys == before.Keys + {w.articleID}
    && (forall a :: a in before && a != w.articleID ==> after[a] == before[a])
    && var row := after[w.articleID];
       && row.feedID == w.feedID && row.content == w.content && row.retentionEligibleAt == w.retentionEligibleAt
       && (w.articleID !in before ==> row.firstRetrieved == row.lastRetrieved == w.retrievedAt)
       && (w.articleID in before ==>
             && row.firstRetrieved in {before[w.articleID].firstRetrieved, w.retrievedAt}
             && row.lastRetrieved in {before[w.articleID].lastRetrieved, w.retrievedAt}
             && row.firstRetrieved <= before[w.articleID].firstRetrieved && row.firstRetrieved <= w.retrievedAt
             && before[w.articleID].lastRetrieved <= row.lastRetrieved && w.retrievedAt <= row.lastRetrieved)
  }

  ghost predicate KeysStored(before: map<KeyID, ID>, w: ArticleWrite, after: map<KeyID, ID>) {
    && (forall k :: k in before ==> k in after && after[k] == before[k])
    && (forall key :: key in w.identityKeys ==> KeyOf(w, key) in after && after[KeyOf(w, key)] == w.articleID)
    && (forall k :: k in after && k !in before ==> exists key :: key in w.identityKeys && k == KeyOf(w, key))
  }

  ghost predicate HistoryStored(before: map<ID, HistoryRow>, w: ArticleWrite, after: map<ID, HistoryRow>) {
    && after.Keys == before.Keys + {w.historyID}
    && (forall h :: h in before ==> after[h] == before[h])
    && (w.historyID !in before ==>
          after[w.historyID] == HistoryRow(w.articleID, w.feedID, w.retrievedAt, w.content.provenance))
  }

  lemma {:induction false} WrittenKeysAreStored(before: map<KeyID, ID>, w: ArticleWrite)
    requires KeysAvailable(before, AllKeyIDs(w), w.articleID)
    ensures KeysStored(before, w, WithKeys(before, AllKeyIDs(w), w.articleID))
  {
    var after := WithKeys(before, AllKeyIDs(w), w.articleID);
    forall key | key in w.identityKeys ensures KeyOf(w, key) in after && after[KeyOf(w, key)] == w.articleID {
      var i :| 0 <= i < |w.identityKeys| && w.identityKeys[i] == key;
      assert KeyOf(w, w.identityKeys[i]) in AllKeyIDs(w);
    }
    forall k | k in after && k !in before ensures exists key :: key in w.identityKeys && k == KeyOf(w, key) {
      var i :| 0 <= i < |w.identityKeys| && k == KeyOf(w, w.identityKeys[i]);
      assert w.identityKeys[i] in w.identityKeys;
    }
  }

  lemma {:induction false} WrittenIsStored(db: Db, w: ArticleWrite)
    requires CanUpsertArticle(db, w)
    ensures StoresArticle(db, w, ArticleWritten(db, w))
  {
    WrittenKeysAreStored(db.keys, w);
  }

  /** The article's own row breaks no constraint of its table. */
  predicate ArticleRowOk(db: Db, w: ArticleWrite) {
    FingerprintOk(w.content.provenance.fingerprint) && (w.articleID in db.articles || w.feedID in db.feeds)
  }

  /** The calls of an article write to the database that may fail. */
  datatype Call = Begin | WriteArticle | InsertKey(i: nat) | VerifyKey(i: nat) | InsertHistory | VerifyHistory | Commit

  ghost predicate KeysUninterrupted(fault: Call -> bool, n: nat) {
    forall i: nat :: i < n ==> !fault(InsertKey(i)) && !fault(VerifyKey(i))
  }

  ghost predicate Uninterrupted(fault: Call -> bool, w: ArticleWrite) {
    && !fault(Begin) && !fault(WriteArticle) && KeysUninterrupted(fault, |w.identityKeys|)
    && !fault(InsertHistory) && !fault(VerifyHistory) && !fault(Commit)
  }

  // ---------- Validation ----------

  function ValidateArticleWrite(w: ArticleWrite): Option<Error> {
    if Blank(w.articleID) then Some(Required("article id"))
    else if Blank(w.feedID) then Some(Required("article feed id"))
    else if w.retrievedAt == ZERO_TIME then Some(Required("article retrieval time"))
    else if Blank(w.historyID) then Some(Required("article source history id"))
    else if |w.categories| > 0 || |w.tags| > 0 || |w.media| > 0 || |w.images| > 0 then Some(UnsupportedMetadata)
    else ValidateKeys(w.identityKeys)
  }

  function ValidateKeys(keys: seq<IdentityKey>): Option<Error> {
    if keys == [] then None
    else if keys[0].keyType !in KEY_TYPES then Some(UnsupportedKeyType)
    else if Blank(keys[0].value) then Some(Required("article identity key value"))
    else ValidateKeys(keys[1..])
  }

  /** Key `i` is the first that is not valid, for this reason. */
  predicate FirstInvalid(keys: seq<IdentityKey>, i: nat, e: Error) {
    && i < |keys| && (forall j :: 0 <= j < i ==> ValidKey(keys[j]))
    && if keys[i].keyType !in {"source_identifier", "normalized_url", "content_fingerprint"}
       then e == UnsupportedKeyType
       else Blank(keys[i].value) && e == Required("article identity key value")
  }

  lemma {:induction false} ValidateKeysExactly(keys: seq<IdentityKey>)
    ensures ValidateKeys(keys).None? <==> forall key :: key in keys ==> ValidKey(key)
    ensures ValidateKeys(keys).Some? ==> exists i: nat :: FirstInvalid(keys, i, ValidateKeys(keys).value)
  {
    if keys != [] {
      ValidateKeysExactly(keys[1..]);
      assert keys[0] in keys;
      assert forall key :: key in keys <==> key == keys[0] || key in keys[1..];
      if !ValidKey(keys[0]) {
        assert FirstInvalid(keys, 0, ValidateKeys(keys).value);
      } else if ValidateKeys(keys).Some? {
        var i: nat :| FirstInvalid(keys[1..], i, ValidateKeys(keys).value);
        assert FirstInvalid(keys, i + 1, ValidateKeys(keys).value);
      }
    }
  }

  /** The first thing wrong with a write, in the order in which they are looked at. */
  ghost predicate RefusedFor(w: ArticleWrite, e: Error) {
    if Blank(w.articleID) then e == Required("article id")
    else if Blank(w.feedID) then e == Required("article feed id")
    else if w.retrievedAt == ZERO_TIME then e == Required("article retrieval time")
    else if Blank(w.historyID) then e == Required("article source history id")
    else if w.categories != [] || w.tags != [] || w.media != [] || w.images != [] then e == UnsupportedMetadata
    else exists i: nat :: FirstInvalid(w.identityKeys, i, e)
  }

  // ---------- The transaction ----------

  /** A transaction's working copy of the tables. */
  class Tx {
    var db: Db

    constructor (db: Db)
      ensures this.db == db
    {
      this.db := db;
    }

    /** Runs one statement: its effect, or an error and no effect. */
    method Exec(outcome: Result<Db, Error>, fault: bool) returns (err: Option<Error>)
      modifies this
      ensures err.None? <==> !fault && outcome.Ok?
      ensures err.Some? && !fault ==> err == Some(outcome.error)
      ensures db == if err.None? then outcome.value else old(db)
    {
      if fault {
        return Some(Unavailable);
      }
      match outcome
      case Err(e) => err := Some(e);
      case Ok(after) => db := after; err := None;
    }
  }

  /** Inserts the key if it is free, reads it back and compares. */
  method EnsureIdentityKey(tx: Tx, k: KeyID, articleID: ID, insertFault: bool, verifyFault: bool)
    returns (err: Option<Error>)
    requires NamesArticle(tx.db.articles, articleID, k.feedID) && k.keyType in KEY_TYPES
    modifies tx
    ensures err.None? <==> !insertFault && !verifyFault && KeysAvailable(old(tx.db).keys, {k}, articleID)
    ensures err.Some? && !insertFault && !verifyFault ==> err == Some(AlreadyBound)
    ensures err.None? ==> tx.db == old(tx.db).(keys := WithKeys(old(tx.db).keys, {k}, articleID))
  {
    err := tx.Exec(InsertKeyRow(tx.db, k, articleID), insertFault);
    if err.Some? {
      return;
    }
    if verifyFault {
      return Some(Unavailable);
    }
    var stored := tx.db.keys[k];
    if stored != articleID {
      return Some(AlreadyBound);
    }
    assert tx.db.keys == WithKeys(old(tx.db).keys, {k}, articleID);
  }

  /** The loop over a write's keys. */
  method EnsureIdentityKeys(tx: Tx, w: ArticleWrite, fault: Call -> bool) returns (err: Option<Error>)
    requires ValidArticleWrite(w) && NamesArticle(tx.db.articles, w.articleID, w.feedID)
    modifies tx
    ensures err.None? <==>
      KeysUninterrupted(fault, |w.identityKeys|) && KeysAvailable(old(tx.db).keys, AllKeyIDs(w), w.articleID)
    ensures err.Some? && KeysUninterrupted(fault, |w.identityKeys|) ==> err == Some(AlreadyBound)
    ensures err.None? ==> tx.db == old(tx.db).(keys := WithKeys(old(tx.db).keys, AllKeyIDs(w), w.articleID))
  {
    ghost var before := tx.db;
    NoKeysYet(before.keys, w);
    for i := 0 to |w.identityKeys|
      invariant tx.db == before.(keys := WithKeys(before.keys, KeyIDs(w, i), w.articleID))
      invariant KeysUninterrupted(fault, i) && KeysAvailable(before.keys, KeyIDs(w, i), w.articleID)
    {
      OneMoreKey(before.keys, w, i);
      FewerKeys(before.keys, w, i + 1);
      OneMoreCall(fault, i, |w.identityKeys|);
      err := EnsureIdentityKey(tx, KeyOf(w, w.identityKeys[i]), w.articleID, fault(InsertKey(i)), fault(VerifyKey(i)));
      if err.Some? {
        return;
      }
    }
    err := None;
  }

  lemma {:induction false} NoKeysYet(keys: map<KeyID, ID>, w: ArticleWrite)
    ensures WithKeys(keys, KeyIDs(w, 0), w.articleID) == keys && KeysAvailable(keys, KeyIDs(w, 0), w.articleID)
  {
    assert KeyIDs(w, 0) == {};
  }

  lemma {:induction false} OneMoreCall(fault: Call -> bool, i: nat, n: nat)
    requires i < n
    ensures KeysUninterrupted(fault, i + 1)
        <==> KeysUninterrupted(fault, i) && !fault(InsertKey(i)) && !fault(VerifyKey(i))
    ensures KeysUninterrupted(fault, n) ==> KeysUninterrupted(fault, i + 1)
  {
  }

  /** Reading its own writes, the loop sees exactly the conflicts the tables had at the start. */
  lemma {:induction false} OneMoreKey(keys: map<KeyID, ID>, w: ArticleWrite, i: nat)
    requires i < |w.identityKeys| && KeysAvailable(keys, KeyIDs(w, i), w.articleID)
    ensures
      var k, before := KeyOf(w, w.identityKeys[i]), WithKeys(keys, KeyIDs(w, i), w.articleID);
      && WithKeys(before, {k}, w.articleID) == WithKeys(keys, KeyIDs(w, i + 1), w.articleID)
      && (KeysAvailable(before, {k}, w.articleID) <==> KeysAvailable(keys, KeyIDs(w, i + 1), w.articleID))
    ensures ValidArticleWrite(w) ==> w.identityKeys[i].keyType in KEY_TYPES
  {
    var k := KeyOf(w, w.identityKeys[i]);
    assert KeyIDs(w, i + 1) == KeyIDs(w, i) + {k};
    assert w.identityKeys[i] in w.identityKeys;
  }

  lemma {:induction false} FewerKeys(keys: map<KeyID, ID>, w: ArticleWrite, n: nat)
    requires n <= |w.identityKeys|
    ensures KeysAvailable(keys, AllKeyIDs(w), w.articleID) ==> KeysAvailable(keys, KeyIDs(w, n), w.articleID)
  {
    assert KeyIDs(w, n) <= AllKeyIDs(w);
  }

  method EnsureSourceHistory(tx: Tx, w: ArticleWrite, insertFault: bool, verifyFault: bool)
    returns (err: Option<Error>)
    requires NamesArticle(tx.db.articles, w.articleID, w.feedID) && FingerprintOk(w.content.provenance.fingerprint)
    modifies tx
    ensures err.None? <==> !insertFault && !verifyFault && HistoryAvailable(old(tx.db).history, w)
    ensures err.Some? && !insertFault && !verifyFault ==> err == Some(AlreadyBound)
    ensures err.None? ==> tx.db == old(tx.db).(history :=
      if w.historyID in old(tx.db).history then old(tx.db).history
      else old(tx.db).history[w.historyID := WrittenHistory(w)])
  {
    err := tx.Exec(InsertHistoryRow(tx.db, w), insertFault);
    if err.Some? {
      return;
    }
    if verifyFault {
      return Some(Unavailable);
    }
    var stored := tx.db.history[w.historyID];
    if stored.articleID != w.articleID || stored.feedID != w.feedID {
      return Some(AlreadyBound);
    }
  }

  // ---------- The store ----------

  /** What each operation leaves behind when no call to the database is interrupted. */
  datatype Write =
    | UserWrite(id: ID, subject: string, now: Time)
    | FeedWrite(id: ID, details: FeedDetails, seenAt: Time, now: Time)
    | SubscriptionWrite(id: ID, row: SubscriptionRow)
    | Article(article: ArticleWrite)
    | StateWrite(key: StateID, state: StateRow)

  function OrElse(r: Result<Db, Error>, db: Db): Db {
    if r.Ok? then r.value else db
  }

  ghost function Step(db: Db, op: Write): Db {
    match op
    case UserWrite(id, subject, now) =>
      if Blank(id) || Blank(subject) then db else OrElse(UpsertUserRow(db, id, subject, now), db)
    case FeedWrite(id, details, seenAt, now) =>
      if Blank(id) || Blank(details.url) || Blank(details.normalizedURL) || seenAt == ZERO_TIME then db
      else OrElse(UpsertFeedRow(db, id, details, seenAt, now), db)
    case SubscriptionWrite(id, row) =>
      if Blank(id) || Blank(row.userID) || Blank(row.feedID) || row.createdAt == ZERO_TIME then db
      else OrElse(UpsertSubscriptionRow(db, id, row), db)
    case Article(w) =>
      if CanUpsertArticle(db, w) then ArticleWritten(db, w) else db
    case StateWrite(key, row) =>
      if Blank(key.userID) || Blank(key.articleID) || row.updatedAt == ZERO_TIME then db
      else OrElse(UpsertStateRow(db, key, row), db)
  }

  /** The feed's row holds the new details, and its times take in the new one. */
  predicate FeedStored(before: map<ID, FeedRow>, id: ID, row: FeedRow, details: FeedDetails, seenAt: Time, now: Time) {
    && row.details == details && row.updatedAt == now
    && (id !in before ==> row.firstSeen == row.lastSeen == seenAt)
    && (id in before ==>
          && row.firstSeen in {before[id].firstSeen, seenAt} && row.lastSeen in {before[id].lastSeen, seenAt}
          && row.firstSeen <= before[id].firstSeen && row.firstSeen <= seenAt
          && before[id].lastSeen <= row.lastSeen && seenAt <= row.lastSeen)
  }

  /** A valid call that names a known user with another subject. */
  predicate SubjectRefused(db: Db, id: ID, subject: string) {
    !Blank(id) && !Blank(subject) && id in db.users && db.users[id].subject != subject
  }

  /** A valid call that names a known subscription of another user or feed. */
  predicate PairRefused(db: Db, id: ID, row: SubscriptionRow) {
    && !Blank(id) && !Blank(row.userID) && !Blank(row.feedID) && row.createdAt != ZERO_TIME
    && id in db.subscriptions && Pair(db.subscriptions[id]) != Pair(row)
  }

  class Store {
    /** The committed tables. */
    var db: Db

    constructor ()
      ensures db == EMPTY
    {
      db := EMPTY;
    }

    /** One statement in its own transaction. */
    method Autocommit(outcome: Result<Db, Error>, fault: bool) returns (err: Option<Error>)
      modifies this
      ensures err.None? <==> !fault && outcome.Ok?
      ensures err.Some? ==> err.value == if fault then Unavailable else outcome.error
      ensures db == if err.None? then outcome.value else old(db)
    {
      if fault {
        return Some(Unavailable);
      }
      match outcome
      case Err(e) => err := Some(e);
      case Ok(after) => db := after; err := None;
    }

    /**
     Succeeds exactly when the write can be bound and no call fails; otherwise, at whatever call
     it stops, the committed tables are untouched. Without interruption a valid write fails on a
     constraint of the article's row or on a foreign binding.
     */
    method UpsertArticle(w: ArticleWrite, fault: Call -> bool) returns (err: Option<Error>)
      modifies this
      ensures err.None? <==> CanUpsertArticle(old(db), w) && Uninterrupted(fault, w)
      ensures db == if err.None? then ArticleWritten(old(db), w) else old(db)
      ensures err.None? ==> StoresArticle(old(db), w, db)
      ensures !ValidArticleWrite(w) ==> err.Some? && RefusedFor(w, err.value)
      ensures ValidArticleWrite(w) && err.Some? && Uninterrupted(fault, w) ==>
        err == Some(if ArticleRowOk(old(db), w) then AlreadyBound else Violation)
    {
      if CanUpsertArticle(db, w) { WrittenIsStored(db, w); }
      ValidateKeysExactly(w.identityKeys);
      err := ValidateArticleWrite(w);
      if err.Some? {
        return;
      }
      if fault(Begin) {
        return Some(Unavailable);
      }
      var tx := new Tx(db);
      err := tx.Exec(UpsertArticleRow(tx.db, w), fault(WriteArticle));
      if err.Some? {
        return;
      }
      if tx.db.articles[w.articleID].feedID != w.feedID {
        return Some(AlreadyBound);
      }

      err := EnsureIdentityKeys(tx, w, fault);
      if err.Some? {
        return;
      }
      err := EnsureSourceHistory(tx, w, fault(InsertHistory), fault(VerifyHistory));
      if err.Some? {
        return;
      }
      if fault(Commit) {
        return Some(Unavailable);
      }
      db := tx.db;
      err := None;
    }

    /**
     A rejected call changes the tables exactly when it is valid and names a known user with
     another subject: it then moves that user's `updated_at`.
     */
    method UpsertUserReference(id: ID, subject: string, now: Time, fault: bool) returns (err: Option<Error>)
      modifies this
      ensures err.None? <==>
        && !fault && !Blank(id) && !Blank(subject)
        && (if id in old(db).users then old(db).users[id].subject == subject
            else forall other :: other in old(db).users ==> old(db).users[other].subject != subject)
      ensures db == if fault then old(db) else Step(old(db), UserWrite(id, subject, now))
      ensures err.None? ==> db == old(db).(users := old(db).users[id := UserRow(subject, now)])
      ensures err.Some? ==> (db != old(db) <==>
        !fault && SubjectRefused(old(db), id, subject) && old(db).users[id].updatedAt != now)
      ensures err.Some? && db != old(db) ==>
        db == old(db).(users := old(db).users[id := old(db).users[id].(updatedAt := now)])
      ensures err.Some? ==>
        err == Some(if Blank(id) then Required("user id")
                    else if Blank(subject) then Required("identity subject")
                    else if fault then Unavailable
                    else if id in old(db).users then AlreadyBound
                    else Violation)
    {
      if Blank(id) {
        return Some(Required("user id"));
      }
      if Blank(subject) {
        return Some(Required("identity subject"));
      }
      err := Autocommit(UpsertUserRow(db, id, subject, now), fault);
      if err.Some? {
        return;
      }
      if db.users[id].subject != subject {
        return Some(AlreadyBound);
      }
    }

    method UpsertFeed(id: ID, details: FeedDetails, seenAt: Time, now: Time, fault: bool) returns (err: Option<Error>)
      modifies this
      ensures err.None? <==>
        && !fault && !Blank(id) && !Blank(details.url) && !Blank(details.normalizedURL) && seenAt != ZERO_TIME
        && forall other :: other in old(db).feeds && other != id ==>
             old(db).feeds[other].details.normalizedURL != details.normalizedURL
      ensures db == if err.None? then Step(old(db), FeedWrite(id, details, seenAt, now)) else old(db)
      ensures err.None? ==> id in db.feeds && FeedStored(old(db).feeds, id, db.feeds[id], details, seenAt, now)
      ensures err.None? ==> db == old(db).(feeds := old(db).feeds[id := db.feeds[id]])
      ensures err.Some? && !fault ==> Step(old(db), FeedWrite(id, details, seenAt, now)) == old(db)
      ensures err.Some? ==>
        err == Some(if Blank(id) then Required("feed id")
                    else if Blank(details.url) then Required("feed canonical url")
                    else if Blank(details.normalizedURL) then Required("feed normalized url")
                    else if seenAt == ZERO_TIME then Required("feed seen time")
                    else if fault then Unavailable
                    else Violation)
    {
      if Blank(id) {
        return Some(Required("feed id"));
      }
      if Blank(details.url) {
        return Some(Required("feed canonical url"));
      }
      if Blank(details.normalizedURL) {
        return Some(Required("feed normalized url"));
      }
      if seenAt == ZERO_TIME {
        return Some(Required("feed seen time"));
      }
      err := Autocommit(UpsertFeedRow(db, id, details, seenAt, now), fault);
    }

    /**
     A rejected call changes the tables exactly when it is valid and names a known subscription of
     another user or feed: it then stores `disabled` and `updated_at`.
     */
    method UpsertSubscription(id: ID, row: SubscriptionRow, fault: bool) returns (err: Option<Error>)
      modifies this
      ensures err.None? <==>
        && !fault && !Blank(id) && !Blank(row.userID) && !Blank(row.feedID) && row.createdAt != ZERO_TIME
        && (if id in old(db).subscriptions then Pair(old(db).subscriptions[id]) == Pair(row)
            else && row.userID in old(db).users && row.feedID in old(db).feeds
                 && forall other :: other in old(db).subscriptions ==> Pair(old(db).subscriptions[other]) != Pair(row))
      ensures db == if fault then old(db) else Step(old(db), SubscriptionWrite(id, row))
      ensures err.None? ==> db == old(db).(subscriptions := old(db).subscriptions[id := row.(createdAt :=
        if id in old(db).subscriptions then old(db).subscriptions[id].createdAt else row.createdAt)])
      ensures err.Some? ==> (db != old(db) <==>
        && !fault && PairRefused(old(db), id, row)
        && (old(db).subscriptions[id].disabled != row.disabled || old(db).subscriptions[id].updatedAt != row.updatedAt))
      ensures err.Some? && db != old(db) ==>
        db == old(db).(subscriptions := old(db).subscriptions[id :=
          old(db).subscriptions[id].(disabled := row.disabled, updatedAt := row.updatedAt)])
      ensures err.Some? ==>
        err == Some(if Blank(id) then Required("subscription id")
                    else if Blank(row.userID) || Blank(row.feedID) then Required("subscription user id and feed id")
                    else if row.createdAt == ZERO_TIME then Required("subscription creation time")
                    else if fault then Unavailable
                    else if id in old(db).subscriptions then AlreadyBound
                    else Violation)
    {
      if Blank(id) {
        return Some(Required("subscription id"));
      }
      if Blank(row.userID) || Blank(row.feedID) {
        return Some(Required("subscription user id and feed id"));
      }
      if row.createdAt == ZERO_TIME {
        return Some(Required("subscription creation time"));
      }
      err := Autocommit(UpsertSubscriptionRow(db, id, row), fault);
      if err.Some? {
        return;
      }
      var stored := db.subscriptions[id];
      if stored.userID != row.userID || stored.feedID != row.feedID {
        return Some(AlreadyBound);
      }
    }

    /** NaN slips through the range guard, and the table's check stops it. */
    method UpsertArticleState(key: StateID, row: StateRow, fault: bool) returns (err: Option<Error>)
      modifies this
      ensures err.None? <==>
        && !fault && !Blank(key.userID) && !Blank(key.articleID) && row.updatedAt != ZERO_TIME
        && PositionOk(row.position)
        && (key in old(db).states || (key.userID in old(db).users && key.articleID in old(db).articles))
      ensures db == if err.None? then old(db).(states := old(db).states[key := row]) else old(db)
      ensures !fault ==> db == Step(old(db), StateWrite(key, row))
      ensures err.Some? ==>
        err == Some(if Blank(key.userID) || Blank(key.articleID) then Required("article state user id and article id")
                    else if row.position.Number? && !PositionOk(row.position) then OutOfRange
                    else if row.updatedAt == ZERO_TIME then Required("article state update time")
                    else if fault then Unavailable
                    else Violation)
    {
      if Blank(key.userID) || Blank(key.articleID) {
        return Some(Required("article state user id and article id"));
      }
      if row.position.Number? && (row.position.value < 0.0 || row.position.value > 1.0) {
        return Some(OutOfRange);
      }
      if row.updatedAt == ZERO_TIME {
        return Some(Required("article state update time"));
      }
      err := Autocommit(UpsertStateRow(db, key, row), fault);
    }
  }
}
