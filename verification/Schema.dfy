/** The tables, and what one SQL statement of the repository does to them under their constraints. */
module Schema {
  import opened Options

  type ID = string

  /** Instants. Go's zero time is the one a write may not carry. */
  type Time = int
  const ZERO_TIME: Time := 0

  /** The article columns that source history records too. */
  datatype Provenance = Provenance(identifier: string, url: string, normalizedURL: string, title: string,
                                   author: string, publishedAt: Option<Time>, updatedAt: Option<Time>,
                                   fingerprint: string)

  datatype Content = Content(provenance: Provenance, summary: string, content: string, language: string,
                             sourceFormat: string, sourceURL: string)

  datatype ArticleRow = ArticleRow(feedID: ID, content: Content, firstRetrieved: Time, lastRetrieved: Time,
                                   retentionEligibleAt: Option<Time>)
  datatype KeyID = KeyID(feedID: ID, keyType: string, value: string)
  datatype HistoryRow = HistoryRow(articleID: ID, feedID: ID, retrievedAt: Time, provenance: Provenance)
  datatype UserRow = UserRow(subject: string, updatedAt: Time)
  datatype FeedDetails = FeedDetails(url: string, normalizedURL: string, title: string, description: string,
                                     iconURL: string, imageURL: string, language: string,
                                     sourceFormat: string, sourceURL: string)
  datatype FeedRow = FeedRow(details: FeedDetails, firstSeen: Time, lastSeen: Time, updatedAt: Time)
  datatype SubscriptionRow = SubscriptionRow(userID: ID, feedID: ID, createdAt: Time, disabled: bool, updatedAt: Time)

  /** A double precision read position; infinities behave as out-of-range numbers. */
  datatype Position = NaN | Number(value: real)
  datatype StateID = StateID(userID: ID, articleID: ID)
  datatype StateRow = StateRow(read: bool, saved: bool, favorite: bool, preserved: bool, position: Position,
                               lastReadAt: Option<Time>, updatedAt: Time)

  datatype Db = Db(users: map<ID, UserRow>, feeds: map<ID, FeedRow>, subscriptions: map<ID, SubscriptionRow>,
                   articles: map<ID, ArticleRow>, keys: map<KeyID, ID>, history: map<ID, HistoryRow>,
                   states: map<StateID, StateRow>)

  const EMPTY := Db(map[], map[], map[], map[], map[], map[], map[])

  datatype IdentityKey = IdentityKey(keyType: string, value: string)
  datatype ArticleWrite = ArticleWrite(articleID: ID, feedID: ID, content: Content, retrievedAt: Time,
                                       retentionEligibleAt: Option<Time>, historyID: ID, identityKeys: seq<IdentityKey>,
                                       categories: seq<string>, tags: seq<string>, media: seq<string>,
                                       images: seq<string>)

  datatype Error =
    | Required(what: string)
    | UnsupportedMetadata
    | UnsupportedKeyType
    | OutOfRange
    | AlreadyBound
    | Violation        // a table constraint
    | Unavailable      // connection, cancellation or commit failure

  const KEY_TYPES := {"source_identifier", "normalized_url", "content_fingerprint"}

  function Min(a: Time, b: Time): Time { if a <= b then a else b }
  function Max(a: Time, b: Time): Time { if a <= b then b else a }

  predicate IsLowerHex(c: char) {
    '0' <= c <= '9' || 'a' <= c <= 'f'
  }

  /** The check constraint on stored fingerprints. */
  predicate FingerprintOk(s: string) {
    s == "" || (|s| == 64 && forall i :: 0 <= i < |s| ==> IsLowerHex(s[i]))
  }

  const HEX_DIGITS := {'0', '1', '2', '3', '4', '5', '6', '7', '8', '9', 'a', 'b', 'c', 'd', 'e', 'f'}

  /** A fingerprint is absent, or 64 hexadecimal digits in lower case. */
  lemma {:induction false} FingerprintExactly(s: string)
    ensures FingerprintOk(s) <==> s == "" || (|s| == 64 && forall i :: 0 <= i < |s| ==> s[i] in HEX_DIGITS)
  {
    forall c ensures IsLowerHex(c) <==> c in HEX_DIGITS {}
  }

  /** `read_position >= 0 AND read_position <= 1`, where NaN sorts above every number. */
  predicate PositionOk(p: Position) {
    p.Number? && 0.0 <= p.value <= 1.0
  }

  // ---------- Statements of an article transaction ----------

  function WrittenRow(db: Db, w: ArticleWrite): ArticleRow {
    if w.articleID in db.articles then
      var row := db.articles[w.articleID];
      ArticleRow(row.feedID, w.content, Min(row.firstRetrieved, w.retrievedAt), Max(row.lastRetrieved, w.retrievedAt),
                 w.retentionEligibleAt)
    else
      ArticleRow(w.feedID, w.content, w.retrievedAt, w.retrievedAt, w.retentionEligibleAt)
  }

  /** `INSERT INTO articles ... ON CONFLICT (id) DO UPDATE`; an update leaves the feed alone. */
  function UpsertArticleRow(db: Db, w: ArticleWrite): Result<Db, Error> {
    if !FingerprintOk(w.content.provenance.fingerprint) then Err(Violation)
    else if w.articleID !in db.articles && w.feedID !in db.feeds then Err(Violation)
    else Ok(db.(articles := db.articles[w.articleID := WrittenRow(db, w)]))
  }

  /** The composite foreign key of identity keys and source history. */
  predicate NamesArticle(articles: map<ID, ArticleRow>, articleID: ID, feedID: ID) {
    articleID in articles && articles[articleID].feedID == feedID
  }

  /** `INSERT INTO article_identity_keys ... ON CONFLICT DO NOTHING`. */
  function InsertKeyRow(db: Db, k: KeyID, articleID: ID): Result<Db, Error> {
    if k.keyType !in KEY_TYPES then Err(Violation)
    else if k in db.keys then Ok(db)
    else if !NamesArticle(db.articles, articleID, k.feedID) then Err(Violation)
    else Ok(db.(keys := db.keys[k := articleID]))
  }

  function WrittenHistory(w: ArticleWrite): HistoryRow {
    HistoryRow(w.articleID, w.feedID, w.retrievedAt, w.content.provenance)
  }

  /** `INSERT INTO article_source_history ... ON CONFLICT (id) DO NOTHING`. */
  function InsertHistoryRow(db: Db, w: ArticleWrite): Result<Db, Error> {
    if !FingerprintOk(w.content.provenance.fingerprint) then Err(Violation)
    else if w.historyID in db.history then Ok(db)
    else if !NamesArticle(db.articles, w.articleID, w.feedID) then Err(Violation)
    else Ok(db.(history := db.history[w.historyID := WrittenHistory(w)]))
  }

  // ---------- Single-statement writes ----------

  function UpsertUserRow(db: Db, id: ID, subject: string, now: Time): Result<Db, Error> {
    if id in db.users then Ok(db.(users := db.users[id := db.users[id].(updatedAt := now)]))
    else if exists other :: other in db.users && db.users[other].subject == subject then Err(Violation)
    else Ok(db.(users := db.users[id := UserRow(subject, now)]))
  }

  function UpsertFeedRow(db: Db, id: ID, details: FeedDetails, seenAt: Time, now: Time): Result<Db, Error> {
    if exists other ::
         other in db.feeds && other != id && db.feeds[other].details.normalizedURL == details.normalizedURL
    then Err(Violation)
    else
      var row := if id in db.feeds
                 then FeedRow(details, Min(db.feeds[id].firstSeen, seenAt), Max(db.feeds[id].lastSeen, seenAt), now)
                 else FeedRow(details, seenAt, seenAt, now);
      Ok(db.(feeds := db.feeds[id := row]))
  }

  /** The two columns a subscription binds, unique together. */
  function Pair(row: SubscriptionRow): (ID, ID) {
    (row.userID, row.feedID)
  }

  function UpsertSubscriptionRow(db: Db, id: ID, row: SubscriptionRow): Result<Db, Error> {
    if id in db.subscriptions then
      var stored := db.subscriptions[id].(disabled := row.disabled, updatedAt := row.updatedAt);
      Ok(db.(subscriptions := db.subscriptions[id := stored]))
    else if row.userID !in db.users || row.feedID !in db.feeds then Err(Violation)
    else if exists other :: other in db.subscriptions && Pair(db.subscriptions[other]) == Pair(row) then Err(Violation)
    else Ok(db.(subscriptions := db.subscriptions[id := row]))
  }

  function UpsertStateRow(db: Db, id: StateID, row: StateRow): Result<Db, Error> {
    if !PositionOk(row.position) then Err(Violation)
    else if id in db.states then Ok(db.(states := db.states[id := row]))
    else if id.userID !in db.users || id.articleID !in db.articles then Err(Violation)
    else Ok(db.(states := db.states[id := row]))
  }
}
