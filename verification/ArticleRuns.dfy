/** What deduplicating articles gives, feed by feed and pass by pass. */
module ArticleRuns {
  import opened Options
  import opened Text
  import opened DedupSpec
  import opened DedupComponents
  import opened DedupIsolation
  import opened DedupIdempotence
  import opened ArticleKeys

  // ---------- Exactly when a feed is isolated ----------

  ghost predicate OnlyFrom(articles: seq<Article>, feeds: set<string>) {
    forall a :: a in articles ==> a.feedID in feeds
  }

  /** Keeping feed `f` of this run is deduplicating feed `f` alone. */
  ghost predicate Isolated(lib: Library, articles: seq<Article>, f: string) {
    var group := FeedGroup(articles, f);
    forall i, j :: 0 <= i < |articles| && 0 <= j < |articles| && group[i] && group[j] ==>
      SameOutcome(KeysOf(lib, articles), group, KeysOf(lib, Filter(articles, group, |articles|)), i, j)
  }

  lemma {:induction false} IsolatedWithoutMeeting(lib: Library, articles: seq<Article>, f: string)
    requires EscapesAndDigests(lib) && f != ""
    requires forall a :: a in articles && a.feedID != f && a.feedID != "" ==> !CanMeet(f, a.feedID)
    ensures Isolated(lib, articles, f)
  {
    var group, key := FeedGroup(articles, f), a => KeysForArticle(lib, a);
    forall m, n | 0 <= m < |articles| && 0 <= n < |articles| && group[m] && !group[n]
      ensures !Shares(key(articles[m]), key(articles[n]))
    {
      var a, b := articles[m], articles[n];
      assert b in articles;
      if b.feedID == "" {
        FeedMeetsFeedsOnly(lib, a, b);
      } else if Shares(KeysForArticle(lib, a), KeysForArticle(lib, b)) {
        MeetingByIdentifier(lib, a, b);
      }
    }
    forall i, j | 0 <= i < |articles| && 0 <= j < |articles| && group[i] && group[j]
      ensures SameOutcome(KeysOf(lib, articles), group, KeysOf(lib, Filter(articles, group, |articles|)), i, j)
    {
      GroupOfArticlesRunsAlone(articles, key, group, i, j);
    }
  }

  lemma {:induction false} SharedIdentifierMerges(ka: Keys, kb: Keys)
    requires ka.identifier == kb.identifier != ""
    ensures VerdictAt([ka], 0) == VerdictAt([ka, kb], 0) == VerdictAt([kb], 0) == Fresh
    ensures VerdictAt([ka, kb], 1) == Merge(0, SourceIdentifier)
  {
    var ks := [ka, kb];
    forall kind, v ensures FirstCarrier(ks, 1, kind, v).Some? ==> FirstCarrier(ks, 1, kind, v).value == 0 {}
    assert FirstCarrier(ks, 1, SourceIdentifier, kb.identifier) == Some(0);
    assert VerdictAt(ks, 0) == Fresh;
  }

  /** Two articles of different feeds that meet are not kept apart. */
  lemma {:induction false} MeetingBreaksIsolation(lib: Library, a: Article, b: Article)
    requires a.feedID != b.feedID
    requires KeysForArticle(lib, a).identifier == KeysForArticle(lib, b).identifier != ""
    ensures !Isolated(lib, [a, b], b.feedID)
  {
    var articles := [a, b];
    var group := FeedGroup(articles, b.feedID);
    var ks := KeysOf(lib, articles);
    assert ks == [KeysForArticle(lib, a), KeysForArticle(lib, b)];
    SharedIdentifierMerges(ks[0], ks[1]);
    assert Filter(articles, group, 1) == [];
    assert Filter(articles, group, 2) == [b];
    assert KeysOf(lib, [b]) == [ks[1]];
    assert Count(group, 1) == 0;
    assert !SameOutcome(ks, group, [ks[1]], 1, 1);
  }

  /** No other of these feeds can meet feed `f`. */
  ghost predicate MeetsNone(f: string, feeds: set<string>) {
    forall g :: g in feeds && g != f && g != "" ==> !CanMeet(f, g)
  }

  /** In every input from these feeds, feed `f` fares as it does alone. */
  ghost predicate AlwaysIsolated(lib: Library, f: string, feeds: set<string>) {
    forall articles :: OnlyFrom(articles, feeds) ==> Isolated(lib, articles, f)
  }

  lemma {:induction false} IsolatedAmong(lib: Library, f: string, feeds: set<string>)
    requires EscapesAndDigests(lib) && f != "" && MeetsNone(f, feeds)
    ensures AlwaysIsolated(lib, f, feeds)
  {
    forall articles | OnlyFrom(articles, feeds) ensures Isolated(lib, articles, f) {
      IsolatedWithoutMeeting(lib, articles, f);
    }
  }

  lemma {:induction false} MeetingPairBreaksIsolation(lib: Library, feeds: set<string>, a: Article, b: Article)
    requires a.feedID in feeds && b.feedID in feeds && a.feedID != b.feedID
    requires KeysForArticle(lib, a).identifier == KeysForArticle(lib, b).identifier != ""
    ensures !AlwaysIsolated(lib, b.feedID, feeds)
  {
    assert OnlyFrom([a, b], feeds);
    MeetingBreaksIsolation(lib, a, b);
  }

  lemma {:induction false} NotIsolatedAmong(lib: Library, f: string, feeds: set<string>, g: string)
    requires f != "" && f in feeds && g in feeds && g != f && g != "" && CanMeet(f, g)
    ensures !AlwaysIsolated(lib, f, feeds)
  {
    var x, y := MeetingArticles(lib, f, g);
    MeetingPairBreaksIsolation(lib, feeds, Bare(g, y), Bare(f, x));
  }

  /**
   Feed `f` fares in every input from these feeds as it does alone exactly when no other of them
   has an ID whose framed text continues that of `f`, or is continued by it, with a normalized token.
   */
  lemma {:induction false} FeedIsolatedExactly(lib: Library, f: string, feeds: set<string>)
    requires EscapesAndDigests(lib) && f != "" && f in feeds
    ensures AlwaysIsolated(lib, f, feeds) <==> MeetsNone(f, feeds)
  {
    if MeetsNone(f, feeds) {
      IsolatedAmong(lib, f, feeds);
    } else {
      var g :| g in feeds && g != f && g != "" && CanMeet(f, g);
      NotIsolatedAmong(lib, f, feeds, g);
    }
  }

  lemma {:induction false} PlainWordIsFixed(w: string)
    requires w != "" && forall i :: 0 <= i < |w| ==> !IsSpace(w[i]) && !IsUpper(w[i])
    ensures NormalizeToken(w) == w
  {
    TokensExactly(w);
  }

  lemma {:induction false} IdentifierKey(lib: Library, a: Article)
    requires a.feedID != "" && NormalizeToken(a.identifier) != ""
    ensures KeysForArticle(lib, a).identifier == "feed:" + a.feedID + "|id|" + NormalizeToken(a.identifier)
  {
  }

  lemma {:induction false} BarTextsCollide()
    ensures "feed:" + "a" + "|id|" + "x|id|y" == "feed:" + "a|id|x" + "|id|" + "y"
  {
  }

  lemma {:induction false} BarKeysCollide(lib: Library, a: Article, b: Article)
    requires a.feedID == "a" && NormalizeToken(a.identifier) == "x|id|y"
    requires b.feedID == "a|id|x" && NormalizeToken(b.identifier) == "y"
    ensures KeysForArticle(lib, a).identifier == KeysForArticle(lib, b).identifier != ""
  {
    IdentifierKey(lib, a);
    IdentifierKey(lib, b);
    BarTextsCollide();
  }

  lemma {:induction false} TwoKeys(lib: Library, a: Article, b: Article)
    ensures KeysOf(lib, [a, b]) == [KeysForArticle(lib, a), KeysForArticle(lib, b)]
    ensures KeysOf(lib, [b]) == [KeysForArticle(lib, b)]
  {
  }

  /** The feeds `a` and `a|id|x` are not kept apart: of these two articles the second merges into the first. */
  lemma {:induction false} BarInFeedIDBreaksIsolation(lib: Library, a: Article, b: Article)
    requires a.feedID == "a" && a.identifier == "x|id|y" && b.feedID == "a|id|x" && b.identifier == "y"
    ensures VerdictAt(KeysOf(lib, [a, b]), 1) == Merge(0, SourceIdentifier)
    ensures VerdictAt(KeysOf(lib, [b]), 0) == Fresh
    ensures !Isolated(lib, [a, b], b.feedID)
  {
    PlainWordIsFixed("x|id|y");
    PlainWordIsFixed("y");
    BarKeysCollide(lib, a, b);
    SharedIdentifierMerges(KeysForArticle(lib, a), KeysForArticle(lib, b));
    TwoKeys(lib, a, b);
    assert a.feedID != b.feedID;
    MeetingBreaksIsolation(lib, a, b);
  }

  // ---------- Exactly when deduplicating twice is deduplicating once ----------

  /** The articles a run retains. */
  function Kept(lib: Library, articles: seq<Article>): seq<Article> {
    Uniques(articles, KeysOf(lib, articles), |articles|)
  }

  lemma {:induction false} KeysOfUniques<A>(xs: seq<A>, key: A -> Keys, n: nat)
    requires n <= |xs|
    ensures MapKeys(Uniques(xs, MapKeys(xs, key), n), key) == Uniques(MapKeys(xs, key), MapKeys(xs, key), n)
  {
    if n > 0 {
      KeysOfUniques(xs, key, n - 1);
    }
  }

  /** A second pass over the retained articles returns them and reports nothing. */
  ghost predicate SecondPassChangesNothing(lib: Library, articles: seq<Article>) {
    var kept := Kept(lib, articles);
    Kept(lib, kept) == kept && Matches(KeysOf(lib, kept), |kept|) == []
  }

  lemma {:induction false} PassOnArticles(lib: Library, articles: seq<Article>)
    ensures KeysOf(lib, Kept(lib, articles)) == RetainedKeys(KeysOf(lib, articles))
    ensures SecondPassChangesNothing(lib, articles) <==> PassChangesNothing(RetainedKeys(KeysOf(lib, articles)))
  {
    var kept, rs := Kept(lib, articles), RetainedKeys(KeysOf(lib, articles));
    KeysOfUniques(articles, a => KeysForArticle(lib, a), |articles|);
    PassChangesNothingExactly(rs);
    if AllRetained(rs) {
      AllRetainedKeepsInput(kept, rs, |rs|);
      assert kept[..|rs|] == kept;
    } else {
      var i :| 0 <= i < |rs| && !Retained(rs, i);
      OutputsPartitionInput(rs, rs, i);
    }
  }

  /**
   Deduplicating articles twice is deduplicating them once exactly when no article that met a
   conflict would merge if only retained articles owned keys.
   */
  lemma {:induction false} DeduplicatingTwiceExactly(lib: Library, articles: seq<Article>)
    ensures var ks := KeysOf(lib, articles);
      SecondPassChangesNothing(lib, articles) <==>
        forall i :: 0 <= i < |ks| && VerdictAt(ks, i).Conflict? ==> !Resolve(KeptCarriers(ks, i)).Merge?
  {
    PassOnArticles(lib, articles);
    IdempotentExactly(KeysOf(lib, articles));
  }

  lemma {:induction false} FourKeys(lib: Library, a: Article, b: Article, c: Article, d: Article)
    ensures KeysOf(lib, [a, b, c, d]) ==
      [KeysForArticle(lib, a), KeysForArticle(lib, b), KeysForArticle(lib, c), KeysForArticle(lib, d)]
  {
    EachMapped([a, b, c, d], x => KeysForArticle(lib, x));
  }

  lemma {:induction false} EachMapped<A>(xs: seq<A>, key: A -> Keys)
    requires |xs| == 4
    ensures MapKeys(xs, key) == [key(xs[0]), key(xs[1]), key(xs[2]), key(xs[3])]
  {
  }

  /** An article of this feed with an identifier, a URL and no title, so without a fingerprint. */
  ghost predicate LinkOnly(lib: Library, a: Article, f: string) {
    && a.feedID == f
    && NormalizeToken(a.identifier) != "" && NormalizeArticleURL(lib, a.url) != "" && NormalizeToken(a.title) == ""
  }

  lemma {:induction false} LinkOnlyKeys(lib: Library, a: Article, f: string)
    requires f != "" && LinkOnly(lib, a, f)
    ensures KeysForArticle(lib, a) ==
      Keys("feed:" + f + "|id|" + NormalizeToken(a.identifier),
           "feed:" + f + "|url|" + NormalizeArticleURL(lib, a.url), "")
  {
  }

  /** Articles of one feed have the same identifier key, or URL key, exactly when the values agree. */
  lemma {:induction false} SameKeysExactly(lib: Library, a: Article, b: Article, f: string)
    requires f != "" && LinkOnly(lib, a, f) && LinkOnly(lib, b, f)
    ensures var ka, kb := KeysForArticle(lib, a), KeysForArticle(lib, b);
      && ka.identifier != "" && ka.url != "" && ka.fingerprint == ""
      && (ka.identifier == kb.identifier <==> NormalizeToken(a.identifier) == NormalizeToken(b.identifier))
      && (ka.url == kb.url <==> NormalizeArticleURL(lib, a.url) == NormalizeArticleURL(lib, b.url))
  {
    LinkOnlyKeys(lib, a, f);
    LinkOnlyKeys(lib, b, f);
    PrefixKeepsApart("feed:" + f + "|id|", NormalizeToken(a.identifier), NormalizeToken(b.identifier));
    PrefixKeepsApart("feed:" + f + "|url|", NormalizeArticleURL(lib, a.url), NormalizeArticleURL(lib, b.url));
  }

  lemma {:induction false} PrefixKeepsApart(prefix: string, x: string, y: string)
    ensures prefix + x == prefix + y <==> x == y
  {
    assert (prefix + x)[|prefix|..] == x && (prefix + y)[|prefix|..] == y;
  }

  lemma {:induction false} AliasLostOnArticles(lib: Library, a: Article, b: Article, c: Article, d: Article)
    requires var ka, kb, kc, kd :=
        KeysForArticle(lib, a), KeysForArticle(lib, b), KeysForArticle(lib, c), KeysForArticle(lib, d);
      && "" !in {ka.identifier, kb.identifier, kc.identifier, ka.url, kc.url}
      && ka.identifier != kb.identifier && kb.identifier != kc.identifier && kc.identifier != ka.identifier
      && ka.url != kc.url && kb == Keys(kb.identifier, ka.url, "") && kd == Keys(kb.identifier, kc.url, "")
      && ka.fingerprint == kc.fingerprint == ""
    ensures !SecondPassChangesNothing(lib, [a, b, c, d])
  {
    var ka, kb, kc := KeysForArticle(lib, a), KeysForArticle(lib, b), KeysForArticle(lib, c);
    FourKeys(lib, a, b, c, d);
    assert KeysOf(lib, [a, b, c, d]) == AliasLost(ka.identifier, kb.identifier, kc.identifier, ka.url, kc.url);
    PassOnArticles(lib, [a, b, c, d]);
    AliasLostMerges(ka.identifier, kb.identifier, kc.identifier, ka.url, kc.url);
  }

  /**
   Deduplication is not idempotent in general. Of these four articles of a feed the second has the
   first one's URL and the last one's identifier, and the third has the last one's URL: the last
   meets a conflict and stays, and a second pass, not knowing the second, merges it into the third.
   */
  lemma {:induction false} NotIdempotent(lib: Library, f: string, a: Article, b: Article, c: Article, d: Article)
    requires f != "" && LinkOnly(lib, a, f) && LinkOnly(lib, b, f) && LinkOnly(lib, c, f) && LinkOnly(lib, d, f)
    requires var x, y, z := NormalizeToken(a.identifier), NormalizeToken(b.identifier), NormalizeToken(c.identifier);
      x != y && y != z && z != x && NormalizeToken(d.identifier) == y
    requires var u, v := NormalizeArticleURL(lib, a.url), NormalizeArticleURL(lib, c.url);
      u != v && NormalizeArticleURL(lib, b.url) == u && NormalizeArticleURL(lib, d.url) == v
    ensures !SecondPassChangesNothing(lib, [a, b, c, d])
  {
    SameKeysExactly(lib, a, b, f);
    SameKeysExactly(lib, b, c, f);
    SameKeysExactly(lib, c, a, f);
    SameKeysExactly(lib, b, d, f);
    SameKeysExactly(lib, d, c, f);
    AliasLostOnArticles(lib, a, b, c, d);
  }
}
