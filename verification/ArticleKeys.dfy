/** How an article's keys are built, when keys of different feeds can meet, and what they identify. */
module ArticleKeys {
  import opened Options
  import opened Text
  import opened DedupSpec
  import opened DedupComponents
  import opened DedupIsolation
  import UrlNormalization

  type URL = UrlNormalization.URL

  /** The fields of an article that deduplication reads. Times are instants. */
  datatype Article = Article(feedID: string, identifier: string, url: string, title: string, author: string,
                             publishedAt: Option<int>, summary: string, content: string, sourceURL: string)

  /** The library functions the code calls and this model leaves open. */
  datatype Library = Library(parseURL: string -> Option<URL>, printURL: URL -> string,
                             sha256Hex: string -> string, formatUTC: int -> string)

  function NormalizeToken(value: string): string {
    ToLower(Join(Fields(value), " "))
  }

  function NormalizeContent(value: string): string {
    Join(Fields(value), " ")
  }

  function NormalizeArticleURL(lib: Library, raw: string): string {
    if Blank(raw) then ""
    else match lib.parseURL(TrimSpace(raw))
      case None => ""
      case Some(u) =>
        match UrlNormalization.Normalize(u)
        case None => ""
        case Some(v) => lib.printURL(v)
  }

  function SourceScope(lib: Library, a: Article): string {
    if a.feedID != "" then "feed:" + a.feedID
    else if NormalizeArticleURL(lib, a.sourceURL) != "" then "source:" + NormalizeArticleURL(lib, a.sourceURL)
    else ""
  }

  /** The four normalized components that are hashed, joined by newlines. */
  datatype Parts = Parts(title: string, author: string, published: string, content: string) {
    function Text(): string {
      Join([title, author, published, content], "\n")
    }
  }

  /** The components of a fingerprint, when there is enough evidence for one. */
  function FingerprintParts(lib: Library, a: Article): Option<Parts> {
    var content := NormalizeContent(if Blank(a.content) then a.summary else a.content);
    if NormalizeToken(a.title) == "" || a.publishedAt.None? || content == "" then None
    else Some(Parts(NormalizeToken(a.title), NormalizeToken(a.author), lib.formatUTC(a.publishedAt.value), content))
  }

  function ContentFingerprintOf(lib: Library, a: Article): string {
    match FingerprintParts(lib, a)
    case None => ""
    case Some(parts) => lib.sha256Hex(parts.Text())
  }

  function KeysForArticle(lib: Library, a: Article): Keys {
    FrameKeys(SourceScope(lib, a), NormalizeToken(a.identifier), NormalizeArticleURL(lib, a.url),
              ContentFingerprintOf(lib, a))
  }

  /** Puts the scope in front of each value there is; without a scope there are no keys. */
  function FrameKeys(scope: string, id: string, url: string, fingerprint: string): Keys {
    if scope == "" then Keys("", "", "")
    else Keys(if id != "" then scope + "|id|" + id else "",
              if url != "" then scope + "|url|" + url else "",
              if fingerprint != "" then scope + "|content|" + fingerprint else "")
  }

  function KeysOf(lib: Library, articles: seq<Article>): (ks: seq<Keys>)
    ensures |ks| == |articles|
  {
    MapKeys(articles, a => KeysForArticle(lib, a))
  }

  // ---------- Normalized tokens ----------

  predicate IsToken(s: string) {
    s != "" && SingleSpaced(s) && forall i :: 0 <= i < |s| ==> !IsUpper(s[i])
  }

  /** Tokens are exactly the non-empty values token normalization produces and leaves alone. */
  lemma {:induction false} TokensExactly(value: string)
    ensures NormalizeToken(value) == "" || IsToken(NormalizeToken(value))
    ensures IsToken(value) <==> value != "" && NormalizeToken(value) == value
    ensures NormalizeToken(NormalizeToken(value)) == NormalizeToken(value)
  {
    TokenShape(value);
    var t := NormalizeToken(value);
    TokenShape(t);
    if t != "" { TokenIsFixed(t); }
    if IsToken(value) { TokenIsFixed(value); }
  }

  lemma {:induction false} TokenShape(value: string)
    ensures NormalizeToken(value) == "" || IsToken(NormalizeToken(value))
  {
    var joined := Join(Fields(value), " ");
    FieldsAreWords(value);
    JoinedIsSingleSpaced(Fields(value));
    var t := ToLower(joined);
    assert forall i :: 0 <= i < |t| ==> t[i] == LowerChar(joined[i]);
    forall i | 0 <= i < |t| ensures SingleSpaceAt(t, i) {
      assert SingleSpaceAt(joined, i);
    }
    assert forall i :: 0 <= i < |t| && IsSpace(joined[i]) ==> t[i] == joined[i];
  }

  lemma {:induction false} TokenIsFixed(value: string)
    requires IsToken(value)
    ensures NormalizeToken(value) == value
  {
    SingleSpacedIsFixed(value);
  }

  // ---------- Keys of different scopes ----------

  /** Every key of an article starts with its scope and a bar. */
  lemma {:induction false} KeyStartsWithScope(scope: string, id: string, url: string, fingerprint: string, kind: Reason)
    returns (rest: string)
    requires FrameKeys(scope, id, url, fingerprint).Get(kind) != ""
    ensures scope != "" && FrameKeys(scope, id, url, fingerprint).Get(kind) == scope + ['|'] + rest
  {
    match kind {
      case SourceIdentifier => rest := "id|" + id;
      case NormalizedURL => rest := "url|" + url;
      case ContentFingerprint => rest := "content|" + fingerprint;
    }
    assert FrameKeys(scope, id, url, fingerprint).Get(kind) == scope + ['|'] + rest;
  }

  lemma {:induction false} ScopeText(lib: Library, a: Article)
    requires SourceScope(lib, a) != ""
    ensures SourceScope(lib, a)[0] == if a.feedID != "" then 'f' else 's'
    ensures a.feedID != "" ==> SourceScope(lib, a)[5..] == a.feedID
    ensures '|' !in a.feedID && a.feedID != "" ==> '|' !in SourceScope(lib, a)
  {
  }

  /** Two articles of different feeds whose IDs hold no bar never share a key. */
  lemma {:induction false} FeedsShareNoKey(lib: Library, a: Article, b: Article)
    requires a.feedID != "" && b.feedID != a.feedID && '|' !in a.feedID && '|' !in b.feedID
    ensures !Shares(KeysForArticle(lib, a), KeysForArticle(lib, b))
  {
    var ka, kb := KeysForArticle(lib, a), KeysForArticle(lib, b);
    forall kind | ka.Get(kind) != "" && kb.Get(kind) != "" ensures ka.Get(kind) != kb.Get(kind) {
      if SourceScope(lib, a) != "" && SourceScope(lib, b) != "" {
        ScopeText(lib, a);
        ScopeText(lib, b);
      }
      KeysDiffer(lib, a, b, kind);
    }
  }

  /** Nor do two articles of different scopes, by feed ID or by source URL, that hold no bar. */
  lemma {:induction false} ScopesShareNoKey(lib: Library, a: Article, b: Article)
    requires SourceScope(lib, a) != SourceScope(lib, b)
    requires '|' !in SourceScope(lib, a) && '|' !in SourceScope(lib, b)
    ensures !Shares(KeysForArticle(lib, a), KeysForArticle(lib, b))
  {
    var ka, kb := KeysForArticle(lib, a), KeysForArticle(lib, b);
    forall kind | ka.Get(kind) != "" && kb.Get(kind) != "" ensures ka.Get(kind) != kb.Get(kind) {
      KeysDiffer(lib, a, b, kind);
    }
  }

  lemma {:induction false} KeysDiffer(lib: Library, a: Article, b: Article, kind: Reason)
    requires KeysForArticle(lib, a).Get(kind) != "" && KeysForArticle(lib, b).Get(kind) != ""
    requires var sa, sb := SourceScope(lib, a), SourceScope(lib, b);
      sa != "" && sb != "" ==> sa != sb && '|' !in sa && (sa[0] == sb[0] ==> '|' !in sb)
    ensures KeysForArticle(lib, a).Get(kind) != KeysForArticle(lib, b).Get(kind)
  {
    var x := KeyStartsWithScope(SourceScope(lib, a), NormalizeToken(a.identifier), NormalizeArticleURL(lib, a.url),
                                ContentFingerprintOf(lib, a), kind);
    var y := KeyStartsWithScope(SourceScope(lib, b), NormalizeToken(b.identifier), NormalizeArticleURL(lib, b.url),
                                ContentFingerprintOf(lib, b), kind);
    ScopedTextsDiffer(SourceScope(lib, a), SourceScope(lib, b), x, y);
  }

  lemma {:induction false} ScopedTextsDiffer(sa: string, sb: string, x: string, y: string)
    requires sa != "" && sb != "" && '|' !in sa && sa != sb && (sa[0] == sb[0] ==> '|' !in sb)
    ensures sa + ['|'] + x != sb + ['|'] + y
  {
    var ta, tb := sa + ['|'] + x, sb + ['|'] + y;
    assert ta[0] == sa[0] && tb[0] == sb[0];
    if ta == tb {
      CutUnique(sa, sb, '|', x, y);
    }
  }

  /**
   Deduplicating many feeds at once does to the articles of feed `f` what deduplicating them
   alone does, up to a monotone renumbering, when no feed ID holds a bar.
   */
  lemma {:induction false} FeedRunsAlone(lib: Library, articles: seq<Article>, f: string, i: nat, j: nat)
    requires f != "" && forall k :: 0 <= k < |articles| ==> '|' !in articles[k].feedID
    requires i < |articles| && j < |articles| && articles[i].feedID == f == articles[j].feedID
    ensures SameOutcome(KeysOf(lib, articles), FeedGroup(articles, f),
                        KeysOf(lib, Filter(articles, FeedGroup(articles, f), |articles|)), i, j)
  {
    var group, key := FeedGroup(articles, f), a => KeysForArticle(lib, a);
    forall m, n | 0 <= m < |articles| && 0 <= n < |articles| && group[m] && !group[n]
      ensures !Shares(key(articles[m]), key(articles[n]))
    {
      FeedsShareNoKey(lib, articles[m], articles[n]);
    }
    GroupOfArticlesRunsAlone(articles, key, group, i, j);
  }

  /** The same for the articles of one scope, when no scope holds a bar. */
  lemma {:induction false} ScopeRunsAlone(lib: Library, articles: seq<Article>, scope: string, i: nat, j: nat)
    requires forall k :: 0 <= k < |articles| ==> '|' !in SourceScope(lib, articles[k])
    requires i < |articles| && j < |articles|
    requires SourceScope(lib, articles[i]) == scope == SourceScope(lib, articles[j])
    ensures SameOutcome(KeysOf(lib, articles), ScopeGroup(lib, articles, scope),
                        KeysOf(lib, Filter(articles, ScopeGroup(lib, articles, scope), |articles|)), i, j)
  {
    var group, key := ScopeGroup(lib, articles, scope), a => KeysForArticle(lib, a);
    forall m, n | 0 <= m < |articles| && 0 <= n < |articles| && group[m] && !group[n]
      ensures !Shares(key(articles[m]), key(articles[n]))
    {
      ScopesShareNoKey(lib, articles[m], articles[n]);
    }
    GroupOfArticlesRunsAlone(articles, key, group, i, j);
  }

  function ScopeGroup(lib: Library, articles: seq<Article>, scope: string): (group: seq<bool>)
    ensures |group| == |articles|
  {
    seq(|articles|, k requires 0 <= k < |articles| => SourceScope(lib, articles[k]) == scope)
  }

  function FeedGroup(articles: seq<Article>, f: string): (group: seq<bool>)
    ensures |group| == |articles|
  {
    seq(|articles|, k requires 0 <= k < |articles| => articles[k].feedID == f)
  }

  /** An article without a source scope is always retained, and nothing merges into it. */
  lemma {:induction false} UnscopedIsRetained(lib: Library, articles: seq<Article>, i: nat, j: nat)
    requires i < |articles| && j < |articles| && SourceScope(lib, articles[i]) == ""
    ensures Retained(KeysOf(lib, articles), i)
    ensures i != j ==> Root(KeysOf(lib, articles), j) != i
  {
    var ks := KeysOf(lib, articles);
    assert ks[i] == Keys("", "", "");
    assert EvidenceAt(ks, i) == Evidence(None, None, None);
    if i != j { UnscopedIsNoRoot(ks, i, j); }
  }

  lemma {:induction false} UnscopedIsNoRoot(ks: seq<Keys>, i: nat, j: nat)
    requires i < |ks| && j < |ks| && ks[i] == Keys("", "", "") && i != j
    ensures Root(ks, j) != i
    decreases j
  {
    if VerdictAt(ks, j).Merge? {
      var k := MergeWitness(ks, j);
      if k != i { UnscopedIsNoRoot(ks, i, k); }
    }
  }

  // ---------- Exactly which scopes can collide ----------

  /** What the longer of two framed scopes adds to the shorter one. */
  predicate FrameExtends(s: string, t: string) {
    |s| < |t| && s + "|id|" <= t + "|id|" && IsToken((t + "|id|")[|s| + 4..])
  }

  lemma {:induction false} TokenBeforeToken(u: string, y: string)
    requires u != "" && u[|u| - 1] == '|' && IsToken(y)
    ensures IsToken(u + y) <==> IsToken(u)
  {
    var x := u + y;
    assert forall i :: 0 <= i < |u| ==> x[i] == u[i];
    assert forall i :: |u| <= i < |x| ==> x[i] == y[i - |u|];
    if IsToken(x) {
      forall i | 0 <= i < |u| ensures SingleSpaceAt(u, i) {
        assert SingleSpaceAt(x, i);
      }
    }
    if IsToken(u) {
      forall i | 0 <= i < |x| ensures SingleSpaceAt(x, i) {
        if i < |u| { assert SingleSpaceAt(u, i); } else { assert SingleSpaceAt(y, i - |u|); }
      }
    }
  }

  lemma {:induction false} CollisionNeedsExtension(s: string, t: string, x: string, y: string)
    requires |s| < |t| && IsToken(x) && IsToken(y) && s + "|id|" + x == t + "|id|" + y
    ensures FrameExtends(s, t)
  {
    var fs, ft := s + "|id|", t + "|id|";
    assert fs == (fs + x)[..|fs|] && ft == (ft + y)[..|ft|];
    assert fs <= ft;
    var u := ft[|fs|..];
    assert x == (fs + x)[|fs|..] && ft == fs + u;
    assert x == u + y;
    assert u[|u| - 1] == ft[|ft| - 1] == '|';
    TokenBeforeToken(u, y);
  }

  lemma {:induction false} ExtensionCollides(s: string, t: string)
    requires FrameExtends(s, t)
    ensures IsToken((t + "|id|")[|s| + 4..] + "0") && IsToken("0")
    ensures s + "|id|" + ((t + "|id|")[|s| + 4..] + "0") == t + "|id|" + "0"
  {
    var fs, ft := s + "|id|", t + "|id|";
    var u := ft[|fs|..];
    assert ft == fs + u;
    assert u[|u| - 1] == ft[|ft| - 1] == '|';
    TokenBeforeToken(u, "0");
  }

  /**
   Different scopes can give the same identifier key to some pair of articles exactly when the
   framed text of one continues the framed text of the other with a normalized token.
   */
  lemma {:induction false} IdentifierKeysCollideExactly(s: string, t: string)
    requires s != t
    ensures (exists x, y :: IsToken(x) && IsToken(y) && s + "|id|" + x == t + "|id|" + y)
        <==> FrameExtends(s, t) || FrameExtends(t, s)
  {
    if x, y :| IsToken(x) && IsToken(y) && s + "|id|" + x == t + "|id|" + y {
      assert (s + "|id|" + x)[..|s|] == s && (t + "|id|" + y)[..|t|] == t;
      if |s| < |t| {
        CollisionNeedsExtension(s, t, x, y);
      } else if |t| < |s| {
        CollisionNeedsExtension(t, s, y, x);
      }
    }
    if FrameExtends(s, t) { ExtensionCollides(s, t); }
    if FrameExtends(t, s) { ExtensionCollides(t, s); }
  }

  // ---------- Exactly which feeds can meet ----------

  /**
   What is known of the library here: a printed URL escapes the bar and a hostname cannot hold it,
   and a SHA-256 digest has 64 hexadecimal digits.
   */
  ghost predicate EscapesAndDigests(lib: Library) {
    && (forall raw :: '|' !in NormalizeArticleURL(lib, raw))
    && (forall text {:trigger lib.sha256Hex(text)} :: |lib.sha256Hex(text)| == 64)
  }

  /** A text is cut at its last bar in one way only. */
  lemma {:induction false} LastBarUnique(p: string, q: string, x: string, y: string)
    requires '|' !in x && '|' !in y && p + ['|'] + x == q + ['|'] + y
    ensures p == q && x == y
  {
    var s, t := p + ['|'] + x, q + ['|'] + y;
    assert s[|p|] == '|' && t[|q|] == '|';
    assert forall i :: |p| < i < |s| ==> s[i] == x[i - |p| - 1];
    assert forall i :: |q| < i < |t| ==> t[i] == y[i - |q| - 1];
    assert |p| == |q|;
    assert p == s[..|p|] && q == t[..|q|];
    assert x == s[|p| + 1..] && y == t[|q| + 1..];
  }

  lemma {:induction false} URLKeysKeepScopes(s: string, t: string, x: string, y: string)
    requires '|' !in x && '|' !in y && s + "|url|" + x == t + "|url|" + y
    ensures s == t
  {
    var p, q := s + "|url", t + "|url";
    assert s + "|url|" + x == p + ['|'] + x && t + "|url|" + y == q + ['|'] + y;
    LastBarUnique(p, q, x, y);
    assert s == p[..|p| - 4] && t == q[..|q| - 4];
  }

  lemma {:induction false} ContentKeysKeepScopes(s: string, t: string, x: string, y: string)
    requires |x| == |y| && s + "|content|" + x == t + "|content|" + y
    ensures s == t
  {
    assert s == (s + "|content|" + x)[..|s|] && t == (t + "|content|" + y)[..|t|];
  }

  /** Whatever the scopes hold, articles of different scopes can share identifier keys only. */
  lemma {:induction false} OnlyIdentifiersMeet(lib: Library, a: Article, b: Article, kind: Reason)
    requires EscapesAndDigests(lib) && SourceScope(lib, a) != SourceScope(lib, b)
    requires KeysForArticle(lib, a).Get(kind) == KeysForArticle(lib, b).Get(kind) != ""
    ensures kind.SourceIdentifier?
  {
    var s, t := SourceScope(lib, a), SourceScope(lib, b);
    if kind.NormalizedURL? {
      URLKeysKeepScopes(s, t, NormalizeArticleURL(lib, a.url), NormalizeArticleURL(lib, b.url));
    } else if kind.ContentFingerprint? {
      ContentKeysKeepScopes(s, t, ContentFingerprintOf(lib, a), ContentFingerprintOf(lib, b));
    }
  }

  /** The scope text of one feed, framed, continues that of the other with a normalized token. */
  predicate CanMeet(f: string, g: string) {
    FrameExtends("feed:" + f, "feed:" + g) || FrameExtends("feed:" + g, "feed:" + f)
  }

  /** Feed IDs without a bar never meet, so this covers the common case. */
  lemma {:induction false} BarFreeNeverMeet(f: string, g: string)
    requires '|' !in f && '|' !in g
    ensures !CanMeet(f, g)
  {
    BarFreeNeverExtends("feed:" + f, "feed:" + g);
    BarFreeNeverExtends("feed:" + g, "feed:" + f);
  }

  lemma {:induction false} BarFreeNeverExtends(s: string, t: string)
    requires '|' !in t
    ensures !FrameExtends(s, t)
  {
    if |s| < |t| {
      assert t[|s|] in t;
      assert (t + "|id|")[|s|] != (s + "|id|")[|s|];
    }
  }

  /** Articles of two feeds that meet share their identifier key. */
  lemma {:induction false} MeetingByIdentifier(lib: Library, a: Article, b: Article)
    requires EscapesAndDigests(lib) && a.feedID != "" && b.feedID != "" && a.feedID != b.feedID
    requires Shares(KeysForArticle(lib, a), KeysForArticle(lib, b))
    ensures KeysForArticle(lib, a).identifier == KeysForArticle(lib, b).identifier != ""
    ensures CanMeet(a.feedID, b.feedID)
  {
    var ka, kb := KeysForArticle(lib, a), KeysForArticle(lib, b);
    ScopeText(lib, a);
    ScopeText(lib, b);
    var kind :| ka.Get(kind) != "" && ka.Get(kind) == kb.Get(kind);
    OnlyIdentifiersMeet(lib, a, b, kind);
    var x, y := NormalizeToken(a.identifier), NormalizeToken(b.identifier);
    TokenShape(a.identifier);
    TokenShape(b.identifier);
    assert IsToken(x) && IsToken(y);
    assert SourceScope(lib, a) + "|id|" + x == SourceScope(lib, b) + "|id|" + y;
    IdentifierKeysCollideExactly(SourceScope(lib, a), SourceScope(lib, b));
  }

  lemma {:induction false} KeyStartsLikeScope(lib: Library, a: Article, kind: Reason)
    requires KeysForArticle(lib, a).Get(kind) != ""
    ensures SourceScope(lib, a) != "" && KeysForArticle(lib, a).Get(kind)[0] == SourceScope(lib, a)[0]
  {
  }

  /** A feed never meets articles that are scoped by source URL or not at all. */
  lemma {:induction false} FeedMeetsFeedsOnly(lib: Library, a: Article, b: Article)
    requires a.feedID != "" && b.feedID == ""
    ensures !Shares(KeysForArticle(lib, a), KeysForArticle(lib, b))
  {
    var ka, kb := KeysForArticle(lib, a), KeysForArticle(lib, b);
    forall kind | ka.Get(kind) != "" && kb.Get(kind) != "" ensures ka.Get(kind) != kb.Get(kind) {
      KeyStartsLikeScope(lib, a, kind);
      KeyStartsLikeScope(lib, b, kind);
      ScopeText(lib, a);
      ScopeText(lib, b);
    }
  }

  /** An article of which only the feed and the identifier are set. */
  function Bare(feedID: string, identifier: string): Article {
    Article(feedID, identifier, "", "", "", None, "", "", "")
  }

  lemma {:induction false} BareKeys(lib: Library, feedID: string, identifier: string)
    requires feedID != "" && IsToken(identifier)
    ensures KeysForArticle(lib, Bare(feedID, identifier)) == Keys("feed:" + feedID + "|id|" + identifier, "", "")
  {
    TokensExactly(identifier);
  }

  lemma {:induction false} MeetingArticles(lib: Library, f: string, g: string) returns (x: string, y: string)
    requires f != "" && g != "" && f != g && CanMeet(f, g)
    ensures IsToken(x) && IsToken(y)
    ensures KeysForArticle(lib, Bare(f, x)) == KeysForArticle(lib, Bare(g, y))
    ensures KeysForArticle(lib, Bare(f, x)).identifier != ""
  {
    var s, t := "feed:" + f, "feed:" + g;
    assert s != t by { assert f == s[5..] && g == t[5..]; }
    IdentifierKeysCollideExactly(s, t);
    x, y :| IsToken(x) && IsToken(y) && s + "|id|" + x == t + "|id|" + y;
    BareKeys(lib, f, x);
    BareKeys(lib, g, y);
  }

  /** These articles of the two feeds have a key in common. */
  ghost predicate MeetAt(lib: Library, f: string, g: string, a: Article, b: Article) {
    a.feedID == f && b.feedID == g && Shares(KeysForArticle(lib, a), KeysForArticle(lib, b))
  }

  /**
   Some article of feed `f` and some article of feed `g` have a key of any kind in common exactly
   when the framed text of one feed continues that of the other with a normalized token.
   */
  lemma {:induction false} FeedsShareKeysExactly(lib: Library, f: string, g: string)
    requires EscapesAndDigests(lib) && f != "" && g != "" && f != g
    ensures (exists a, b :: MeetAt(lib, f, g, a, b)) <==> CanMeet(f, g)
  {
    if a, b :| MeetAt(lib, f, g, a, b) {
      MeetingByIdentifier(lib, a, b);
    }
    if CanMeet(f, g) {
      var x, y := MeetingArticles(lib, f, g);
      var a, b := Bare(f, x), Bare(g, y);
      assert KeysForArticle(lib, a).Get(SourceIdentifier) == KeysForArticle(lib, b).Get(SourceIdentifier);
      assert MeetAt(lib, f, g, a, b);
    }
  }

  // ---------- Fingerprints ----------

  lemma {:induction false} NormalizedHasNoNewline(value: string)
    ensures '\n' !in NormalizeToken(value) && '\n' !in NormalizeContent(value)
  {
    FieldsAreWords(value);
    JoinedIsSingleSpaced(Fields(value));
    var joined := Join(Fields(value), " ");
    assert forall i :: 0 <= i < |joined| ==> joined[i] != '\n' && LowerChar(joined[i]) != '\n';
  }

  lemma {:induction false} JoinInjective(a: seq<string>, b: seq<string>, c: char)
    requires |a| == |b| && (forall w :: w in a ==> c !in w) && (forall w :: w in b ==> c !in w)
    requires Join(a, [c]) == Join(b, [c])
    ensures a == b
  {
    if |a| > 1 {
      assert c !in a[0] && c !in b[0];
      CutUnique(a[0], b[0], c, Join(a[1..], [c]), Join(b[1..], [c]));
      JoinInjective(a[1..], b[1..], c);
      assert a == [a[0]] + a[1..] && b == [b[0]] + b[1..];
    }
  }
}
