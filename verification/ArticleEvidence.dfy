/** Which keys two articles of one scope have in common, told from the fields of the articles. */
module ArticleEvidence {
  import opened Options
  import opened Text
  import opened TextLaws
  import opened DedupSpec
  import opened DedupComponents
  import opened ArticleKeys
  import QueryString
  import UrlNormalization

  // ---------- Normalized texts ----------

  /** The same words in the same order, letter cases aside. */
  predicate SameWordsUpToCase(x: string, y: string) {
    && |Fields(x)| == |Fields(y)|
    && forall i :: 0 <= i < |Fields(x)| ==> SameUpToCase(Fields(x)[i], Fields(y)[i])
  }

  lemma {:induction false} NoWordsExactly(x: string)
    ensures Fields(x) == [] <==> AllSpace(x)
  {
    if x != "" {
      SpaceExactly(x[0]);
      if IsSpace(x[0]) {
        NoWordsExactly(x[1..]);
        assert forall i :: 0 < i < |x| ==> x[i] == x[1..][i - 1];
      }
    }
  }

  lemma {:induction false} JoinedIsEmptyExactly(x: string)
    ensures Join(Fields(x), " ") == "" <==> AllSpace(x)
  {
    FieldsAreWords(x);
    JoinedIsSingleSpaced(Fields(x));
    NoWordsExactly(x);
  }

  /** Content normalization keeps exactly the words. */
  lemma {:induction false} ContentsExactly(x: string, y: string)
    ensures NormalizeContent(x) == NormalizeContent(y) <==> Fields(x) == Fields(y)
    ensures NormalizeContent(x) == "" <==> AllSpace(x)
  {
    FieldsAreWords(x);
    FieldsAreWords(y);
    FieldsOfJoin(Fields(x));
    FieldsOfJoin(Fields(y));
    JoinedIsEmptyExactly(x);
  }

  function LowerAll(ws: seq<string>): (ls: seq<string>)
    ensures |ls| == |ws|
  {
    if ws == [] then [] else [ToLower(ws[0])] + LowerAll(ws[1..])
  }

  lemma {:induction false} LowerAllAt(ws: seq<string>, i: nat)
    requires i < |ws|
    ensures LowerAll(ws)[i] == ToLower(ws[i])
  {
    if i > 0 { LowerAllAt(ws[1..], i - 1); }
  }

  lemma {:induction false} LowerSplits(a: string, b: string)
    ensures ToLower(a + b) == ToLower(a) + ToLower(b)
  {
  }

  lemma {:induction false} LowerOfJoin(ws: seq<string>)
    ensures ToLower(Join(ws, " ")) == Join(LowerAll(ws), " ")
  {
    if |ws| > 1 {
      LowerOfJoin(ws[1..]);
      LowerSplits(ws[0] + " ", Join(ws[1..], " "));
      LowerSplits(ws[0], " ");
      assert ToLower(" ") == " ";
    } else if |ws| == 1 {
      assert LowerAll(ws) == [ToLower(ws[0])];
    }
  }

  lemma {:induction false} LoweredWord(w: string)
    requires IsWord(w)
    ensures IsWord(ToLower(w))
  {
    assert forall i :: 0 <= i < |w| ==> ToLower(w)[i] == LowerChar(w[i]);
  }

  lemma {:induction false} LoweredAreWords(ws: seq<string>)
    requires forall w :: w in ws ==> IsWord(w)
    ensures forall w :: w in LowerAll(ws) ==> IsWord(w)
  {
    if ws != [] {
      LoweredAreWords(ws[1..]);
      LoweredWord(ws[0]);
    }
  }

  lemma {:induction false} WordsOfToken(x: string)
    ensures Fields(NormalizeToken(x)) == LowerAll(Fields(x))
    ensures NormalizeToken(x) == Join(LowerAll(Fields(x)), " ")
  {
    FieldsAreWords(x);
    LoweredAreWords(Fields(x));
    LowerOfJoin(Fields(x));
    FieldsOfJoin(LowerAll(Fields(x)));
  }

  lemma {:induction false} LoweredAlikeExactly(ws: seq<string>, vs: seq<string>)
    ensures LowerAll(ws) == LowerAll(vs) <==>
      |ws| == |vs| && forall i :: 0 <= i < |ws| ==> SameUpToCase(ws[i], vs[i])
  {
    if |ws| == |vs| {
      forall i | 0 <= i < |ws| ensures LowerAll(ws)[i] == LowerAll(vs)[i] <==> SameUpToCase(ws[i], vs[i]) {
        LowerAllAt(ws, i);
        LowerAllAt(vs, i);
        CasesExactly(ws[i], vs[i]);
      }
    }
  }

  /** Token normalization keeps exactly the words up to case. */
  lemma {:induction false} TokensAgreeExactly(x: string, y: string)
    ensures NormalizeToken(x) == NormalizeToken(y) <==> SameWordsUpToCase(x, y)
    ensures NormalizeToken(x) == "" <==> AllSpace(x)
  {
    WordsOfToken(x);
    WordsOfToken(y);
    LoweredAlikeExactly(Fields(x), Fields(y));
    JoinedIsEmptyExactly(x);
    assert |NormalizeToken(x)| == |Join(Fields(x), " ")|;
  }

  // ---------- Scopes ----------

  /** The scope is the feed, or for want of one the normalized source URL. */
  lemma {:induction false} ScopesExactly(lib: Library, a: Article, b: Article)
    ensures SourceScope(lib, a) == SourceScope(lib, b) <==>
      && a.feedID == b.feedID
      && (a.feedID == "" ==> NormalizeArticleURL(lib, a.sourceURL) == NormalizeArticleURL(lib, b.sourceURL))
    ensures SourceScope(lib, a) == "" <==> a.feedID == "" && NormalizeArticleURL(lib, a.sourceURL) == ""
  {
    ScopeRest(lib, a);
    ScopeRest(lib, b);
  }

  lemma {:induction false} ScopeRest(lib: Library, a: Article)
    ensures a.feedID != "" ==> SourceScope(lib, a)[..5] == "feed:" && SourceScope(lib, a)[5..] == a.feedID
    ensures var source := NormalizeArticleURL(lib, a.sourceURL);
      a.feedID == "" && source != "" ==>
        SourceScope(lib, a) != "" && SourceScope(lib, a)[0] == 's' && SourceScope(lib, a)[7..] == source
  {
  }

  // ---------- Keys ----------

  predicate InCommon(a: Keys, b: Keys, kind: Reason) {
    a.Get(kind) != "" && a.Get(kind) == b.Get(kind)
  }

  lemma {:induction false} FramedAlike(frame: string, x: string, y: string)
    ensures frame + x == frame + y <==> x == y
  {
    assert (frame + x)[|frame|..] == x && (frame + y)[|frame|..] == y;
  }

  /** In one scope two keys are equal exactly when the values they frame are. */
  lemma {:induction false} FramesExactly(scope: string, a: Keys, b: Keys)
    requires scope != ""
    ensures var x, y := FrameKeys(scope, a.identifier, a.url, a.fingerprint),
                        FrameKeys(scope, b.identifier, b.url, b.fingerprint);
      forall kind :: InCommon(x, y, kind) <==> InCommon(a, b, kind)
  {
    FramedAlike(scope + "|id|", a.identifier, b.identifier);
    FramedAlike(scope + "|url|", a.url, b.url);
    FramedAlike(scope + "|content|", a.fingerprint, b.fingerprint);
    assert scope + "|id|" != "" && scope + "|url|" != "" && scope + "|content|" != "";
  }

  /** The values an article's keys frame. */
  function Values(lib: Library, a: Article): Keys {
    Keys(NormalizeToken(a.identifier), NormalizeArticleURL(lib, a.url), ContentFingerprintOf(lib, a))
  }

  lemma {:induction false} KeysFrameValues(lib: Library, a: Article, b: Article, kind: Reason)
    requires SourceScope(lib, a) == SourceScope(lib, b) != ""
    ensures InCommon(KeysForArticle(lib, a), KeysForArticle(lib, b), kind) <==>
      InCommon(Values(lib, a), Values(lib, b), kind)
  {
    FramesExactly(SourceScope(lib, a), Values(lib, a), Values(lib, b));
  }

  /** Identifier keys agree exactly when the identifiers have the same words, cases aside, and some word. */
  lemma {:induction false} IdentifiersExactly(lib: Library, a: Article, b: Article)
    requires SourceScope(lib, a) == SourceScope(lib, b) != ""
    ensures InCommon(KeysForArticle(lib, a), KeysForArticle(lib, b), SourceIdentifier) <==>
      !AllSpace(a.identifier) && SameWordsUpToCase(a.identifier, b.identifier)
  {
    KeysFrameValues(lib, a, b, SourceIdentifier);
    TokensAgreeExactly(a.identifier, b.identifier);
  }

  /** URL keys agree exactly when the URLs normalize to the same text. */
  lemma {:induction false} URLsExactly(lib: Library, a: Article, b: Article)
    requires SourceScope(lib, a) == SourceScope(lib, b) != ""
    ensures InCommon(KeysForArticle(lib, a), KeysForArticle(lib, b), NormalizedURL) <==>
      NormalizeArticleURL(lib, a.url) == NormalizeArticleURL(lib, b.url) != ""
  {
    KeysFrameValues(lib, a, b, NormalizedURL);
  }

  /** The two URLs agree up to what normalization ignores. */
  ghost predicate SameURL(u: URL, v: URL) {
    && SameUpToCase(u.scheme, v.scheme)
    && SameUpToCase(UrlNormalization.SplitHost(u.host).0, UrlNormalization.SplitHost(v.host).0)
    && UrlNormalization.KeptPort(u) == UrlNormalization.KeptPort(v)
    && (u.path == v.path || (u.path in {"", "/"} && v.path in {"", "/"}))
    && u.forceQuery == v.forceQuery
    && QueryString.SameValues(QueryString.Parse(u.rawQuery), QueryString.Parse(v.rawQuery))
  }

  /** A URL that can identify an article: it has a scheme and a host and no user information. */
  predicate Identifies(u: URL) {
    u.scheme != "" && u.host != "" && !u.hasUser
  }

  /** What the trimmed text parses into, when that can identify an article. */
  function ParsedURL(lib: Library, raw: string): Option<URL> {
    if AllSpace(raw) then None
    else match lib.parseURL(TrimSpace(raw))
      case None => None
      case Some(u) => if Identifies(u) then Some(u) else None
  }

  /** Parsing delivers byte strings with brackets only around whole names, and printing shows something. */
  ghost predicate ReadsURLs(lib: Library) {
    && (forall raw :: lib.parseURL(raw).Some? ==> UrlNormalization.Parsed(lib.parseURL(raw).value))
    && (forall u :: lib.printURL(u) != "")
  }

  function Normal(lib: Library, raw: string): URL
    requires ParsedURL(lib, raw).Some?
  {
    UrlNormalization.Normalize(ParsedURL(lib, raw).value).value
  }

  /** Printing tells the two normalized URLs apart when they are different. */
  ghost predicate PrintsApart(lib: Library, x: string, y: string) {
    && ParsedURL(lib, x).Some? && ParsedURL(lib, y).Some?
    && lib.printURL(Normal(lib, x)) == lib.printURL(Normal(lib, y))
    ==> Normal(lib, x) == Normal(lib, y)
  }

  lemma {:induction false} NormalizedIsPrinted(lib: Library, raw: string)
    requires ReadsURLs(lib)
    ensures NormalizeArticleURL(lib, raw) == if ParsedURL(lib, raw).Some? then lib.printURL(Normal(lib, raw)) else ""
  {
    BlankExactly(raw);
  }

  lemma {:induction false} SameURLExactly(u: URL, v: URL)
    requires UrlNormalization.Parsed(u) && UrlNormalization.Parsed(v) && Identifies(u) && Identifies(v)
    ensures UrlNormalization.Normalize(u) == UrlNormalization.Normalize(v) <==> SameURL(u, v)
  {
    UrlNormalization.NormalizeIdentifies(u, v);
    CasesExactly(u.scheme, v.scheme);
    CasesExactly(UrlNormalization.SplitHost(u.host).0, UrlNormalization.SplitHost(v.host).0);
  }

  /**
   Two texts give the same non-empty normalized URL exactly when, trimmed, both parse into a URL
   with scheme and host and without user information, and the two agree up to what is ignored.
   */
  lemma {:induction false} NormalizedURLsExactly(lib: Library, x: string, y: string)
    requires ReadsURLs(lib) && PrintsApart(lib, x, y)
    ensures NormalizeArticleURL(lib, x) == NormalizeArticleURL(lib, y) != "" <==>
      && ParsedURL(lib, x).Some? && ParsedURL(lib, y).Some?
      && SameURL(ParsedURL(lib, x).value, ParsedURL(lib, y).value)
  {
    NormalizedIsPrinted(lib, x);
    NormalizedIsPrinted(lib, y);
    if ParsedURL(lib, x).Some? && ParsedURL(lib, y).Some? {
      SameURLExactly(ParsedURL(lib, x).value, ParsedURL(lib, y).value);
    }
  }

  // ---------- Fingerprints ----------

  /** The text that is fingerprinted: the content, or the summary when the content is blank. */
  function Substance(a: Article): string {
    if AllSpace(a.content) then a.summary else a.content
  }

  /** There is a title, a time and some text. */
  predicate HasEvidence(a: Article) {
    !AllSpace(a.title) && a.publishedAt.Some? && !AllSpace(Substance(a))
  }

  predicate SameEvidence(a: Article, b: Article) {
    && SameWordsUpToCase(a.title, b.title) && SameWordsUpToCase(a.author, b.author)
    && a.publishedAt == b.publishedAt && Fields(Substance(a)) == Fields(Substance(b))
  }

  function HashedText(lib: Library, a: Article): string
    requires a.publishedAt.Some?
  {
    NormalizeToken(a.title) + "\n" + NormalizeToken(a.author) + "\n" + lib.formatUTC(a.publishedAt.value) + "\n"
    + NormalizeContent(Substance(a))
  }

  /** Formatted times are one line each and tell different times apart; digests have 64 digits. */
  ghost predicate TellsTimes(lib: Library) {
    && (forall t: int {:trigger lib.formatUTC(t)} :: '\n' !in lib.formatUTC(t))
    && (forall t: int, u: int {:trigger lib.formatUTC(t), lib.formatUTC(u)} ::
          lib.formatUTC(t) == lib.formatUTC(u) ==> t == u)
    && (forall text {:trigger lib.sha256Hex(text)} :: |lib.sha256Hex(text)| == 64)
  }

  /** These two articles are not a collision of the hash. */
  ghost predicate NoCollision(lib: Library, a: Article, b: Article) {
    HasEvidence(a) && HasEvidence(b) && lib.sha256Hex(HashedText(lib, a)) == lib.sha256Hex(HashedText(lib, b)) ==>
      HashedText(lib, a) == HashedText(lib, b)
  }

  lemma {:induction false} FingerprintIsHash(lib: Library, a: Article)
    ensures ContentFingerprintOf(lib, a) == if HasEvidence(a) then lib.sha256Hex(HashedText(lib, a)) else ""
  {
    BlankExactly(a.content);
    TokensAgreeExactly(a.title, a.title);
    ContentsExactly(Substance(a), Substance(a));
    if HasEvidence(a) {
      PartsAsText(Lines(lib, a));
    }
  }

  lemma {:induction false} JoinStep(w: string, ws: seq<string>)
    requires ws != []
    ensures Join([w] + ws, "\n") == w + "\n" + Join(ws, "\n")
  {
    assert ([w] + ws)[1..] == ws;
  }

  lemma {:induction false} PartsAsText(p: Parts)
    ensures p.Text() == p.title + "\n" + p.author + "\n" + p.published + "\n" + p.content
  {
    JoinStep(p.published, [p.content]);
    JoinStep(p.author, [p.published] + [p.content]);
    JoinStep(p.title, [p.author] + ([p.published] + [p.content]));
    assert [p.title, p.author, p.published, p.content] == [p.title] + ([p.author] + ([p.published] + [p.content]));
    Regrouped(p.title, p.author, p.published, p.content);
  }

  lemma {:induction false} Regrouped(a: string, b: string, c: string, d: string)
    ensures a + "\n" + (b + "\n" + (c + "\n" + d)) == a + "\n" + b + "\n" + c + "\n" + d
  {
  }

  predicate OneLineEach(p: Parts) {
    '\n' !in p.title && '\n' !in p.author && '\n' !in p.published && '\n' !in p.content
  }

  lemma {:induction false} LinesUnique(a: Parts, b: Parts)
    requires OneLineEach(a) && OneLineEach(b)
    requires a.Text() == b.Text()
    ensures a == b
  {
    var x, y := [a.title, a.author, a.published, a.content], [b.title, b.author, b.published, b.content];
    JoinInjective(x, y, '\n');
    assert x[0] == y[0] && x[1] == y[1] && x[2] == y[2] && x[3] == y[3];
  }

  function Lines(lib: Library, a: Article): Parts
    requires a.publishedAt.Some?
  {
    Parts(NormalizeToken(a.title), NormalizeToken(a.author), lib.formatUTC(a.publishedAt.value),
          NormalizeContent(Substance(a)))
  }

  lemma {:induction false} LinesAsText(lib: Library, a: Article)
    requires TellsTimes(lib) && a.publishedAt.Some?
    ensures OneLineEach(Lines(lib, a)) && Lines(lib, a).Text() == HashedText(lib, a)
  {
    PartsAsText(Lines(lib, a));
    NormalizedHasNoNewline(a.title);
    NormalizedHasNoNewline(a.author);
    NormalizedHasNoNewline(Substance(a));
    var t := a.publishedAt.value;
    assert '\n' !in lib.formatUTC(t);
  }

  lemma {:induction false} LinesAlikeExactly(lib: Library, a: Article, b: Article)
    requires TellsTimes(lib) && a.publishedAt.Some? && b.publishedAt.Some?
    ensures Lines(lib, a) == Lines(lib, b) <==> SameEvidence(a, b)
  {
    TokensAgreeExactly(a.title, b.title);
    TokensAgreeExactly(a.author, b.author);
    ContentsExactly(Substance(a), Substance(b));
    var t, u := a.publishedAt.value, b.publishedAt.value;
    assert lib.formatUTC(t) == lib.formatUTC(u) ==> t == u;
  }

  lemma {:induction false} HashedAlikeExactly(lib: Library, a: Article, b: Article)
    requires TellsTimes(lib) && a.publishedAt.Some? && b.publishedAt.Some?
    ensures HashedText(lib, a) == HashedText(lib, b) <==> SameEvidence(a, b)
  {
    LinesAsText(lib, a);
    LinesAsText(lib, b);
    LinesAlikeExactly(lib, a, b);
    if Lines(lib, a).Text() == Lines(lib, b).Text() { LinesUnique(Lines(lib, a), Lines(lib, b)); }
  }

  /**
   Two articles of one scope have a fingerprint key in common exactly when both have a title, a
   time and some text, and these and the authors agree: title and author up to case and spacing, the
   time as an instant, and the text, content before summary, up to spacing.
   */
  lemma {:induction false} FingerprintsExactly(lib: Library, a: Article, b: Article)
    requires SourceScope(lib, a) == SourceScope(lib, b) != ""
    requires TellsTimes(lib) && NoCollision(lib, a, b)
    ensures InCommon(KeysForArticle(lib, a), KeysForArticle(lib, b), ContentFingerprint) <==>
      HasEvidence(a) && HasEvidence(b) && SameEvidence(a, b)
  {
    KeysFrameValues(lib, a, b, ContentFingerprint);
    FingerprintIsHash(lib, a);
    FingerprintIsHash(lib, b);
    if HasEvidence(a) && HasEvidence(b) { HashedAlikeExactly(lib, a, b); }
  }

  // ---------- Two articles ----------

  lemma {:induction false} SharesSomeKind(a: Keys, b: Keys)
    ensures Shares(a, b) <==>
      InCommon(a, b, SourceIdentifier) || InCommon(a, b, NormalizedURL) || InCommon(a, b, ContentFingerprint)
  {
    if Shares(a, b) {
      var kind :| a.Get(kind) != "" && a.Get(kind) == b.Get(kind);
      assert InCommon(a, b, kind);
    }
    if InCommon(a, b, SourceIdentifier) { assert a.Get(SourceIdentifier) == b.Get(SourceIdentifier); }
    if InCommon(a, b, NormalizedURL) { assert a.Get(NormalizedURL) == b.Get(NormalizedURL); }
    if InCommon(a, b, ContentFingerprint) { assert a.Get(ContentFingerprint) == b.Get(ContentFingerprint); }
  }

  lemma {:induction false} EvidenceOfTwo(ka: Keys, kb: Keys, kind: Reason)
    ensures EvidenceAt([ka, kb], 1).Of(kind) == if InCommon(ka, kb, kind) then Some(0) else None
  {
    var ks := [ka, kb];
    assert VerdictAt(ks, 0) == Fresh;
    EvidenceIsOwner(ks, 1, kind);
    assert FirstCarrier(ks, 0, kind, kb.Get(kind)) == None;
  }

  lemma {:induction false} SecondOfTwo(ka: Keys, kb: Keys)
    ensures VerdictAt([ka, kb], 1).Merge? <==> Shares(ka, kb)
  {
    EvidenceOfTwo(ka, kb, SourceIdentifier);
    EvidenceOfTwo(ka, kb, NormalizedURL);
    EvidenceOfTwo(ka, kb, ContentFingerprint);
    SharesSomeKind(ka, kb);
  }

  /**
   Two articles of one scope have a key in common exactly when their identifiers, their URLs, or
   their titles, authors, times and texts agree.
   */
  lemma {:induction false} SharesExactly(lib: Library, a: Article, b: Article)
    requires SourceScope(lib, a) == SourceScope(lib, b) != ""
    requires TellsTimes(lib) && NoCollision(lib, a, b)
    ensures Shares(KeysForArticle(lib, a), KeysForArticle(lib, b)) <==>
      || (!AllSpace(a.identifier) && SameWordsUpToCase(a.identifier, b.identifier))
      || NormalizeArticleURL(lib, a.url) == NormalizeArticleURL(lib, b.url) != ""
      || (HasEvidence(a) && HasEvidence(b) && SameEvidence(a, b))
  {
    IdentifiersExactly(lib, a, b);
    URLsExactly(lib, a, b);
    FingerprintsExactly(lib, a, b);
    SharesSomeKind(KeysForArticle(lib, a), KeysForArticle(lib, b));
  }

  /** Of any two articles the second is merged into the first exactly when they share a key. */
  lemma {:induction false} SecondMergesExactly(lib: Library, a: Article, b: Article)
    ensures VerdictAt(KeysOf(lib, [a, b]), 1).Merge? <==> Shares(KeysForArticle(lib, a), KeysForArticle(lib, b))
  {
    assert KeysOf(lib, [a, b]) == [KeysForArticle(lib, a), KeysForArticle(lib, b)];
    SecondOfTwo(KeysForArticle(lib, a), KeysForArticle(lib, b));
  }
}
