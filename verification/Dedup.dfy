/** The one-pass algorithm over three index maps, proved against the map-free specification. */
module Dedup {
  import opened Options
  import opened DedupSpec
  import opened DedupIsolation
  import opened ArticleKeys

  /** One of the code's `map[string]int` indexes. */
  class KeyIndex {
    var entries: map<string, nat>

    constructor ()
      ensures entries == map[]
    {
      entries := map[];
    }

    /** First writer wins; an empty key is never written. */
    method Register(key: string, canonical: nat)
      modifies this
      ensures entries == Registered(old(entries), key, canonical)
      ensures forall k :: k in old(entries) ==> k in entries && entries[k] == old(entries)[k]
      ensures forall k :: k in entries ==> k in old(entries) || (k == key && entries[k] == canonical)
      ensures key in entries <==> key in old(entries) || key != ""
    {
      if key == "" {
        return;
      }
      if key in entries {
        return;
      }
      entries := entries[key := canonical];
    }
  }

  function Registered(entries: map<string, nat>, key: string, canonical: nat): map<string, nat> {
    if key == "" || key in entries then entries else entries[key := canonical]
  }

  function Lookup(entries: map<string, nat>, key: string): Option<nat> {
    if key != "" && key in entries then Some(entries[key]) else None
  }

  /** The index says of every key what the specification says after `n` articles. */
  ghost predicate Indexes(entries: map<string, nat>, ks: seq<Keys>, n: nat, kind: Reason)
    requires n <= |ks|
  {
    forall v :: && (v in entries <==> Owner(ks, n, kind, v).Some?)
                && (v in entries ==> entries[v] == Rank(ks, Owner(ks, n, kind, v).value))
  }

  lemma {:induction false} IndexStep(entries: map<string, nat>, ks: seq<Keys>, n: nat, kind: Reason)
    requires n < |ks| && Indexes(entries, ks, n, kind)
    ensures Indexes(Registered(entries, ks[n].Get(kind), CanonicalIndex(ks, n)), ks, n + 1, kind)
  {
    var after := Registered(entries, ks[n].Get(kind), CanonicalIndex(ks, n));
    forall v
      ensures v in after <==> Owner(ks, n + 1, kind, v).Some?
      ensures v in after ==> after[v] == Rank(ks, Owner(ks, n + 1, kind, v).value)
    {
      if v in entries {
        OwnerNeverRebound(ks, n, n + 1, kind, v);
      } else {
        assert Owner(ks, n, kind, v).None?;
        assert FirstCarrier(ks, n, kind, v).None?;
      }
    }
  }

  /** The candidates in the order the code appends them. */
  function Listed(e: Evidence): seq<(nat, Reason)> {
    (if e.identifier.Some? then [(e.identifier.value, SourceIdentifier)] else [])
    + (if e.url.Some? then [(e.url.value, NormalizedURL)] else [])
    + (if e.content.Some? then [(e.content.value, ContentFingerprint)] else [])
  }

  lemma {:induction false} ListedAgree(e: Evidence, c: nat)
    requires Listed(e) != [] && forall m :: 0 <= m < |Listed(e)| ==> Listed(e)[m].0 == c
    ensures Resolve(e) == Merge(c, Listed(e)[0].1)
  {
    var ones := if e.identifier.Some? then [(e.identifier.value, SourceIdentifier)] else [];
    var twos := if e.url.Some? then [(e.url.value, NormalizedURL)] else [];
    assert e.url.Some? ==> Listed(e)[|ones|] == (e.url.value, NormalizedURL);
    assert e.content.Some? ==> Listed(e)[|ones| + |twos|] == (e.content.value, ContentFingerprint);
  }

  /** Collects the known candidates, strongest first, and compares them. */
  method ResolveCanonical(keys: Keys, identifierIndex: KeyIndex, urlIndex: KeyIndex, fingerprintIndex: KeyIndex)
    returns (canonical: nat, reason: Reason, ok: bool)
    ensures var v := Resolve(Candidates(keys, identifierIndex.entries, urlIndex.entries, fingerprintIndex.entries));
      (ok <==> v.Merge?) && (ok ==> v == Merge(canonical, reason))
  {
    var candidates: seq<(nat, Reason)> := [];
    if keys.identifier != "" && keys.identifier in identifierIndex.entries {
      candidates := candidates + [(identifierIndex.entries[keys.identifier], SourceIdentifier)];
    }
    if keys.url != "" && keys.url in urlIndex.entries {
      candidates := candidates + [(urlIndex.entries[keys.url], NormalizedURL)];
    }
    if keys.fingerprint != "" && keys.fingerprint in fingerprintIndex.entries {
      candidates := candidates + [(fingerprintIndex.entries[keys.fingerprint], ContentFingerprint)];
    }
    if |candidates| == 0 {
      return 0, SourceIdentifier, false;
    }
    canonical := candidates[0].0;
    for k := 1 to |candidates|
      invariant forall m :: 0 <= m < k ==> candidates[m].0 == canonical
    {
      if candidates[k].0 != canonical {
        return 0, SourceIdentifier, false;
      }
    }
    assert forall m :: 0 <= m < |candidates| ==> candidates[m].0 == canonical;
    reason, ok := candidates[0].1, true;
    ghost var e := Candidates(keys, identifierIndex.entries, urlIndex.entries, fingerprintIndex.entries);
    assert candidates == Listed(e);
    ListedAgree(e, canonical);
  }

  /** What the three indexes hold for the keys of one article. */
  function Candidates(keys: Keys, byId: map<string, nat>, byURL: map<string, nat>, byContent: map<string, nat>)
    : Evidence
  {
    Evidence(Lookup(byId, keys.identifier), Lookup(byURL, keys.url), Lookup(byContent, keys.fingerprint))
  }

  ghost predicate AllIndexed(byId: map<string, nat>, byURL: map<string, nat>, byContent: map<string, nat>,
                             ks: seq<Keys>, n: nat)
    requires n <= |ks|
  {
    && Indexes(byId, ks, n, SourceIdentifier)
    && Indexes(byURL, ks, n, NormalizedURL)
    && Indexes(byContent, ks, n, ContentFingerprint)
  }

  lemma {:induction false} RanksSeparate(ks: seq<Keys>, n: nat, a: Reason, b: Reason)
    requires n < |ks|
    requires var e := EvidenceAt(ks, n);
      e.Of(a).Some? && e.Of(b).Some? && Rank(ks, e.Of(a).value) == Rank(ks, e.Of(b).value)
    ensures EvidenceAt(ks, n).Of(a) == EvidenceAt(ks, n).Of(b)
  {
    EvidenceIsOwner(ks, n, a);
    EvidenceIsOwner(ks, n, b);
    var x, y := FirstCarrier(ks, n, a, ks[n].Get(a)).value, FirstCarrier(ks, n, b, ks[n].Get(b)).value;
    RootIsRetained(ks, x);
    RootIsRetained(ks, y);
    RankOrdersRoots(ks, Root(ks, x), Root(ks, y));
  }

  /** On ranks the comparison comes out as it does on the articles themselves. */
  lemma {:induction false} ResolveOnRanks(ks: seq<Keys>, n: nat,
      byId: map<string, nat>, byURL: map<string, nat>, byContent: map<string, nat>)
    requires n < |ks| && AllIndexed(byId, byURL, byContent, ks, n)
    ensures Resolve(Candidates(ks[n], byId, byURL, byContent)) == MapVerdict(VerdictAt(ks, n), r => Rank(ks, r))
  {
    var e := EvidenceAt(ks, n);
    var rank := r => Rank(ks, r);
    forall a, b | e.Of(a).Some? && e.Of(b).Some? && rank(e.Of(a).value) == rank(e.Of(b).value)
      ensures e.Of(a) == e.Of(b)
    {
      RanksSeparate(ks, n, a, b);
    }
    ResolveRenamed(e, rank);
    LookupIsRanked(ks, n, SourceIdentifier, byId);
    LookupIsRanked(ks, n, NormalizedURL, byURL);
    LookupIsRanked(ks, n, ContentFingerprint, byContent);
    assert e.Map(rank) == Candidates(ks[n], byId, byURL, byContent);
  }

  lemma {:induction false} LookupIsRanked(ks: seq<Keys>, n: nat, kind: Reason, entries: map<string, nat>)
    requires n < |ks| && Indexes(entries, ks, n, kind)
    ensures Lookup(entries, ks[n].Get(kind)) == MapOption(Owner(ks, n, kind, ks[n].Get(kind)), r => Rank(ks, r))
  {
  }

  /** One pass of the loop keeps the indexes in step with the specification. */
  lemma {:induction false} AllIndexedStep(ks: seq<Keys>, n: nat,
      byId: map<string, nat>, byURL: map<string, nat>, byContent: map<string, nat>)
    requires n < |ks| && AllIndexed(byId, byURL, byContent, ks, n)
    ensures AllIndexed(Registered(byId, ks[n].identifier, CanonicalIndex(ks, n)),
                       Registered(byURL, ks[n].url, CanonicalIndex(ks, n)),
                       Registered(byContent, ks[n].fingerprint, CanonicalIndex(ks, n)), ks, n + 1)
  {
    IndexStep(byId, ks, n, SourceIdentifier);
    IndexStep(byURL, ks, n, NormalizedURL);
    IndexStep(byContent, ks, n, ContentFingerprint);
  }

  /** The loop, for articles whose keys `key` computes. */
  method DeduplicateBy<A>(articles: seq<A>, key: A -> Keys) returns (unique: seq<A>, matches: seq<DuplicateMatch>)
    ensures unique == Uniques(articles, MapKeys(articles, key), |articles|)
    ensures matches == Matches(MapKeys(articles, key), |articles|)
  {
    ghost var ks := MapKeys(articles, key);
    unique, matches := [], [];
    var identifierIndex := new KeyIndex();
    var urlIndex := new KeyIndex();
    var fingerprintIndex := new KeyIndex();

    for i := 0 to |articles|
      invariant fresh(identifierIndex) && fresh(urlIndex) && fresh(fingerprintIndex)
      invariant identifierIndex != urlIndex && urlIndex != fingerprintIndex && fingerprintIndex != identifierIndex
      invariant unique == Uniques(articles, ks, i) && matches == Matches(ks, i)
      invariant AllIndexed(identifierIndex.entries, urlIndex.entries, fingerprintIndex.entries, ks, i)
    {
      var keys := key(articles[i]);
      var canonical, reason, ok := ResolveCanonical(keys, identifierIndex, urlIndex, fingerprintIndex);
      TurnIsSpecified(articles, ks, i, identifierIndex.entries, urlIndex.entries, fingerprintIndex.entries);
      if ok {
        matches := matches + [DuplicateMatch(i, canonical, reason)];
      } else {
        canonical := |unique|;
        unique := unique + [articles[i]];
      }
      identifierIndex.Register(keys.identifier, canonical);
      urlIndex.Register(keys.url, canonical);
      fingerprintIndex.Register(keys.fingerprint, canonical);
    }
  }

  /** What the specification adds to the outputs for article `n`. */
  lemma {:induction false} OutputsGrow<A>(articles: seq<A>, ks: seq<Keys>, n: nat)
    requires n < |ks| == |articles|
    ensures var v := VerdictAt(ks, n);
      if v.Merge? then
        && CanonicalIndex(ks, n) == Rank(ks, v.canonical)
        && Uniques(articles, ks, n + 1) == Uniques(articles, ks, n)
        && Matches(ks, n + 1) == Matches(ks, n) + [DuplicateMatch(n, CanonicalIndex(ks, n), v.reason)]
      else
        && CanonicalIndex(ks, n) == |Uniques(articles, ks, n)|
        && Uniques(articles, ks, n + 1) == Uniques(articles, ks, n) + [articles[n]]
        && Matches(ks, n + 1) == Matches(ks, n)
  {
  }

  /** One turn of the loop: what resolving on the indexes decides is what the specification adds. */
  lemma {:induction false} TurnIsSpecified<A>(articles: seq<A>, ks: seq<Keys>, n: nat,
                           byId: map<string, nat>, byURL: map<string, nat>, byContent: map<string, nat>)
    requires n < |ks| == |articles| && AllIndexed(byId, byURL, byContent, ks, n)
    ensures var v := Resolve(Candidates(ks[n], byId, byURL, byContent));
      var canonical := if v.Merge? then v.canonical else |Uniques(articles, ks, n)|;
      && Uniques(articles, ks, n + 1) == Uniques(articles, ks, n) + (if v.Merge? then [] else [articles[n]])
      && Matches(ks, n + 1) == Matches(ks, n) + (if v.Merge? then [DuplicateMatch(n, canonical, v.reason)] else [])
      && AllIndexed(Registered(byId, ks[n].identifier, canonical), Registered(byURL, ks[n].url, canonical),
                    Registered(byContent, ks[n].fingerprint, canonical), ks, n + 1)
  {
    ResolveOnRanks(ks, n, byId, byURL, byContent);
    AllIndexedStep(ks, n, byId, byURL, byContent);
    OutputsGrow(articles, ks, n);
  }

  method DeduplicateArticles(lib: Library, articles: seq<Article>)
    returns (unique: seq<Article>, matches: seq<DuplicateMatch>)
    ensures unique == Uniques(articles, KeysOf(lib, articles), |articles|)
    ensures matches == Matches(KeysOf(lib, articles), |articles|)
  {
    unique, matches := DeduplicateBy(articles, a => KeysForArticle(lib, a));
  }
}
