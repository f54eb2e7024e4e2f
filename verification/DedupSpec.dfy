/**
 The specification of conservative deduplication, free of the three index maps:
 a key belongs to the canonical article of the earliest article that carries it.

 Articles are named by their position in the input. `Root(ks, i)` is the position
 of the article that stands for article `i`; the code's canonical index is the
 position of that article among the retained ones, `Rank(ks, Root(ks, i))`.
 */
module DedupSpec {
  import opened Options

  /** Strongest evidence first, as the code appends its candidates. */
  datatype Reason = SourceIdentifier | NormalizedURL | ContentFingerprint

  /** The three keys of one article; the empty string is an absent key. */
  datatype Keys = Keys(identifier: string, url: string, fingerprint: string) {
    function Get(kind: Reason): string {
      match kind
      case SourceIdentifier => identifier
      case NormalizedURL => url
      case ContentFingerprint => fingerprint
    }
  }

  datatype Verdict =
    | Fresh                                 // no key is known yet
    | Conflict                              // known keys name different canonical articles
    | Merge(canonical: nat, reason: Reason) // every known key names the same one

  datatype DuplicateMatch = DuplicateMatch(duplicateIndex: nat, canonicalIndex: nat, reason: Reason)

  /** For each kind of key, the canonical article it is known to belong to. */
  datatype Evidence = Evidence(identifier: Option<nat>, url: Option<nat>, content: Option<nat>) {
    function Of(kind: Reason): Option<nat> {
      match kind
      case SourceIdentifier => identifier
      case NormalizedURL => url
      case ContentFingerprint => content
    }

    function Map(f: nat -> nat): Evidence {
      Evidence(MapOption(identifier, f), MapOption(url, f), MapOption(content, f))
    }
  }

  function MapOption(o: Option<nat>, f: nat -> nat): Option<nat> {
    if o.Some? then Some(f(o.value)) else None
  }

  function MapVerdict(v: Verdict, f: nat -> nat): Verdict {
    if v.Merge? then Merge(f(v.canonical), v.reason) else v
  }

  predicate Agree(a: Option<nat>, b: Option<nat>) {
    a.None? || b.None? || a == b
  }

  function Resolve(e: Evidence): Verdict {
    if e == Evidence(None, None, None) then Fresh
    else if !Agree(e.identifier, e.url) || !Agree(e.identifier, e.content) || !Agree(e.url, e.content) then Conflict
    else if e.identifier.Some? then Merge(e.identifier.value, SourceIdentifier)
    else if e.url.Some? then Merge(e.url.value, NormalizedURL)
    else Merge(e.content.value, ContentFingerprint)
  }

  predicate Stronger(a: Reason, b: Reason) {
    (a.SourceIdentifier? && !b.SourceIdentifier?) || (a.NormalizedURL? && b.ContentFingerprint?)
  }

  /**
   An article merges exactly when some key of it has an owner and all keys that have one agree;
   it then merges into that owner, and the reason is the strongest kind that has one.
   It conflicts exactly when two of its keys have different owners.
   */
  lemma {:induction false} ResolveExactly(e: Evidence, c: nat, reason: Reason)
    ensures Resolve(e) == Merge(c, reason) <==>
      && e.Of(reason) == Some(c)
      && (forall kind :: e.Of(kind).Some? ==> e.Of(kind) == Some(c) && !Stronger(kind, reason))
    ensures Resolve(e).Conflict? <==> exists a, b :: e.Of(a).Some? && e.Of(b).Some? && e.Of(a) != e.Of(b)
    ensures Resolve(e).Fresh? <==> forall kind :: e.Of(kind).None?
  {
    assert e.Of(SourceIdentifier) == e.identifier;
    assert e.Of(NormalizedURL) == e.url;
    assert e.Of(ContentFingerprint) == e.content;
  }

  /** Resolution only compares owners, so a renaming that keeps different ones apart commutes with it. */
  lemma {:induction false} ResolveRenamed(e: Evidence, f: nat -> nat)
    requires forall a, b :: e.Of(a).Some? && e.Of(b).Some? && f(e.Of(a).value) == f(e.Of(b).value) ==>
      e.Of(a) == e.Of(b)
    ensures Resolve(e.Map(f)) == MapVerdict(Resolve(e), f)
  {
    assert e.Of(SourceIdentifier) == e.identifier;
    assert e.Of(NormalizedURL) == e.url;
    assert e.Of(ContentFingerprint) == e.content;
  }

  /** The earliest of the first `n` articles that carries key `v` of this kind. */
  function FirstCarrier(ks: seq<Keys>, n: nat, kind: Reason, v: string): (r: Option<nat>)
    requires n <= |ks|
    ensures r.Some? ==> r.value < n && v != "" && ks[r.value].Get(kind) == v
  {
    if v == "" || n == 0 then None
    else
      var r := FirstCarrier(ks, n - 1, kind, v);
      if r.Some? then r
      else if ks[n - 1].Get(kind) == v then Some(n - 1)
      else None
  }

  lemma {:induction false} FirstCarrierIsFirst(ks: seq<Keys>, n: nat, kind: Reason, v: string, j: nat)
    requires j < n <= |ks| && v != "" && ks[j].Get(kind) == v
    ensures FirstCarrier(ks, n, kind, v).Some? && FirstCarrier(ks, n, kind, v).value <= j
  {
    if j < n - 1 { FirstCarrierIsFirst(ks, n - 1, kind, v, j); }
  }

  lemma {:induction false} FirstCarrierStays(ks: seq<Keys>, m: nat, n: nat, kind: Reason, v: string)
    requires m <= n <= |ks| && FirstCarrier(ks, m, kind, v).Some?
    ensures FirstCarrier(ks, n, kind, v) == FirstCarrier(ks, m, kind, v)
    decreases n
  {
    if m < n { FirstCarrierStays(ks, m, n - 1, kind, v); }
  }

  /** Whom a key belongs to once the first `n` articles have been processed. */
  function Owner(ks: seq<Keys>, n: nat, kind: Reason, v: string): Option<nat>
    requires n <= |ks|
    decreases n, 0
  {
    match FirstCarrier(ks, n, kind, v)
    case None => None
    case Some(j) => Some(Root(ks, j))
  }

  /** What the keys of article `i` point at when it is reached. */
  function EvidenceAt(ks: seq<Keys>, i: nat): Evidence
    requires i < |ks|
    decreases i, 1
  {
    Evidence(Owner(ks, i, SourceIdentifier, ks[i].identifier),
             Owner(ks, i, NormalizedURL, ks[i].url),
             Owner(ks, i, ContentFingerprint, ks[i].fingerprint))
  }

  function VerdictAt(ks: seq<Keys>, i: nat): Verdict
    requires i < |ks|
    decreases i, 2
  {
    Resolve(EvidenceAt(ks, i))
  }

  function Root(ks: seq<Keys>, i: nat): nat
    requires i < |ks|
    decreases i, 3
  {
    var v := VerdictAt(ks, i);
    if v.Merge? then v.canonical else i
  }

  predicate Retained(ks: seq<Keys>, i: nat)
    requires i < |ks|
  {
    !VerdictAt(ks, i).Merge?
  }

  /** How many of the first `n` articles are retained. */
  function Rank(ks: seq<Keys>, n: nat): nat {
    if n == 0 then 0
    else Rank(ks, n - 1) + (if n <= |ks| && Retained(ks, n - 1) then 1 else 0)
  }

  function CanonicalIndex(ks: seq<Keys>, i: nat): nat
    requires i < |ks|
  {
    Rank(ks, Root(ks, i))
  }

  /** The retained articles among the first `n`, in input order. */
  function Uniques<T>(xs: seq<T>, ks: seq<Keys>, n: nat): (r: seq<T>)
    requires n <= |ks| == |xs|
    ensures |r| == Rank(ks, n)
  {
    if n == 0 then []
    else Uniques(xs, ks, n - 1) + (if Retained(ks, n - 1) then [xs[n - 1]] else [])
  }

  /** What is reported about an article that merges. */
  function MatchFor(ks: seq<Keys>, i: nat): DuplicateMatch
    requires i < |ks| && VerdictAt(ks, i).Merge?
  {
    DuplicateMatch(i, CanonicalIndex(ks, i), VerdictAt(ks, i).reason)
  }

  /** The matches reported for the first `n` articles, in input order. */
  function Matches(ks: seq<Keys>, n: nat): seq<DuplicateMatch>
    requires n <= |ks|
  {
    if n == 0 then []
    else Matches(ks, n - 1) + (if Retained(ks, n - 1) then [] else [MatchFor(ks, n - 1)])
  }

  // ---------- Facts about roots ----------

  lemma {:induction false} EvidenceIsOwner(ks: seq<Keys>, i: nat, kind: Reason)
    requires i < |ks|
    ensures EvidenceAt(ks, i).Of(kind) == Owner(ks, i, kind, ks[i].Get(kind))
  {
  }

  /** A merged article shares a key of the reported kind with an earlier article of the same root. */
  lemma {:induction false} MergeWitness(ks: seq<Keys>, i: nat) returns (j: nat)
    requires i < |ks| && VerdictAt(ks, i).Merge?
    ensures var v := VerdictAt(ks, i);
      && j < i
      && ks[i].Get(v.reason) != ""
      && ks[j].Get(v.reason) == ks[i].Get(v.reason)
      && Root(ks, j) == v.canonical
  {
    var v := VerdictAt(ks, i);
    ResolveExactly(EvidenceAt(ks, i), v.canonical, v.reason);
    EvidenceIsOwner(ks, i, v.reason);
    j := FirstCarrier(ks, i, v.reason, ks[i].Get(v.reason)).value;
  }

  /** A root is retained, comes no later than the article, and is its own root. */
  lemma {:induction false} RootIsRetained(ks: seq<Keys>, i: nat)
    requires i < |ks|
    ensures Root(ks, i) <= i
    ensures Retained(ks, Root(ks, i)) && Root(ks, Root(ks, i)) == Root(ks, i)
    ensures Root(ks, i) == i <==> Retained(ks, i)
  {
    if VerdictAt(ks, i).Merge? {
      var j := MergeWitness(ks, i);
      RootIsRetained(ks, j);
    }
  }

  lemma {:induction false} RankMonotone(ks: seq<Keys>, a: nat, b: nat)
    requires a <= b
    ensures Rank(ks, a) <= Rank(ks, b)
    ensures a < b && a < |ks| && Retained(ks, a) ==> Rank(ks, a) < Rank(ks, b)
    decreases b
  {
    if a < b {
      RankMonotone(ks, a, b - 1);
    }
  }

  /** On retained articles the rank keeps and reflects order, so it identifies them. */
  lemma {:induction false} RankOrdersRoots(ks: seq<Keys>, a: nat, b: nat)
    requires a < |ks| && b < |ks| && Retained(ks, a) && Retained(ks, b)
    ensures a < b <==> Rank(ks, a) < Rank(ks, b)
    ensures a == b <==> Rank(ks, a) == Rank(ks, b)
  {
    if a < b {
      RankMonotone(ks, a, b);
    } else {
      RankMonotone(ks, b, a);
      if b < a { RankMonotone(ks, b, a); }
    }
  }

  lemma {:induction false} SameCanonicalIndex(ks: seq<Keys>, i: nat, j: nat)
    requires i < |ks| && j < |ks|
    ensures CanonicalIndex(ks, i) == CanonicalIndex(ks, j) <==> Root(ks, i) == Root(ks, j)
  {
    RootIsRetained(ks, i);
    RootIsRetained(ks, j);
    RankOrdersRoots(ks, Root(ks, i), Root(ks, j));
  }

  // ---------- What holds of every input ----------

  /** A key, once it belongs to an article, belongs to it for the rest of the run. */
  lemma {:induction false} OwnerNeverRebound(ks: seq<Keys>, m: nat, n: nat, kind: Reason, v: string)
    requires m <= n <= |ks| && Owner(ks, m, kind, v).Some?
    ensures Owner(ks, n, kind, v) == Owner(ks, m, kind, v)
    decreases n
  {
    FirstCarrierStays(ks, m, n, kind, v);
  }

  // ---------- The outputs partition the input ----------

  /** Article `i` is found in `unique` at the position the code would give it. */
  lemma {:induction false} UniqueAt<T>(xs: seq<T>, ks: seq<Keys>, n: nat, i: nat)
    requires i < n <= |ks| == |xs| && Retained(ks, i)
    ensures Rank(ks, i) < Rank(ks, n) && Uniques(xs, ks, n)[Rank(ks, i)] == xs[i]
    decreases n
  {
    RankMonotone(ks, i, n);
    if i < n - 1 {
      RankMonotone(ks, i, n - 1);
      UniqueAt(xs, ks, n - 1, i);
    }
  }

  lemma {:induction false} MatchesExact(ks: seq<Keys>, n: nat, m: DuplicateMatch)
    requires n <= |ks|
    ensures m in Matches(ks, n) <==>
      m.duplicateIndex < n && VerdictAt(ks, m.duplicateIndex).Merge? && m == MatchFor(ks, m.duplicateIndex)
  {
    if n > 0 {
      MatchesExact(ks, n - 1, m);
    }
  }

  lemma {:induction false} MatchesCountAndOrder(ks: seq<Keys>, n: nat)
    requires n <= |ks|
    ensures |Matches(ks, n)| + Rank(ks, n) == n
    ensures forall a, b :: 0 <= a < b < |Matches(ks, n)| ==>
      Matches(ks, n)[a].duplicateIndex < Matches(ks, n)[b].duplicateIndex
  {
    if n > 0 {
      MatchesCountAndOrder(ks, n - 1);
      var before := Matches(ks, n - 1);
      forall a | 0 <= a < |before|
        ensures before[a].duplicateIndex < n - 1
      {
        MatchesExact(ks, n - 1, before[a]);
      }
    }
  }

  /**
   Every article is either retained, at its rank in `unique`, or reported once as a duplicate of
   an earlier retained article, whose place in `unique` the match names.
   */
  lemma {:induction false} OutputsPartitionInput<T>(xs: seq<T>, ks: seq<Keys>, i: nat)
    requires i < |ks| == |xs|
    ensures |Uniques(xs, ks, |ks|)| + |Matches(ks, |ks|)| == |xs|
    ensures Root(ks, i) <= i && Retained(ks, Root(ks, i))
    ensures CanonicalIndex(ks, i) < |Uniques(xs, ks, |ks|)|
    ensures Uniques(xs, ks, |ks|)[CanonicalIndex(ks, i)] == xs[Root(ks, i)]
    ensures !Retained(ks, i) ==> Root(ks, i) < i && MatchFor(ks, i) in Matches(ks, |ks|)
    ensures forall m :: m in Matches(ks, |ks|) && m.duplicateIndex == i ==> !Retained(ks, i) && m == MatchFor(ks, i)
  {
    MatchesCountAndOrder(ks, |ks|);
    RootIsRetained(ks, i);
    UniqueAt(xs, ks, |ks|, Root(ks, i));
    forall m: DuplicateMatch | m.duplicateIndex == i
      ensures m in Matches(ks, |ks|) <==> VerdictAt(ks, i).Merge? && m == MatchFor(ks, i)
    {
      MatchesExact(ks, |ks|, m);
    }
  }
}
