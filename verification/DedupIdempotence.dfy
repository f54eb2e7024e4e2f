/** When a second pass over the retained articles changes nothing, and when it does. */
module DedupIdempotence {
  import opened Options
  import opened DedupSpec
  import opened DedupComponents
  import opened DedupIsolation

  /** The keys of the articles a run retains. */
  function RetainedKeys(ks: seq<Keys>): seq<Keys> {
    Uniques(ks, ks, |ks|)
  }

  ghost predicate AllRetained(rs: seq<Keys>) {
    forall i :: 0 <= i < |rs| ==> Retained(rs, i)
  }

  /** A pass over `rs` returns its input and reports nothing. */
  ghost predicate PassChangesNothing(rs: seq<Keys>) {
    Uniques(rs, rs, |rs|) == rs && Matches(rs, |rs|) == []
  }

  lemma {:induction false} AllRetainedKeepsInput<T>(xs: seq<T>, rs: seq<Keys>, n: nat)
    requires AllRetained(rs) && n <= |rs| == |xs|
    ensures Uniques(xs, rs, n) == xs[..n] && Matches(rs, n) == []
  {
    if n > 0 {
      AllRetainedKeepsInput(xs, rs, n - 1);
    }
  }

  lemma {:induction false} PassChangesNothingExactly(rs: seq<Keys>)
    ensures PassChangesNothing(rs) <==> AllRetained(rs)
  {
    if AllRetained(rs) {
      AllRetainedKeepsInput(rs, rs, |rs|);
    }
    if !AllRetained(rs) {
      var i :| 0 <= i < |rs| && !Retained(rs, i);
      OutputsPartitionInput(rs, rs, i);
    }
  }

  /** The earliest articles of the list that carry each key of article `i`, before `i`. */
  function EarliestCarriers(rs: seq<Keys>, i: nat): Evidence
    requires i < |rs|
  {
    Evidence(FirstCarrier(rs, i, SourceIdentifier, rs[i].identifier),
             FirstCarrier(rs, i, NormalizedURL, rs[i].url),
             FirstCarrier(rs, i, ContentFingerprint, rs[i].fingerprint))
  }

  lemma {:induction false} RetainedPrefixOwnsItsKeys(rs: seq<Keys>, i: nat)
    requires i < |rs| && forall j :: 0 <= j < i ==> Retained(rs, j)
    ensures EvidenceAt(rs, i) == EarliestCarriers(rs, i)
  {
    forall kind ensures Owner(rs, i, kind, rs[i].Get(kind)) == FirstCarrier(rs, i, kind, rs[i].Get(kind)) {
      var r := FirstCarrier(rs, i, kind, rs[i].Get(kind));
      if r.Some? {
        assert Retained(rs, r.value);
      }
    }
    EvidenceIsOwner(rs, i, SourceIdentifier);
    EvidenceIsOwner(rs, i, NormalizedURL);
    EvidenceIsOwner(rs, i, ContentFingerprint);
  }

  /**
   A pass changes nothing exactly when every article either has no key of an earlier one, or has
   two keys that different earlier articles carried first. The retained list of a run is one such
   list, so this decides when deduplicating twice is deduplicating once.
   */
  lemma {:induction false} SecondPassExactly(rs: seq<Keys>)
    ensures PassChangesNothing(rs) <==>
      forall i :: 0 <= i < |rs| ==> !Resolve(EarliestCarriers(rs, i)).Merge?
  {
    PassChangesNothingExactly(rs);
    if AllRetained(rs) {
      forall i | 0 <= i < |rs| ensures !Resolve(EarliestCarriers(rs, i)).Merge? {
        assert Retained(rs, i);
        RetainedPrefixOwnsItsKeys(rs, i);
      }
    } else {
      var i :| 0 <= i < |rs| && !Retained(rs, i);
      var first := EarliestMerge(rs, i);
      RetainedPrefixOwnsItsKeys(rs, first);
    }
  }

  lemma {:induction false} EarliestMerge(rs: seq<Keys>, i: nat) returns (first: nat)
    requires i < |rs| && !Retained(rs, i)
    ensures first <= i && !Retained(rs, first) && forall j :: 0 <= j < first ==> Retained(rs, j)
  {
    first := i;
    if j :| 0 <= j < i && !Retained(rs, j) {
      first := EarliestMerge(rs, j);
    }
  }

  /** A retained list of a run: entry `Rank(ks, i)` is article `i`. */
  lemma {:induction false} RetainedAt(ks: seq<Keys>, n: nat, p: nat) returns (i: nat)
    requires n <= |ks| && p < Rank(ks, n)
    ensures i < n && Retained(ks, i) && Rank(ks, i) == p && Uniques(ks, ks, n)[p] == ks[i]
  {
    if p == Rank(ks, n - 1) {
      i := n - 1;
    } else {
      i := RetainedAt(ks, n - 1, p);
    }
  }

  // ---------- The condition on the input ----------

  /** The earliest of the first `n` articles that is retained and carries key `v`. */
  function FirstKept(ks: seq<Keys>, n: nat, kind: Reason, v: string): Option<nat>
    requires n <= |ks|
  {
    if v == "" || n == 0 then None
    else
      var r := FirstKept(ks, n - 1, kind, v);
      if r.Some? then r
      else if Retained(ks, n - 1) && ks[n - 1].Get(kind) == v then Some(n - 1)
      else None
  }

  lemma {:induction false} FirstKeptIsKept(ks: seq<Keys>, n: nat, kind: Reason, v: string)
    requires n <= |ks| && FirstKept(ks, n, kind, v).Some?
    ensures var j := FirstKept(ks, n, kind, v).value;
      j < n && Retained(ks, j) && FirstCarrier(ks, n, kind, v).Some?
  {
    if FirstKept(ks, n - 1, kind, v).Some? {
      FirstKeptIsKept(ks, n - 1, kind, v);
    }
  }

  /** For each key of article `i`, the first retained article before it with that key of its own. */
  function KeptCarriers(ks: seq<Keys>, i: nat): Evidence
    requires i < |ks|
  {
    Evidence(FirstKept(ks, i, SourceIdentifier, ks[i].identifier),
             FirstKept(ks, i, NormalizedURL, ks[i].url),
             FirstKept(ks, i, ContentFingerprint, ks[i].fingerprint))
  }

  function Ranked(ks: seq<Keys>, o: Option<nat>): Option<nat> {
    if o.Some? then Some(Rank(ks, o.value)) else None
  }

  /** The first carrier of a key in the retained list is the first retained carrier, at its rank. */
  lemma {:induction false} FirstKeptInRetained(ks: seq<Keys>, n: nat, kind: Reason, v: string)
    requires n <= |ks|
    ensures Rank(ks, n) <= |RetainedKeys(ks)|
    ensures FirstCarrier(RetainedKeys(ks), Rank(ks, n), kind, v) == Ranked(ks, FirstKept(ks, n, kind, v))
  {
    RankMonotone(ks, n, |ks|);
    if n > 0 && v != "" {
      FirstKeptInRetained(ks, n - 1, kind, v);
      KeptStep(ks, n, kind, v);
      if Retained(ks, n - 1) {
        UniqueAt(ks, ks, |ks|, n - 1);
        assert Rank(ks, n) == Rank(ks, n - 1) + 1;
        CarrierStep(RetainedKeys(ks), Rank(ks, n), kind, v);
      }
    }
  }

  lemma {:induction false} KeptStep(ks: seq<Keys>, n: nat, kind: Reason, v: string)
    requires 0 < n <= |ks| && v != ""
    ensures FirstKept(ks, n, kind, v)
         == if FirstKept(ks, n - 1, kind, v).Some? then FirstKept(ks, n - 1, kind, v)
            else if Retained(ks, n - 1) && ks[n - 1].Get(kind) == v then Some(n - 1) else None
  {
  }

  /** Seen in the retained list, a retained article resolves as on the retained carriers of its keys. */
  lemma {:induction false} RetainedResolves(ks: seq<Keys>, i: nat)
    requires i < |ks| && Retained(ks, i)
    ensures Rank(ks, i) < |RetainedKeys(ks)|
    ensures Resolve(EarliestCarriers(RetainedKeys(ks), Rank(ks, i))).Merge? <==> Resolve(KeptCarriers(ks, i)).Merge?
  {
    UniqueAt(ks, ks, |ks|, i);
    var e, rank := KeptCarriers(ks, i), r => Rank(ks, r);
    FirstKeptInRetained(ks, i, SourceIdentifier, ks[i].identifier);
    FirstKeptInRetained(ks, i, NormalizedURL, ks[i].url);
    FirstKeptInRetained(ks, i, ContentFingerprint, ks[i].fingerprint);
    assert EarliestCarriers(RetainedKeys(ks), Rank(ks, i)) == e.Map(rank);
    forall a, b | e.Of(a).Some? && e.Of(b).Some? && rank(e.Of(a).value) == rank(e.Of(b).value)
      ensures e.Of(a) == e.Of(b)
    {
      KeptOf(ks, i, a);
      KeptOf(ks, i, b);
      RankOrdersRoots(ks, e.Of(a).value, e.Of(b).value);
    }
    ResolveRenamed(e, rank);
  }

  lemma {:induction false} KeptOf(ks: seq<Keys>, i: nat, kind: Reason)
    requires i < |ks| && KeptCarriers(ks, i).Of(kind).Some?
    ensures var j := KeptCarriers(ks, i).Of(kind).value;
      j < i && Retained(ks, j) && EvidenceAt(ks, i).Of(kind).Some?
  {
    FirstKeptIsKept(ks, i, kind, ks[i].Get(kind));
    EvidenceIsOwner(ks, i, kind);
  }

  /** An article that met no known key meets none in the retained list either. */
  lemma {:induction false} FreshStaysFresh(ks: seq<Keys>, i: nat)
    requires i < |ks| && VerdictAt(ks, i).Fresh?
    ensures !Resolve(KeptCarriers(ks, i)).Merge?
  {
    var e := KeptCarriers(ks, i);
    ResolveExactly(EvidenceAt(ks, i), 0, SourceIdentifier);
    if Resolve(e).Merge? {
      ResolveExactly(e, Resolve(e).canonical, Resolve(e).reason);
      KeptOf(ks, i, Resolve(e).reason);
    }
  }

  /**
   Deduplicating what a run retained changes nothing exactly when no article that met a conflict
   would merge if only retained articles owned keys: a second pass can differ only through a
   conflict that rests on a lost alias.
   */
  lemma {:induction false} IdempotentExactly(ks: seq<Keys>)
    ensures PassChangesNothing(RetainedKeys(ks)) <==>
      forall i :: 0 <= i < |ks| && VerdictAt(ks, i).Conflict? ==> !Resolve(KeptCarriers(ks, i)).Merge?
  {
    var rs := RetainedKeys(ks);
    SecondPassExactly(rs);
    if PassChangesNothing(rs) {
      forall i | 0 <= i < |ks| && VerdictAt(ks, i).Conflict? ensures !Resolve(KeptCarriers(ks, i)).Merge? {
        RetainedResolves(ks, i);
      }
    } else {
      var p :| 0 <= p < |rs| && Resolve(EarliestCarriers(rs, p)).Merge?;
      var i := RetainedAt(ks, |ks|, p);
      RetainedResolves(ks, i);
      if VerdictAt(ks, i).Fresh? { FreshStaysFresh(ks, i); }
    }
  }

  /**
   After a run without conflicts the retained articles have pairwise no key in common, and a
   second pass over them, with any payload, returns them unchanged.
   */
  lemma {:induction false} ConflictFreeIsIdempotent<T>(ks: seq<Keys>, kept: seq<T>)
    requires ConflictFree(ks) && |kept| == |RetainedKeys(ks)|
    ensures forall p, q :: 0 <= p < q < |RetainedKeys(ks)| ==> !Shares(RetainedKeys(ks)[p], RetainedKeys(ks)[q])
    ensures PassChangesNothing(RetainedKeys(ks))
    ensures Uniques(kept, RetainedKeys(ks), |kept|) == kept
  {
    var rs := RetainedKeys(ks);
    forall p, q | 0 <= p < q < |rs| ensures !Shares(rs[p], rs[q]) {
      var i := RetainedAt(ks, |ks|, p);
      var j := RetainedAt(ks, |ks|, q);
      if Shares(rs[p], rs[q]) {
        PathKeepsRoot(ks, [i, j], i, j);
        RootIsRetained(ks, i);
        RootIsRetained(ks, j);
      }
    }
    IdempotentExactly(ks);
    PassChangesNothingExactly(rs);
    AllRetainedKeepsInput(kept, rs, |rs|);
  }

  // ---------- A lost alias ----------

  /**
   The second of these articles lends its identifier to the first; the last one then meets a
   conflict and stays. On the retained list the alias is gone and the last article merges.
   */
  function AliasLost(p: string, q: string, r: string, u: string, v: string): seq<Keys> {
    [Keys(p, u, ""), Keys(q, u, ""), Keys(r, v, ""), Keys(q, v, "")]
  }

  lemma {:induction false} AliasLostVerdicts(p: string, q: string, r: string, u: string, v: string)
    requires "" !in {p, q, r, u, v} && p != q && q != r && r != p && u != v
    ensures var ks := AliasLost(p, q, r, u, v);
      && VerdictAt(ks, 0) == Fresh && VerdictAt(ks, 1) == Merge(0, NormalizedURL)
      && VerdictAt(ks, 2) == Fresh && VerdictAt(ks, 3) == Conflict
  {
    var ks := AliasLost(p, q, r, u, v);
    assert FirstCarrier(ks, 1, SourceIdentifier, q) == None;
    assert FirstCarrier(ks, 1, NormalizedURL, u) == Some(0);
    assert VerdictAt(ks, 1) == Merge(0, NormalizedURL);
    assert FirstCarrier(ks, 2, SourceIdentifier, r) == None;
    assert FirstCarrier(ks, 2, NormalizedURL, v) == None;
    assert FirstCarrier(ks, 3, SourceIdentifier, q) == Some(1);
    assert FirstCarrier(ks, 3, NormalizedURL, v) == Some(2);
  }

  lemma {:induction false} AliasLostMerges(p: string, q: string, r: string, u: string, v: string)
    requires "" !in {p, q, r, u, v} && p != q && q != r && r != p && u != v
    ensures var ks := AliasLost(p, q, r, u, v);
      && RetainedKeys(ks) == [ks[0], ks[2], ks[3]]
      && !PassChangesNothing(RetainedKeys(ks))
  {
    var ks := AliasLost(p, q, r, u, v);
    AliasLostVerdicts(p, q, r, u, v);
    assert Uniques(ks, ks, 1) == [ks[0]];
    assert Uniques(ks, ks, 2) == [ks[0]];
    assert Uniques(ks, ks, 3) == [ks[0], ks[2]];
    assert Uniques(ks, ks, 4) == [ks[0], ks[2], ks[3]];
    AliasLostCarriers(p, q, r, u, v);
    assert Resolve(KeptCarriers(ks, 3)).Merge?;
    IdempotentExactly(ks);
  }

  lemma {:induction false} AliasLostCarriers(p: string, q: string, r: string, u: string, v: string)
    requires "" !in {p, q, r, u, v} && p != q && q != r && r != p && u != v
    ensures KeptCarriers(AliasLost(p, q, r, u, v), 3) == Evidence(None, Some(2), None)
  {
    var ks := AliasLost(p, q, r, u, v);
    AliasLostVerdicts(p, q, r, u, v);
    assert ks[0].Get(SourceIdentifier) == p && ks[0].Get(NormalizedURL) == u;
    assert ks[2].Get(SourceIdentifier) == r && ks[2].Get(NormalizedURL) == v;
    assert FirstKept(ks, 1, SourceIdentifier, q) == None && FirstKept(ks, 1, NormalizedURL, v) == None;
    assert FirstKept(ks, 2, SourceIdentifier, q) == None && FirstKept(ks, 2, NormalizedURL, v) == None;
  }
}
