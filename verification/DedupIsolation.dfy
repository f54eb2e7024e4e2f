/**
 Non-interference: when two groups of articles have no key in common, deduplicating
 their interleaving does to each group what deduplicating that group alone does.
 */
module DedupIsolation {
  import opened Options
  import opened DedupSpec
  import opened DedupComponents

  /** How many of the first `n` articles are in the group. */
  function Count(group: seq<bool>, n: nat): nat {
    if n == 0 then 0 else Count(group, n - 1) + (if n <= |group| && group[n - 1] then 1 else 0)
  }

  /** The members of the group among the first `n`, in order. */
  function Filter<T>(xs: seq<T>, group: seq<bool>, n: nat): (r: seq<T>)
    requires n <= |xs| == |group|
    ensures |r| == Count(group, n)
  {
    if n == 0 then []
    else Filter(xs, group, n - 1) + (if group[n - 1] then [xs[n - 1]] else [])
  }

  ghost predicate NoKeyCrosses(ks: seq<Keys>, group: seq<bool>)
    requires |ks| == |group|
  {
    forall i, j :: 0 <= i < |ks| && 0 <= j < |ks| && group[i] && !group[j] ==> !Shares(ks[i], ks[j])
  }

  function Alone(ks: seq<Keys>, group: seq<bool>): seq<Keys>
    requires |ks| == |group|
  {
    Filter(ks, group, |ks|)
  }

  /**
   Members `i` and `j` of the group fare in `alone` as they do in `ks`: the same keys, the same
   decision for the same reason, and canonical indexes that compare the same way.
   */
  ghost predicate SameOutcome(ks: seq<Keys>, group: seq<bool>, alone: seq<Keys>, i: nat, j: nat)
    requires i < |ks| && j < |ks|
  {
    var ia, ja := Count(group, i), Count(group, j);
    && ia < |alone| && ja < |alone| && alone[ia] == ks[i]
    && (Retained(ks, i) <==> Retained(alone, ia))
    && (!Retained(ks, i) ==> VerdictAt(ks, i).reason == VerdictAt(alone, ia).reason)
    && (CanonicalIndex(ks, i) < CanonicalIndex(ks, j) <==> CanonicalIndex(alone, ia) < CanonicalIndex(alone, ja))
    && (CanonicalIndex(ks, i) == CanonicalIndex(ks, j) <==> CanonicalIndex(alone, ia) == CanonicalIndex(alone, ja))
  }

  lemma {:induction false} CountMonotone(group: seq<bool>, a: nat, b: nat)
    requires a <= b
    ensures Count(group, a) <= Count(group, b)
    ensures a < b && a < |group| && group[a] ==> Count(group, a) < Count(group, b)
    decreases b
  {
    if a < b {
      CountMonotone(group, a, b - 1);
    }
  }

  lemma {:induction false} CountOrders(group: seq<bool>, a: nat, b: nat)
    requires a < |group| && b < |group| && group[a] && group[b]
    ensures a < b <==> Count(group, a) < Count(group, b)
  {
    if a < b { CountMonotone(group, a, b); } else { CountMonotone(group, b, a); }
  }

  lemma {:induction false} FilterAt<T>(xs: seq<T>, group: seq<bool>, n: nat, i: nat)
    requires i < n <= |xs| == |group| && group[i]
    ensures Count(group, i) < Count(group, n) && Filter(xs, group, n)[Count(group, i)] == xs[i]
    decreases n
  {
    CountMonotone(group, i, n);
    if i < n - 1 {
      CountMonotone(group, i, n - 1);
      FilterAt(xs, group, n - 1, i);
    }
  }

  ghost predicate OnlyInGroup(ks: seq<Keys>, group: seq<bool>, kind: Reason, v: string)
    requires |ks| == |group|
  {
    forall j :: 0 <= j < |ks| && ks[j].Get(kind) == v ==> group[j]
  }

  function Renamed(group: seq<bool>, o: Option<nat>): Option<nat> {
    if o.Some? then Some(Count(group, o.value)) else None
  }

  /** The first carrier of a key that only the group uses is the same article in both runs. */
  lemma {:induction false} FirstCarrierAlone(ks: seq<Keys>, group: seq<bool>, n: nat, kind: Reason, v: string)
    requires n <= |ks| == |group| && v != "" && OnlyInGroup(ks, group, kind, v)
    ensures Count(group, n) <= |Alone(ks, group)|
    ensures FirstCarrier(Alone(ks, group), Count(group, n), kind, v) == Renamed(group, FirstCarrier(ks, n, kind, v))
  {
    CountMonotone(group, n, |ks|);
    if n > 0 {
      FirstCarrierAlone(ks, group, n - 1, kind, v);
      CarrierStep(ks, n, kind, v);
      if group[n - 1] {
        FilterAt(ks, group, |ks|, n - 1);
        CarrierStep(Alone(ks, group), Count(group, n), kind, v);
      } else {
        assert ks[n - 1].Get(kind) != v;
      }
    }
  }

  lemma {:induction false} CarrierStep(ks: seq<Keys>, n: nat, kind: Reason, v: string)
    requires 0 < n <= |ks| && v != ""
    ensures FirstCarrier(ks, n, kind, v)
         == if FirstCarrier(ks, n - 1, kind, v).Some? then FirstCarrier(ks, n - 1, kind, v)
            else if ks[n - 1].Get(kind) == v then Some(n - 1) else None
  {
  }

  /** Every member of the group gets the verdict it gets alone, under the renaming `Count`. */
  lemma {:induction false} VerdictAlone(ks: seq<Keys>, group: seq<bool>, i: nat)
    requires |ks| == |group| && NoKeyCrosses(ks, group) && i < |ks| && group[i]
    ensures Root(ks, i) < |ks| && group[Root(ks, i)] && Count(group, i) < |Alone(ks, group)|
    ensures VerdictAt(Alone(ks, group), Count(group, i)) == MapVerdict(VerdictAt(ks, i), r => Count(group, r))
    ensures Root(Alone(ks, group), Count(group, i)) == Count(group, Root(ks, i))
    decreases i
  {
    var rename := r => Count(group, r);
    var alone, at := Alone(ks, group), Count(group, i);
    FilterAt(ks, group, |ks|, i);
    var e, ea := EvidenceAt(ks, i), EvidenceAt(alone, at);
    forall kind
      ensures ea.Of(kind) == MapOption(e.Of(kind), rename)
      ensures e.Of(kind).Some? ==> e.Of(kind).value < |ks| && group[e.Of(kind).value]
    {
      OwnerAlone(ks, group, i, kind);
      EvidenceIsOwner(ks, i, kind);
      EvidenceIsOwner(alone, at, kind);
    }
    assert ea.Of(SourceIdentifier) == ea.identifier && ea.Of(NormalizedURL) == ea.url;
    assert ea.Of(ContentFingerprint) == ea.content;
    assert ea == e.Map(rename);
    forall a, b | e.Of(a).Some? && e.Of(b).Some? && rename(e.Of(a).value) == rename(e.Of(b).value)
      ensures e.Of(a) == e.Of(b)
    {
      CountOrders(group, e.Of(a).value, e.Of(b).value);
      CountOrders(group, e.Of(b).value, e.Of(a).value);
    }
    ResolveRenamed(e, rename);
    if VerdictAt(ks, i).Merge? {
      ResolveExactly(e, VerdictAt(ks, i).canonical, VerdictAt(ks, i).reason);
    }
  }

  lemma {:induction false} OwnerAlone(ks: seq<Keys>, group: seq<bool>, i: nat, kind: Reason)
    requires |ks| == |group| && NoKeyCrosses(ks, group) && i < |ks| && group[i]
    ensures Count(group, i) <= |Alone(ks, group)|
    ensures var o := Owner(ks, i, kind, ks[i].Get(kind));
      && Owner(Alone(ks, group), Count(group, i), kind, ks[i].Get(kind)) == Renamed(group, o)
      && (o.Some? ==> o.value < |ks| && group[o.value])
    decreases i, 0
  {
    CountMonotone(group, i, |ks|);
    var v := ks[i].Get(kind);
    if v != "" {
      forall j | 0 <= j < |ks| && ks[j].Get(kind) == v ensures group[j] {
        assert Shares(ks[i], ks[j]);
      }
      FirstCarrierAlone(ks, group, i, kind, v);
      var j := FirstCarrier(ks, i, kind, v);
      if j.Some? {
        VerdictAlone(ks, group, j.value);
        RootIsRetained(ks, j.value);
      }
    }
  }

  /**
   Keeping the group's results of the interleaved run is the same as running on the group alone,
   up to a monotone renumbering of canonical indexes.
   */
  lemma {:induction false} GroupRunsAlone(ks: seq<Keys>, group: seq<bool>, i: nat, j: nat)
    requires |ks| == |group| && NoKeyCrosses(ks, group)
    requires i < |ks| && j < |ks| && group[i] && group[j]
    ensures SameOutcome(ks, group, Alone(ks, group), i, j)
  {
    var alone := Alone(ks, group);
    var ia, ja := Count(group, i), Count(group, j);
    FilterAt(ks, group, |ks|, i);
    VerdictAlone(ks, group, i);
    VerdictAlone(ks, group, j);
    RootIsRetained(ks, i);
    RootIsRetained(ks, j);
    RootIsRetained(alone, ia);
    RootIsRetained(alone, ja);
    RankOrdersRoots(ks, Root(ks, i), Root(ks, j));
    RankOrdersRoots(alone, Root(alone, ia), Root(alone, ja));
    CountOrders(group, Root(ks, i), Root(ks, j));
    CountOrders(group, Root(ks, j), Root(ks, i));
  }

  function MapKeys<A>(xs: seq<A>, key: A -> Keys): (ks: seq<Keys>)
    ensures |ks| == |xs| && forall i :: 0 <= i < |xs| ==> ks[i] == key(xs[i])
  {
    if xs == [] then [] else MapKeys(xs[..|xs| - 1], key) + [key(xs[|xs| - 1])]
  }

  lemma {:induction false} FilterMapped<A>(xs: seq<A>, key: A -> Keys, group: seq<bool>, n: nat)
    requires n <= |xs| == |group|
    ensures Filter(MapKeys(xs, key), group, n) == MapKeys(Filter(xs, group, n), key)
  {
    if n > 0 {
      FilterMapped(xs, key, group, n - 1);
    }
  }

  /** The same for articles whose keys are computed from them. */
  lemma {:induction false} GroupOfArticlesRunsAlone<A>(xs: seq<A>, key: A -> Keys, group: seq<bool>, i: nat, j: nat)
    requires |xs| == |group| && i < |xs| && j < |xs| && group[i] && group[j]
    requires forall m, n :: 0 <= m < |xs| && 0 <= n < |xs| && group[m] && !group[n] ==> !Shares(key(xs[m]), key(xs[n]))
    ensures SameOutcome(MapKeys(xs, key), group, MapKeys(Filter(xs, group, |xs|), key), i, j)
  {
    GroupRunsAlone(MapKeys(xs, key), group, i, j);
    FilterMapped(xs, key, group, |xs|);
  }
}
