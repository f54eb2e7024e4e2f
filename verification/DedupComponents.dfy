/**
 The graph theorem: the articles the engine puts together are exactly the connected
 components of the share-a-key graph, precisely when no article met conflicting evidence.
 */
module DedupComponents {
  import opened Options
  import opened DedupSpec

  ghost predicate Shares(a: Keys, b: Keys) {
    exists kind: Reason :: a.Get(kind) != "" && a.Get(kind) == b.Get(kind)
  }

  /** `p` walks from `i` to `j`, every step between two articles with a key in common. */
  ghost predicate Path(ks: seq<Keys>, p: seq<nat>, i: nat, j: nat) {
    && |p| > 0 && p[0] == i && p[|p| - 1] == j
    && (forall k :: 0 <= k < |p| ==> p[k] < |ks|)
    && (forall k :: 0 < k < |p| ==> Shares(ks[p[k - 1]], ks[p[k]]))
  }

  ghost predicate Connected(ks: seq<Keys>, i: nat, j: nat) {
    exists p :: Path(ks, p, i, j)
  }

  ghost predicate ConflictFree(ks: seq<Keys>) {
    forall i :: 0 <= i < |ks| ==> !VerdictAt(ks, i).Conflict?
  }

  lemma {:induction false} ConnectedTransitive(ks: seq<Keys>, i: nat, j: nat, k: nat)
    requires Connected(ks, i, j) && Connected(ks, j, k)
    ensures Connected(ks, i, k)
  {
    var p :| Path(ks, p, i, j);
    var q :| Path(ks, q, j, k);
    assert Path(ks, p + q[1..], i, k);
  }

  lemma {:induction false} SharingConnects(ks: seq<Keys>, i: nat, j: nat, kind: Reason)
    requires i < |ks| && j < |ks| && ks[i].Get(kind) != "" && ks[i].Get(kind) == ks[j].Get(kind)
    ensures Connected(ks, i, j)
  {
    assert Path(ks, [i, j], i, j);
  }

  lemma {:induction false} ConnectedToRoot(ks: seq<Keys>, i: nat)
    requires i < |ks|
    ensures Connected(ks, i, Root(ks, i)) && Connected(ks, Root(ks, i), i)
  {
    if VerdictAt(ks, i).Merge? {
      var j := MergeWitness(ks, i);
      ConnectedToRoot(ks, j);
      SharingConnects(ks, i, j, VerdictAt(ks, i).reason);
      SharingConnects(ks, j, i, VerdictAt(ks, i).reason);
      ConnectedTransitive(ks, i, j, Root(ks, i));
      ConnectedTransitive(ks, Root(ks, i), j, i);
    } else {
      assert Path(ks, [i], i, i);
    }
  }

  /** For every input, conflicts included: articles put together are linked by shared keys. */
  lemma {:induction false} MergedAreConnected(ks: seq<Keys>, i: nat, j: nat)
    requires i < |ks| && j < |ks| && CanonicalIndex(ks, i) == CanonicalIndex(ks, j)
    ensures Connected(ks, i, j)
  {
    SameCanonicalIndex(ks, i, j);
    ConnectedToRoot(ks, i);
    ConnectedToRoot(ks, j);
    ConnectedTransitive(ks, i, Root(ks, i), j);
  }

  /** Without conflicts an article ends up with the owner of each of its keys. */
  lemma {:induction false} CarrierHasOwnersRoot(ks: seq<Keys>, i: nat, kind: Reason)
    requires i < |ks| && ks[i].Get(kind) != "" && !VerdictAt(ks, i).Conflict?
    ensures Owner(ks, |ks|, kind, ks[i].Get(kind)) == Some(Root(ks, i))
  {
    var v := ks[i].Get(kind);
    var e := EvidenceAt(ks, i);
    EvidenceIsOwner(ks, i, kind);
    ResolveExactly(e, Root(ks, i), if VerdictAt(ks, i).Merge? then VerdictAt(ks, i).reason else kind);
    if e.Of(kind).Some? {
      OwnerNeverRebound(ks, i, |ks|, kind, v);
    } else {
      assert FirstCarrier(ks, i + 1, kind, v) == Some(i);
      OwnerNeverRebound(ks, i + 1, |ks|, kind, v);
    }
  }

  lemma {:induction false} PathKeepsRoot(ks: seq<Keys>, p: seq<nat>, i: nat, j: nat)
    requires ConflictFree(ks) && Path(ks, p, i, j)
    ensures i < |ks| && j < |ks| && Root(ks, i) == Root(ks, j)
    decreases |p|
  {
    assert i == p[0] && j == p[|p| - 1];
    if |p| > 1 {
      assert Shares(ks[p[0]], ks[p[1]]);
      var kind :| ks[i].Get(kind) != "" && ks[i].Get(kind) == ks[p[1]].Get(kind);
      CarrierHasOwnersRoot(ks, i, kind);
      CarrierHasOwnersRoot(ks, p[1], kind);
      PathKeepsRoot(ks, p[1..], p[1], j);
    }
  }

  /** An article that meets a conflict links two articles the engine keeps apart. */
  lemma {:induction false} ConflictSeparatesConnected(ks: seq<Keys>, i: nat) returns (a: nat, b: nat)
    requires i < |ks| && VerdictAt(ks, i).Conflict?
    ensures a < |ks| && b < |ks| && Connected(ks, a, b) && Root(ks, a) != Root(ks, b)
  {
    var e := EvidenceAt(ks, i);
    ResolveExactly(e, 0, SourceIdentifier);
    var x, y :| e.Of(x).Some? && e.Of(y).Some? && e.Of(x) != e.Of(y);
    EvidenceIsOwner(ks, i, x);
    EvidenceIsOwner(ks, i, y);
    a := FirstCarrier(ks, i, x, ks[i].Get(x)).value;
    b := FirstCarrier(ks, i, y, ks[i].Get(y)).value;
    SharingConnects(ks, a, i, x);
    SharingConnects(ks, i, b, y);
    ConnectedTransitive(ks, a, i, b);
  }

  /**
   Canonical indexes are exactly the connected components of the share-a-key graph if and only
   if no article met keys that belong to different canonical articles.
   */
  lemma {:induction false} ClassesAreComponents(ks: seq<Keys>)
    ensures ConflictFree(ks) <==>
      forall i, j :: 0 <= i < |ks| && 0 <= j < |ks| ==>
        (CanonicalIndex(ks, i) == CanonicalIndex(ks, j) <==> Connected(ks, i, j))
  {
    if ConflictFree(ks) {
      forall i, j | 0 <= i < |ks| && 0 <= j < |ks|
        ensures CanonicalIndex(ks, i) == CanonicalIndex(ks, j) <==> Connected(ks, i, j)
      {
        if CanonicalIndex(ks, i) == CanonicalIndex(ks, j) {
          MergedAreConnected(ks, i, j);
        }
        if Connected(ks, i, j) {
          var p :| Path(ks, p, i, j);
          PathKeepsRoot(ks, p, i, j);
        }
      }
    } else {
      var i :| 0 <= i < |ks| && VerdictAt(ks, i).Conflict?;
      var a, b := ConflictSeparatesConnected(ks, i);
      SameCanonicalIndex(ks, a, b);
    }
  }
}
