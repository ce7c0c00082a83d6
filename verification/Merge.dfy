/** The last-writer-wins join of two scenes. */
module Merge {
  import opened OrderedMaps
  import opened Scenes

  /** Higher version wins; at the same version the lower nonce wins; an exact tie stays local. */
  predicate RemoteWins(local: Element, remote: Element) {
    if remote.version != local.version then remote.version > local.version
    else remote.versionNonce < local.versionNonce
  }

  /** One turn of the merge loop. */
  function Offer(m: SceneIndex, e: Element): SceneIndex {
    if e.id !in m.at || RemoteWins(m.at[e.id], e) then Put(m, e) else m
  }

  function OfferAll(m: SceneIndex, remote: seq<Element>): SceneIndex {
    if remote == [] then m
    else Offer(OfferAll(m, remote[..|remote| - 1]), remote[|remote| - 1])
  }

  method MergeScene(local: seq<Element>, remote: seq<Element>) returns (merged: seq<Element>)
    ensures merged == OfferAll(Index(local), remote).Values()
  {
    var index := Index(local);
    for i := 0 to |remote|
      invariant index == OfferAll(Index(local), remote[..i])
    {
      var remoteElement := remote[i];
      assert remote[..i + 1][..i] == remote[..i];
      if remoteElement.id !in index.at || RemoteWins(index.at[remoteElement.id], remoteElement) {
        index := Put(index, remoteElement);
      }
    }
    assert remote[..|remote|] == remote;
    merged := index.Values();
  }

  /** What the merge leaves under one id, given what was there before. */
  function Winner(cur: Option<Element>, id: string, remote: seq<Element>): Option<Element> {
    if remote == [] then cur
    else
      var w := Winner(cur, id, remote[..|remote| - 1]);
      var last := remote[|remote| - 1];
      if last.id == id && (w.None? || RemoteWins(w.value, last)) then Some(last) else w
  }

  lemma {:induction false} OfferAllAt(m: SceneIndex, remote: seq<Element>, id: string)
    ensures OfferAll(m, remote).Get(id) == Winner(m.Get(id), id, remote)
  {
    if remote != [] {
      OfferAllAt(m, remote[..|remote| - 1], id);
    }
  }

  lemma {:induction false} WinnerConcat(cur: Option<Element>, id: string, a: seq<Element>, b: seq<Element>)
    ensures Winner(cur, id, a + b) == Winner(Winner(cur, id, a), id, b)
  {
    if b == [] {
      assert a + b == a;
    } else {
      WinnerConcat(cur, id, a, b[..|b| - 1]);
      assert (a + b)[..|a + b| - 1] == a + b[..|b| - 1];
    }
  }

  /** `w` comes in at position `i` and beats everything that claimed its id before. */
  ghost predicate EntersAt(w: Element, cur: Option<Element>, id: string, remote: seq<Element>, i: int)
    requires 0 <= i < |remote|
  {
    && remote[i] == w && w.id == id
    && (cur.Some? ==> RemoteWins(cur.value, w))
    && (forall j :: 0 <= j < i && remote[j].id == id ==> RemoteWins(remote[j], w))
  }

  /**
   * `w` is the first maximum, under (version up, nonce down), of the elements claiming `id`:
   * nothing beats it, and it beats whatever claimed the id before it.
   */
  ghost predicate FirstBest(w: Element, cur: Option<Element>, id: string, remote: seq<Element>) {
    && (cur.Some? ==> !RemoteWins(w, cur.value))
    && (forall e :: e in remote && e.id == id ==> !RemoteWins(w, e))
    && (cur == Some(w) || exists i :: 0 <= i < |remote| && EntersAt(w, cur, id, remote, i))
  }

  lemma {:induction false} WinnerIsFirstBest(cur: Option<Element>, id: string, remote: seq<Element>)
    ensures Winner(cur, id, remote).None? <==> cur.None? && !Contains(remote, id)
    ensures Winner(cur, id, remote).Some? ==> FirstBest(Winner(cur, id, remote).value, cur, id, remote)
  {
    if remote != [] {
      var front, last := remote[..|remote| - 1], remote[|remote| - 1];
      assert remote == front + [last];
      WinnerIsFirstBest(cur, id, front);
      WinnerStep(cur, id, front, last);
    }
  }

  lemma {:induction false} WinnerStep(cur: Option<Element>, id: string, front: seq<Element>, last: Element)
    requires Winner(cur, id, front).None? <==> cur.None? && !Contains(front, id)
    requires Winner(cur, id, front).Some? ==> FirstBest(Winner(cur, id, front).value, cur, id, front)
    ensures var w := Winner(cur, id, front + [last]);
            && (w.None? <==> cur.None? && !Contains(front + [last], id))
            && (w.Some? ==> FirstBest(w.value, cur, id, front + [last]))
  {
    var remote := front + [last];
    assert remote[..|remote| - 1] == front;
    ContainsLast(front, last, id);
    var before, w := Winner(cur, id, front), Winner(cur, id, remote);
    if w != before {
      assert w == Some(last);
      if before.Some? {
        assert forall e :: e in front && e.id == id ==> !RemoteWins(before.value, e);
      } else {
        assert forall j :: 0 <= j < |front| ==> front[j].id != id;
      }
      assert EntersAt(last, cur, id, remote, |front|);
    } else if w.Some? && cur != w {
      var i :| 0 <= i < |front| && EntersAt(w.value, cur, id, front, i);
      assert EntersAt(w.value, cur, id, remote, i);
    }
  }

  lemma ContainsLast(front: seq<Element>, last: Element, id: string)
    ensures Contains(front + [last], id) <==> Contains(front, id) || last.id == id
  {
    var all := front + [last];
    if last.id == id {
      assert all[|front|].id == id;
    }
    if Contains(front, id) {
      var i :| 0 <= i < |front| && front[i].id == id;
      assert all[i].id == id;
    }
  }

  /** The first maximum is unique, so being it says exactly which element the merge keeps. */
  lemma FirstBestIsUnique(v: Element, w: Element, cur: Option<Element>, id: string, remote: seq<Element>)
    requires FirstBest(v, cur, id, remote) && FirstBest(w, cur, id, remote)
    ensures v == w
  {
    if cur != Some(v) && cur != Some(w) {
      var i :| 0 <= i < |remote| && EntersAt(v, cur, id, remote, i);
      var j :| 0 <= j < |remote| && EntersAt(w, cur, id, remote, j);
      assert remote[i] in remote && remote[j] in remote;
    }
  }

  /**
   * The join, id by id: an id is present afterwards exactly when either side had it, and it holds
   * the first maximum of the local element followed by the remote ones.
   */
  lemma {:induction false} MergeKeepsTheFirstBest(local: SceneIndex, remote: seq<Element>, id: string)
    ensures id in OfferAll(local, remote).at <==> id in local.at || Contains(remote, id)
    ensures id in OfferAll(local, remote).at ==>
              FirstBest(OfferAll(local, remote).at[id], local.Get(id), id, remote)
  {
    OfferAllAt(local, remote, id);
    WinnerIsFirstBest(local.Get(id), id, remote);
  }

  /** Ids keep their place: the local ids first, as they were, then the new ones. */
  lemma {:induction false} MergeKeepsOrder(local: SceneIndex, remote: seq<Element>)
    ensures local.order <= OfferAll(local, remote).order
  {
    if remote != [] {
      MergeKeepsOrder(local, remote[..|remote| - 1]);
    }
  }

  /** A scene nothing on offer can beat is left as it is, order included. */
  lemma {:induction false} NothingWins(m: SceneIndex, remote: seq<Element>)
    requires forall e :: e in remote ==> e.id in m.at && !RemoteWins(m.at[e.id], e)
    ensures OfferAll(m, remote) == m
  {
    if remote != [] {
      NothingWins(m, remote[..|remote| - 1]);
    }
  }

  /** One element counts for more: a higher version, or the same one and a lower nonce. */
  ghost predicate Newer(a: Element, b: Element) {
    a.version > b.version || (a.version == b.version && a.versionNonce < b.versionNonce)
  }

  /** All that claim an id, the local element first. */
  ghost function Claims(cur: Option<Element>, id: string, remote: seq<Element>): seq<Element> {
    (if cur.Some? then [cur.value] else []) + Claiming(remote, id)
  }

  ghost function Claiming(remote: seq<Element>, id: string): seq<Element> {
    if remote == [] then []
    else if remote[0].id == id then [remote[0]] + Claiming(remote[1..], id)
    else Claiming(remote[1..], id)
  }

  lemma {:induction false} ClaimingLast(front: seq<Element>, last: Element, id: string)
    ensures Claiming(front + [last], id) == Claiming(front, id) + if last.id == id then [last] else []
  {
    if front == [] {
      assert front + [last] == [last] && [last][1..] == [];
    } else {
      assert (front + [last])[1..] == front[1..] + [last];
      ClaimingLast(front[1..], last, id);
    }
  }

  /** The claim at `k` is the first that no other is newer than. */
  ghost predicate FirstNewest(claims: seq<Element>, k: int) {
    && 0 <= k < |claims|
    && (forall j :: 0 <= j < |claims| ==> !Newer(claims[j], claims[k]))
    && (forall j :: 0 <= j < k ==> Newer(claims[k], claims[j]))
  }

  lemma NewestNext(before: seq<Element>, k: int, last: Element)
    requires FirstNewest(before, k)
    ensures FirstNewest(before + [last], if Newer(last, before[k]) then |before| else k)
  {
    var claims := before + [last];
    assert forall j :: 0 <= j < |before| ==> claims[j] == before[j];
  }

  lemma {:induction false} WinnerIsNewest(cur: Option<Element>, id: string, remote: seq<Element>)
    ensures var claims := Claims(cur, id, remote);
            if claims == [] then Winner(cur, id, remote) == None
            else exists k :: FirstNewest(claims, k) && Winner(cur, id, remote) == Some(claims[k])
  {
    var claims := Claims(cur, id, remote);
    if remote == [] {
      assert claims != [] ==> FirstNewest(claims, 0);
    } else {
      var front, last := remote[..|remote| - 1], remote[|remote| - 1];
      assert remote == front + [last];
      WinnerIsNewest(cur, id, front);
      ClaimingLast(front, last, id);
      var before := Claims(cur, id, front);
      if last.id != id {
        assert claims == before;
      } else if before == [] {
        assert claims == [last] && FirstNewest(claims, 0);
      } else {
        assert claims == before + [last];
        var k :| FirstNewest(before, k) && Winner(cur, id, front) == Some(before[k]);
        NewestNext(before, k, last);
      }
    }
  }

  /**
   * Last writer wins: of all that claim an id, the local element first, the merge keeps the first
   * that no other is newer than.
   */
  lemma {:induction false} NewestWins(local: SceneIndex, remote: seq<Element>, id: string)
    ensures var claims := Claims(local.Get(id), id, remote);
            if claims == [] then OfferAll(local, remote).Get(id) == None
            else exists k :: FirstNewest(claims, k) && OfferAll(local, remote).Get(id) == Some(claims[k])
  {
    OfferAllAt(local, remote, id);
    WinnerIsNewest(local.Get(id), id, remote);
  }
}
