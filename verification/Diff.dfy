/** The editor's half of the sync: what changed since the last scene that was sent. */
module Diff {
  import opened Lists
  import opened OrderedMaps
  import opened Scenes
  import opened Merge
  import opened Reconcile

  function DeltaFor(prior: Option<Element>, e: Element): Option<Delta> {
    if e.isDeleted then
      if prior.Some? && !prior.value.isDeleted
      then Some(Delta(e.id, Delete, None, e.version, e.versionNonce))
      else None
    else if prior.None? || prior.value.version != e.version || prior.value.versionNonce != e.versionNonce
    then Some(Delta(e.id, Upsert, Some(e), e.version, e.versionNonce))
    else None
  }

  function Push<T>(xs: seq<T>, x: Option<T>): seq<T> {
    match x case Some(v) => xs + [v] case None => xs
  }

  function ChangedIn(prev: SceneIndex, next: seq<Element>): seq<Delta> {
    if next == [] then []
    else
      var e := next[|next| - 1];
      Push(ChangedIn(prev, next[..|next| - 1]), DeltaFor(prev.Get(e.id), e))
  }

  function VanishedDelta(prior: Element, seen: set<string>): Option<Delta> {
    if prior.id !in seen && !prior.isDeleted
    then Some(Delta(prior.id, Delete, None, prior.version, prior.versionNonce))
    else None
  }

  function VanishedFrom(priors: seq<Element>, seen: set<string>): seq<Delta> {
    if priors == [] then []
    else Push(VanishedFrom(priors[..|priors| - 1], seen), VanishedDelta(priors[|priors| - 1], seen))
  }

  function Seen(next: seq<Element>): set<string> {
    set i | 0 <= i < |next| :: next[i].id
  }

  function Deltas(prev: SceneIndex, next: seq<Element>): seq<Delta> {
    ChangedIn(prev, next) + VanishedFrom(prev.Values(), Seen(next))
  }

  method ComputeDiff(prev: SceneIndex, next: seq<Element>) returns (deltas: seq<Delta>)
    ensures deltas == Deltas(prev, next)
  {
    deltas := [];
    var seen: set<string> := {};
    for i := 0 to |next|
      invariant deltas == ChangedIn(prev, next[..i])
      invariant seen == Seen(next[..i])
    {
      var element := next[i];
      assert next[..i + 1][..i] == next[..i];
      assert Seen(next[..i + 1]) == Seen(next[..i]) + {element.id};
      seen := seen + {element.id};
      var prior := prev.Get(element.id);
      if element.isDeleted {
        if prior.Some? && !prior.value.isDeleted {
          deltas := deltas + [Delta(element.id, Delete, None, element.version, element.versionNonce)];
        }
        continue;
      }
      if prior.None? {
        deltas := deltas + [Delta(element.id, Upsert, Some(element), element.version, element.versionNonce)];
        continue;
      }
      if prior.value.version != element.version || prior.value.versionNonce != element.versionNonce {
        deltas := deltas + [Delta(element.id, Upsert, Some(element), element.version, element.versionNonce)];
      }
    }
    assert next[..|next|] == next;
    var priors := prev.Values();
    ghost var changed := deltas;
    for i := 0 to |priors|
      invariant deltas == changed + VanishedFrom(priors[..i], seen)
    {
      var prior := priors[i];
      assert priors[..i + 1][..i] == priors[..i];
      if prior.id !in seen && !prior.isDeleted {
        deltas := deltas + [Delta(prior.id, Delete, None, prior.version, prior.versionNonce)];
      }
    }
    assert priors[..|priors|] == priors;
  }

  lemma {:induction false} ChangedMembers(prev: SceneIndex, next: seq<Element>, d: Delta)
    ensures d in ChangedIn(prev, next) <==>
            exists e :: e in next && DeltaFor(prev.Get(e.id), e) == Some(d)
  {
    if next != [] {
      var front, last := next[..|next| - 1], next[|next| - 1];
      assert next == front + [last];
      ChangedMembers(prev, front, d);
      assert forall e :: e in next <==> e in front || e == last;
    }
  }

  lemma {:induction false} VanishedMembers(priors: seq<Element>, seen: set<string>, d: Delta)
    ensures d in VanishedFrom(priors, seen) <==>
            exists e :: e in priors && VanishedDelta(e, seen) == Some(d)
  {
    if priors != [] {
      var front, last := priors[..|priors| - 1], priors[|priors| - 1];
      assert priors == front + [last];
      VanishedMembers(front, seen, d);
      assert forall e :: e in priors <==> e in front || e == last;
    }
  }

  /** The deltas aimed at an id the next scene has: the one its element calls for, if any. */
  lemma DeltasAt(prev: SceneIndex, next: seq<Element>, i: nat, d: Delta)
    requires UniqueIds(next) && i < |next|
    ensures d in Deltas(prev, next) && TargetOf(d) == next[i].id <==>
            DeltaFor(prev.Get(next[i].id), next[i]) == Some(d)
  {
    ChangedMembers(prev, next, d);
    VanishedMembers(prev.Values(), Seen(next), d);
    if d in VanishedFrom(prev.Values(), Seen(next)) {
      assert TargetOf(d) !in Seen(next);
    }
    assert next[i].id in Seen(next);
    if d in ChangedIn(prev, next) && TargetOf(d) == next[i].id {
      var e :| e in next && DeltaFor(prev.Get(e.id), e) == Some(d);
      var j :| 0 <= j < |next| && next[j] == e;
      assert i == j;
    }
  }

  lemma {:induction false} ChangedIsSeen(prev: SceneIndex, next: seq<Element>, d: Delta)
    requires d in ChangedIn(prev, next)
    ensures Contains(next, TargetOf(d))
  {
    ChangedMembers(prev, next, d);
    var e :| e in next && DeltaFor(prev.Get(e.id), e) == Some(d);
    var j :| 0 <= j < |next| && next[j] == e;
    assert next[j].id == TargetOf(d);
  }

  /** The deltas aimed at an id that is gone: a delete with the version last seen, if it was live. */
  lemma DeltasAtVanished(prev: SceneIndex, next: seq<Element>, id: string, d: Delta)
    requires !Contains(next, id)
    requires d in Deltas(prev, next) && TargetOf(d) == id
    ensures id in prev.at && !prev.at[id].isDeleted
    ensures d == Delta(id, Delete, None, prev.at[id].version, prev.at[id].versionNonce)
  {
    ChangedMembers(prev, next, d);
    VanishedMembers(prev.Values(), Seen(next), d);
    if d in ChangedIn(prev, next) {
      ChangedIsSeen(prev, next, d);
    } else {
      var e :| e in prev.Values() && VanishedDelta(e, Seen(next)) == Some(d);
      var j :| 0 <= j < |prev.order| && prev.Values()[j] == e;
      assert prev.order[j] in prev.at;
    }
  }

  lemma VanishedIsReported(prev: SceneIndex, next: seq<Element>, id: string)
    requires !Contains(next, id) && id in prev.at && !prev.at[id].isDeleted
    ensures Deltas(prev, next) != []
  {
    var e := prev.at[id];
    var j :| 0 <= j < |prev.order| && prev.order[j] == id;
    assert prev.Values()[j] == e;
    assert e in prev.Values();
    assert id !in Seen(next);
    var d := Delta(id, Delete, None, e.version, e.versionNonce);
    VanishedMembers(prev.Values(), Seen(next), d);
  }

  /**
   * What is reported for an element of the next scene: if it is live and new, or known under
   * another version or nonce, it is sent whole; if it is deleted and was live, its delete is; and
   * nothing else is. The delta carries the element's id, version and nonce.
   */
  lemma ReportsTheElement(prev: SceneIndex, next: seq<Element>, i: nat, d: Delta)
    requires UniqueIds(next) && i < |next|
    ensures var e := next[i];
            var known, wasLive := e.id in prev.at, e.id in Live(prev);
            d in Deltas(prev, next) && d.elementId == e.id <==>
            || (!e.isDeleted && d == Delta(e.id, Upsert, Some(e), e.version, e.versionNonce)
                && (known ==> prev.at[e.id].version != e.version || prev.at[e.id].versionNonce != e.versionNonce))
            || (e.isDeleted && wasLive && d == Delta(e.id, Delete, None, e.version, e.versionNonce))
  {
    DeltasAt(prev, next, i, d);
    TargetIsElementId(prev, next, d);
  }

  lemma {:induction false} TargetIsElementId(prev: SceneIndex, next: seq<Element>, d: Delta)
    ensures d in Deltas(prev, next) ==> TargetOf(d) == d.elementId
  {
    ChangedMembers(prev, next, d);
    VanishedMembers(prev.Values(), Seen(next), d);
  }

  /** What is reported for an element that is gone: its delete as last seen, exactly if it was live. */
  lemma ReportsTheVanished(prev: SceneIndex, next: seq<Element>, id: string, d: Delta)
    requires !Contains(next, id)
    ensures d in Deltas(prev, next) && d.elementId == id <==>
            id in Live(prev) && d == Delta(id, Delete, None, prev.at[id].version, prev.at[id].versionNonce)
  {
    TargetIsElementId(prev, next, d);
    if d in Deltas(prev, next) && d.elementId == id {
      DeltasAtVanished(prev, next, id, d);
    }
    if id in Live(prev) && d == Delta(id, Delete, None, prev.at[id].version, prev.at[id].versionNonce) {
      var e := prev.at[id];
      var j :| 0 <= j < |prev.order| && prev.order[j] == id;
      assert prev.Values()[j] == e;
      assert e in prev.Values();
      VanishedMembers(prev.Values(), Seen(next), d);
    }
  }

  function ElementIds(deltas: seq<Delta>): seq<string> {
    seq(|deltas|, i requires 0 <= i < |deltas| => deltas[i].elementId)
  }

  lemma {:induction false} ChangedInOrder(prev: SceneIndex, next: seq<Element>)
    requires UniqueIds(next)
    ensures InOrderOf(ElementIds(ChangedIn(prev, next)), Ids(next))
    ensures forall id :: id in ElementIds(ChangedIn(prev, next)) ==> id in Ids(next)
  {
    if next != [] {
      var n := |next| - 1;
      ChangedInOrder(prev, next[..n]);
      var before := ElementIds(ChangedIn(prev, next[..n]));
      assert Ids(next) == Ids(next[..n]) + [next[n].id];
      InOrderNew(before, Ids(next[..n]), next[n].id);
      InOrderStill(before, Ids(next[..n]), [next[n].id]);
      assert ElementIds(ChangedIn(prev, next)) ==
             before + if DeltaFor(prev.Get(next[n].id), next[n]).Some? then [next[n].id] else [];
    }
  }

  lemma {:induction false} VanishedInOrder(priors: seq<Element>, seen: set<string>)
    requires UniqueIds(priors)
    ensures InOrderOf(ElementIds(VanishedFrom(priors, seen)), Ids(priors))
    ensures forall id :: id in ElementIds(VanishedFrom(priors, seen)) ==> id in Ids(priors) && id !in seen
  {
    if priors != [] {
      var n := |priors| - 1;
      VanishedInOrder(priors[..n], seen);
      var before := ElementIds(VanishedFrom(priors[..n], seen));
      assert Ids(priors) == Ids(priors[..n]) + [priors[n].id];
      InOrderNew(before, Ids(priors[..n]), priors[n].id);
      InOrderStill(before, Ids(priors[..n]), [priors[n].id]);
      assert ElementIds(VanishedFrom(priors, seen)) ==
             before + if VanishedDelta(priors[n], seen).Some? then [priors[n].id] else [];
    }
  }

  /** One delta per id, the elements of the next scene first, in its order, then what is gone. */
  lemma ReportsInOrder(prev: SceneIndex, next: seq<Element>)
    requires UniqueIds(next)
    ensures InOrderOf(ElementIds(Deltas(prev, next)), Ids(next) + prev.order)
  {
    var changed, vanished := ChangedIn(prev, next), VanishedFrom(prev.Values(), Seen(next));
    ChangedInOrder(prev, next);
    assert forall i :: 0 <= i < |prev.order| ==> prev.order[i] in prev.order;
    assert Ids(prev.Values()) == prev.order;
    VanishedInOrder(prev.Values(), Seen(next));
    assert forall id :: id in Ids(next) ==> id in Seen(next);
    assert ElementIds(Deltas(prev, next)) == ElementIds(changed) + ElementIds(vanished);
    InOrderJoin(ElementIds(changed), ElementIds(vanished), Ids(next), prev.order);
  }

  /** The editor surface: it remembers the last scene it reported. */
  class EditorSurface {
    var previousScene: SceneIndex

    constructor (initialElements: seq<Element>)
      ensures previousScene == Index(initialElements)
    {
      previousScene := Index(initialElements);
    }

    /** The change handler: reports the deltas, and moves the remembered scene only if there are any. */
    method OnChange(next: seq<Element>) returns (deltas: seq<Delta>)
      modifies this
      ensures deltas == Deltas(old(previousScene), next)
      ensures previousScene == Remembered(old(previousScene), next)
      ensures previousScene == if deltas == [] then old(previousScene) else Index(next)
    {
      deltas := ComputeDiff(previousScene, next);
      if |deltas| > 0 {
        previousScene := Index(next);
      }
    }
  }

  function Remembered(prev: SceneIndex, next: seq<Element>): SceneIndex {
    if Deltas(prev, next) == [] then prev else Index(next)
  }
}
