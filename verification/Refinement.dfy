/** The server follows the editor: what a run of changes leaves on both sides. */
module Refinement {
  import opened OrderedMaps
  import opened Scenes
  import opened Merge
  import opened Reconcile
  import opened Diff

  /** What the editor guarantees about an element it shows twice: a change raises the version. */
  ghost predicate VersionsGrow(cur: SceneIndex, next: SceneIndex) {
    forall id :: id in cur.at && id in next.at ==>
      next.at[id] == cur.at[id] || next.at[id].version > cur.at[id].version
  }

  /** The editor keeps tombstones: nothing disappears from its scene. */
  ghost predicate KeepsTombstones(cur: SceneIndex, next: SceneIndex) {
    cur.at.Keys <= next.at.Keys
  }

  ghost predicate FollowsTombstone(cur: Element, side: Option<Element>) {
    side.Some? ==> side.value.isDeleted && side.value.version <= cur.version
  }

  /** What another side should hold for an element of the editor's scene. */
  ghost predicate Settled(e: Element, side: Option<Element>) {
    if e.isDeleted then FollowsTombstone(e, side) else side == Some(e)
  }

  /**
   * The editor shows `cur`, last reported `prev`, and the server holds `server`: all three agree
   * on live elements, and where `cur` has a tombstone the others have an older one or nothing.
   */
  ghost predicate InSync(cur: SceneIndex, prev: SceneIndex, server: SceneIndex) {
    && prev.at.Keys <= cur.at.Keys
    && server.at.Keys <= cur.at.Keys
    && forall id :: id in cur.at ==>
         Settled(cur.at[id], prev.Get(id)) && Settled(cur.at[id], server.Get(id))
  }

  lemma InSyncAgreesOnLive(cur: SceneIndex, prev: SceneIndex, server: SceneIndex)
    requires InSync(cur, prev, server)
    ensures Live(server) == Live(cur)
  {
    forall id
      ensures id in Live(server) <==> id in Live(cur)
      ensures id in Live(cur) && id in Live(server) ==> Live(server)[id] == Live(cur)[id]
    {
      assert server.Get(id) == server.Get(id);
    }
  }

  /** One delta with a higher version than what the server holds decides its id. */
  lemma HigherDeltaWins(server: SceneIndex, deltas: seq<Delta>, d: Delta, e: Element)
    requires d in deltas && Incoming(server, d) == Some(e)
    requires forall f :: f in deltas && TargetOf(f) == e.id ==> f == d
    requires e.id in server.at ==> server.at[e.id].version < e.version
    ensures Reconciled(server, deltas).Get(e.id) == Some(e)
  {
    IncomingMembers(server, deltas, e);
    var incoming := IncomingAll(server, deltas);
    var i :| 0 <= i < |incoming| && incoming[i] == e;
    MergeKeepsTheFirstBest(server, incoming, e.id);
    assert Contains(incoming, e.id) by { assert incoming[i].id == e.id; }
    StaysOrTops(server, deltas, e.id);
    var w := Reconciled(server, deltas).at[e.id];
    if server.Get(e.id) != Some(w) {
      IncomingMembers(server, deltas, w);
    }
  }

  /** How an element of the next scene stands to what the server holds, by the delta it calls for. */
  lemma DeltaAgainstServer(cur: SceneIndex, prev: SceneIndex, server: SceneIndex, e: Element)
    requires InSync(cur, prev, server)
    requires e.id in cur.at ==> e == cur.at[e.id] || e.version > cur.at[e.id].version
    ensures match DeltaFor(prev.Get(e.id), e)
            case None => Settled(e, server.Get(e.id))
            case Some(d) =>
              && (e.id in server.at ==> server.at[e.id].version < e.version)
              && (e.isDeleted ==> e.id in server.at)
  {
    if e.id in cur.at && !cur.at[e.id].isDeleted {
      assert prev.Get(e.id) == Some(cur.at[e.id]) == server.Get(e.id);
    }
  }

  /** What a change does on the server under an id the editor still has. */
  lemma {:induction false} StepAt(cur: SceneIndex, prev: SceneIndex, server: SceneIndex, next: seq<Element>, i: nat)
    requires InSync(cur, prev, server) && UniqueIds(next) && VersionsGrow(cur, Index(next)) && i < |next|
    ensures Settled(next[i], Reconciled(server, Deltas(prev, next)).Get(next[i].id))
  {
    var e := next[i];
    UniqueAt(next, i);
    DeltaAgainstServer(cur, prev, server, e);
    match DeltaFor(prev.Get(e.id), e)
    case None =>
      NoDeltaNoChange(prev, server, next, i);
    case Some(d) =>
      DeltaTakesEffect(prev, server, next, i, d);
  }

  lemma NoDeltaNoChange(prev: SceneIndex, server: SceneIndex, next: seq<Element>, i: nat)
    requires UniqueIds(next) && i < |next| && DeltaFor(prev.Get(next[i].id), next[i]).None?
    ensures Reconciled(server, Deltas(prev, next)).Get(next[i].id) == server.Get(next[i].id)
  {
    forall d | d in Deltas(prev, next) && Incoming(server, d).Some?
      ensures TargetOf(d) != next[i].id
    {
      DeltasAt(prev, next, i, d);
    }
    UntargetedStays(server, Deltas(prev, next), next[i].id);
  }

  lemma DeltaTakesEffect(prev: SceneIndex, server: SceneIndex, next: seq<Element>, i: nat, d: Delta)
    requires UniqueIds(next) && i < |next| && DeltaFor(prev.Get(next[i].id), next[i]) == Some(d)
    requires next[i].id in server.at ==> server.at[next[i].id].version < next[i].version
    requires next[i].isDeleted ==> next[i].id in server.at
    ensures Settled(next[i], Reconciled(server, Deltas(prev, next)).Get(next[i].id))
  {
    var e, deltas := next[i], Deltas(prev, next);
    DeltasAt(prev, next, i, d);
    forall f | f in deltas && TargetOf(f) == e.id
      ensures f == d
    {
      DeltasAt(prev, next, i, f);
    }
    HigherDeltaWins(server, deltas, d, if e.isDeleted then Tombstone(server.at[e.id], d) else e);
  }

  /** Under an id the editor dropped nothing moves: the delete only repeats the known version. */
  lemma StepAtVanished(cur: SceneIndex, prev: SceneIndex, server: SceneIndex, next: seq<Element>, id: string)
    requires InSync(cur, prev, server) && !Contains(next, id)
    ensures Reconciled(server, Deltas(prev, next)).Get(id) == server.Get(id)
  {
    var deltas := Deltas(prev, next);
    forall e | e in IncomingAll(server, deltas) && e.id == id
      ensures id in server.at && !RemoteWins(server.at[id], e)
    {
      IncomingMembers(server, deltas, e);
      var d :| d in deltas && Incoming(server, d) == Some(e);
      DeltasAtVanished(prev, next, id, d);
      VanishedDeltaLoses(cur, prev, server, next, d);
    }
    LosersChangeNothing(server, deltas, id);
  }

  lemma VanishedDeltaLoses(cur: SceneIndex, prev: SceneIndex, server: SceneIndex, next: seq<Element>, d: Delta)
    requires InSync(cur, prev, server)
    requires d in Deltas(prev, next) && !Contains(next, TargetOf(d)) && d.elementId in prev.at
    requires d == Delta(d.elementId, Delete, None, prev.at[d.elementId].version, prev.at[d.elementId].versionNonce)
    ensures d.elementId in server.at ==>
              !RemoteWins(server.at[d.elementId], Tombstone(server.at[d.elementId], d))
  {
    var id := d.elementId;
    DeltasAtVanished(prev, next, id, d);
    assert prev.Get(id) == Some(cur.at[id]) == server.Get(id);
  }

  /** One change, with both sides updated, keeps the editor, its memory and the server in sync. */
  lemma {:induction false} ChangeKeepsSync(cur: SceneIndex, prev: SceneIndex, server: SceneIndex, next: seq<Element>)
    requires InSync(cur, prev, server) && UniqueIds(next)
    requires VersionsGrow(cur, Index(next)) && KeepsTombstones(cur, Index(next))
    ensures InSync(Index(next), Remembered(prev, next), Reconciled(server, Deltas(prev, next)))
  {
    var cur', prev', server' := Index(next), Remembered(prev, next), Reconciled(server, Deltas(prev, next));
    forall id | id in cur'.at
      ensures Settled(cur'.at[id], prev'.Get(id)) && Settled(cur'.at[id], server'.Get(id))
    {
      var i := PositionOf(next, id);
      StepAt(cur, prev, server, next, i);
      if Deltas(prev, next) == [] {
        MemoryStillGood(cur, prev, server, next, i);
      }
    }
    forall id | id in server'.at
      ensures id in cur'.at
    {
      if !Contains(next, id) {
        StepAtVanished(cur, prev, server, next, id);
      }
      IndexKeys(next, id);
    }
  }

  lemma PositionOf(next: seq<Element>, id: string) returns (i: nat)
    requires UniqueIds(next) && id in Index(next).at
    ensures i < |next| && next[i].id == id && Index(next).at[id] == next[i]
  {
    IndexKeys(next, id);
    i :| 0 <= i < |next| && next[i].id == id;
    UniqueAt(next, i);
  }

  /** When a change reports nothing, the scene remembered from before is still the right one. */
  lemma {:induction false} MemoryStillGood(cur: SceneIndex, prev: SceneIndex, server: SceneIndex, next: seq<Element>,
                                           i: nat)
    requires InSync(cur, prev, server) && UniqueIds(next) && VersionsGrow(cur, Index(next)) && i < |next|
    requires Deltas(prev, next) == []
    ensures Settled(next[i], prev.Get(next[i].id))
  {
    var e := next[i];
    UniqueAt(next, i);
    match DeltaFor(prev.Get(e.id), e)
    case Some(d) =>
      DeltasAt(prev, next, i, d);
    case None =>
      if e.id in cur.at {
        assert Settled(cur.at[e.id], prev.Get(e.id));
      }
  }

  // ---------------------------------------------------------------------------------------------
  // Whole runs
  // ---------------------------------------------------------------------------------------------

  datatype Sides = Sides(prev: SceneIndex, server: SceneIndex)

  function After(start: Sides, changes: seq<seq<Element>>): Sides {
    if changes == [] then start
    else
      var s, next := After(start, changes[..|changes| - 1]), changes[|changes| - 1];
      Sides(Remembered(s.prev, next), Reconciled(s.server, Deltas(s.prev, next)))
  }

  /** The editor's scene after a run of changes. */
  function Shown(start: SceneIndex, changes: seq<seq<Element>>): SceneIndex {
    if changes == [] then start else Index(changes[|changes| - 1])
  }

  ghost predicate WellBehaved(start: SceneIndex, changes: seq<seq<Element>>) {
    forall k :: 0 <= k < |changes| ==>
      && UniqueIds(changes[k])
      && VersionsGrow(Shown(start, changes[..k]), Index(changes[k]))
      && KeepsTombstones(Shown(start, changes[..k]), Index(changes[k]))
  }

  lemma {:induction false} RunKeepsSync(start: SceneIndex, changes: seq<seq<Element>>)
    requires WellBehaved(start, changes)
    ensures var s := After(Sides(start, start), changes);
            InSync(Shown(start, changes), s.prev, s.server)
  {
    if changes != [] {
      var front, next := changes[..|changes| - 1], changes[|changes| - 1];
      forall k | 0 <= k < |front|
        ensures front[..k] == changes[..k] && front[k] == changes[k]
      {
      }
      RunKeepsSync(start, front);
      var s := After(Sides(start, start), front);
      ChangeKeepsSync(Shown(start, front), s.prev, s.server, next);
    }
  }

  /**
   * Editor and server agree after every change of every run: starting from the same scene and
   * fed with every emitted batch, the server always holds exactly the editor's live elements.
   */
  lemma {:induction false} ServerFollowsEditor(start: SceneIndex, changes: seq<seq<Element>>, k: nat)
    requires WellBehaved(start, changes) && k <= |changes|
    ensures Live(After(Sides(start, start), changes[..k]).server) == Live(Shown(start, changes[..k]))
  {
    forall j | 0 <= j < k
      ensures changes[..k][..j] == changes[..j] && changes[..k][j] == changes[j]
    {
    }
    RunKeepsSync(start, changes[..k]);
    var s := After(Sides(start, start), changes[..k]);
    InSyncAgreesOnLive(Shown(start, changes[..k]), s.prev, s.server);
  }

  /**
   * Exactly when one change gets through although the editor may drop elements: no live element
   * may vanish. Its delete would carry the version the server already holds, and lose the tie.
   */
  lemma {:induction false} ChangeGetsThroughExactlyWhenNothingLiveVanishes(
    cur: SceneIndex, prev: SceneIndex, server: SceneIndex, next: seq<Element>)
    requires InSync(cur, prev, server) && UniqueIds(next) && VersionsGrow(cur, Index(next))
    ensures Live(Reconciled(server, Deltas(prev, next))) == Live(Index(next)) <==>
            forall id :: id in Live(cur) ==> Contains(next, id)
  {
    var server' := Reconciled(server, Deltas(prev, next));
    if id :| id in Live(cur) && !Contains(next, id) {
      StepAtVanished(cur, prev, server, next, id);
      IndexKeys(next, id);
      assert server.Get(id) == Some(cur.at[id]);
      assert id in Live(server');
    } else {
      forall id
        ensures LiveAt(server', id) == LiveAt(Index(next), id)
      {
        ChangeGetsThroughAt(cur, prev, server, next, id);
      }
      SameLiveAtMeansSameLive(server', Index(next));
    }
  }

  function LiveAt(m: SceneIndex, id: string): Option<Element> {
    if id in m.at && !m.at[id].isDeleted then Some(m.at[id]) else None
  }

  lemma SameLiveAtMeansSameLive(m: SceneIndex, n: SceneIndex)
    requires forall id :: LiveAt(m, id) == LiveAt(n, id)
    ensures Live(m) == Live(n)
  {
    forall id
      ensures id in Live(m) <==> id in Live(n)
      ensures id in Live(m) && id in Live(n) ==> Live(m)[id] == Live(n)[id]
    {
      assert LiveAt(m, id) == LiveAt(n, id);
    }
  }

  lemma {:induction false} ChangeGetsThroughAt(cur: SceneIndex, prev: SceneIndex, server: SceneIndex,
                                               next: seq<Element>, id: string)
    requires InSync(cur, prev, server) && UniqueIds(next) && VersionsGrow(cur, Index(next))
    requires id in Live(cur) ==> Contains(next, id)
    ensures LiveAt(Reconciled(server, Deltas(prev, next)), id) == LiveAt(Index(next), id)
  {
    IndexKeys(next, id);
    if Contains(next, id) {
      var i := PositionOf(next, id);
      StepAt(cur, prev, server, next, i);
    } else {
      StepAtVanished(cur, prev, server, next, id);
      if id in cur.at {
        assert Settled(cur.at[id], server.Get(id));
      }
    }
  }

  /** The editor reports nothing exactly when a reader of the scene would see no difference. */
  lemma {:induction false} SilentExactlyWhenNothingShows(cur: SceneIndex, prev: SceneIndex, server: SceneIndex,
                                                         next: seq<Element>)
    requires InSync(cur, prev, server) && UniqueIds(next) && VersionsGrow(cur, Index(next))
    ensures Deltas(prev, next) == [] <==> Live(cur) == Live(Index(next))
  {
    if Deltas(prev, next) == [] {
      forall id | id in Live(cur)
        ensures Contains(next, id)
      {
        assert prev.Get(id) == Some(cur.at[id]);
        if !Contains(next, id) {
          VanishedIsReported(prev, next, id);
        }
      }
      ChangeGetsThroughExactlyWhenNothingLiveVanishes(cur, prev, server, next);
      InSyncAgreesOnLive(cur, prev, server);
    } else if Live(cur) == Live(Index(next)) {
      var d := Deltas(prev, next)[0];
      DeltaShows(cur, prev, server, next, d);
    }
  }

  lemma {:induction false} DeltaShows(cur: SceneIndex, prev: SceneIndex, server: SceneIndex, next: seq<Element>,
                                      d: Delta)
    requires InSync(cur, prev, server) && UniqueIds(next) && VersionsGrow(cur, Index(next))
    requires d in Deltas(prev, next)
    ensures LiveAt(cur, TargetOf(d)) != LiveAt(Index(next), TargetOf(d))
    ensures Live(cur) != Live(Index(next))
  {
    var id := TargetOf(d);
    IndexKeys(next, id);
    if Contains(next, id) {
      var i := PositionOf(next, id);
      DeltasAt(prev, next, i, d);
    } else {
      DeltasAtVanished(prev, next, id, d);
    }
    assert id in prev.at ==> id in cur.at && Settled(cur.at[id], prev.Get(id));
    assert id in cur.at ==> Settled(cur.at[id], prev.Get(id));
    assert Live(cur) == Live(Index(next)) ==> (id in Live(cur) <==> id in Live(Index(next)));
  }

  /** A live element that leaves the editor's scene without a tombstone stays on the server. */
  lemma VanishedElementStaysOnTheServer(e: Element)
    requires !e.isDeleted
    ensures var cur := Index([e]);
            && InSync(cur, cur, cur) && Deltas(cur, []) != []
            && Reconciled(cur, Deltas(cur, [])).Get(e.id) == Some(e) && Live(Index([])) == map[]
  {
    var cur := Index([e]);
    assert [e][..0] == [];
    UniqueAt([e], 0);
    forall id
      ensures id in cur.at <==> id == e.id
    {
      IndexKeys([e], id);
      if id in cur.at {
        assert cur.at[id] in [e];
      }
    }
    VanishedIsReported(cur, [], e.id);
    StepAtVanished(cur, cur, cur, [], e.id);
  }
}
