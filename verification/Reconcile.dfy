/** Applying a batch of deltas to the server's scene. */
module Reconcile {
  import opened OrderedMaps
  import opened Scenes
  import opened Merge

  datatype DeltaKind = Upsert | Delete

  datatype Delta = Delta(elementId: string, kind: DeltaKind, element: Option<Element>,
                         version: int, versionNonce: int)

  function Tombstone(existing: Element, d: Delta): Element {
    existing.(isDeleted := true, version := d.version, versionNonce := d.versionNonce)
  }

  /**
   * The element a delta feeds to the merge. An upsert speaks for its element's own id; a delete is
   * looked up in the scene as it was before the batch, and is dropped if it is not there.
   */
  function Incoming(scene: SceneIndex, d: Delta): Option<Element> {
    if d.kind.Upsert? then d.element
    else if d.elementId in scene.at then Some(Tombstone(scene.at[d.elementId], d))
    else None
  }

  function IncomingAll(scene: SceneIndex, deltas: seq<Delta>): seq<Element> {
    if deltas == [] then []
    else
      var before := IncomingAll(scene, deltas[..|deltas| - 1]);
      match Incoming(scene, deltas[|deltas| - 1])
      case Some(e) => before + [e]
      case None => before
  }

  function Applied(scene: SceneIndex, deltas: seq<Delta>): seq<Delta> {
    if deltas == [] then []
    else
      var before, last := Applied(scene, deltas[..|deltas| - 1]), deltas[|deltas| - 1];
      if Incoming(scene, last).Some? then before + [last] else before
  }

  function Reconciled(scene: SceneIndex, deltas: seq<Delta>): SceneIndex {
    OfferAll(scene, IncomingAll(scene, deltas))
  }

  method ReconcileOperation(currentScene: SceneIndex, deltas: seq<Delta>)
    returns (scene: SceneIndex, applied: seq<Delta>)
    ensures scene == Reconciled(currentScene, deltas)
    ensures applied == Applied(currentScene, deltas)
  {
    var localElements := currentScene.Values();
    var remoteElements: seq<Element> := [];
    applied := [];
    for i := 0 to |deltas|
      invariant remoteElements == IncomingAll(currentScene, deltas[..i])
      invariant applied == Applied(currentScene, deltas[..i])
    {
      var delta := deltas[i];
      assert deltas[..i + 1][..i] == deltas[..i];
      if delta.kind.Upsert? {
        if delta.element.None? { continue; }
        remoteElements := remoteElements + [delta.element.value];
        applied := applied + [delta];
        continue;
      }
      if delta.elementId !in currentScene.at { continue; }
      remoteElements := remoteElements + [Tombstone(currentScene.at[delta.elementId], delta)];
      applied := applied + [delta];
    }
    assert deltas[..|deltas|] == deltas;
    IndexOfValues(currentScene);
    var reconciled := MergeScene(localElements, remoteElements);
    IndexOfValues(OfferAll(currentScene, remoteElements));
    scene := Index(reconciled);
  }

  lemma {:induction false} IncomingMembers(scene: SceneIndex, deltas: seq<Delta>, e: Element)
    ensures e in IncomingAll(scene, deltas) <==> exists d :: d in deltas && Incoming(scene, d) == Some(e)
  {
    if deltas != [] {
      var front, last := deltas[..|deltas| - 1], deltas[|deltas| - 1];
      assert deltas == front + [last];
      IncomingMembers(scene, front, e);
      assert last in deltas;
      assert forall d :: d in deltas <==> d in front || d == last;
    }
  }

  lemma {:induction false} IncomingOne(scene: SceneIndex, d: Delta)
    ensures IncomingAll(scene, [d]) == (match Incoming(scene, d) case Some(e) => [e] case None => [])
  {
    assert [d][..0] == [];
    assert IncomingAll(scene, []) == [];
  }

  lemma {:induction false} IncomingConcat(scene: SceneIndex, a: seq<Delta>, b: seq<Delta>)
    ensures IncomingAll(scene, a + b) == IncomingAll(scene, a) + IncomingAll(scene, b)
  {
    if b == [] {
      assert a + b == a;
    } else {
      IncomingConcat(scene, a, b[..|b| - 1]);
      assert (a + b)[..|a + b| - 1] == a + b[..|b| - 1];
    }
  }

  lemma {:induction false} OfferAllSnoc(m: SceneIndex, es: seq<Element>, e: Element)
    ensures OfferAll(m, es + [e]) == Offer(OfferAll(m, es), e)
  {
    assert (es + [e])[..|es|] == es;
  }

  lemma {:induction false} OfferAllConcat(m: SceneIndex, a: seq<Element>, b: seq<Element>)
    ensures OfferAll(m, a + b) == OfferAll(OfferAll(m, a), b)
  {
    if b == [] {
      assert a + b == a;
    } else {
      var front, last := b[..|b| - 1], b[|b| - 1];
      assert b == front + [last] && a + b == (a + front) + [last];
      OfferAllConcat(m, a, front);
      OfferAllSnoc(m, a + front, last);
      OfferAllSnoc(OfferAll(m, a), front, last);
    }
  }

  // ---------------------------------------------------------------------------------------------
  // What one batch does to one id
  // ---------------------------------------------------------------------------------------------

  ghost predicate Creates(deltas: seq<Delta>, id: string) {
    exists d :: d in deltas && d.kind.Upsert? && d.element.Some? && d.element.value.id == id
  }

  /** The id a delta can change: an upsert's element's own id, a delete's `elementId`. */
  function TargetOf(d: Delta): string {
    if d.kind.Upsert? && d.element.Some? then d.element.value.id else d.elementId
  }

  /**
   * After a batch each id holds the first maximum of its old element and what the batch offers,
   * and the ids present are the old ones plus those an upsert of the batch creates.
   */
  lemma {:induction false} ReconcileKeepsTheFirstBest(scene: SceneIndex, deltas: seq<Delta>, id: string)
    ensures id in Reconciled(scene, deltas).at <==> id in scene.at || Creates(deltas, id)
    ensures id in Reconciled(scene, deltas).at ==>
              FirstBest(Reconciled(scene, deltas).at[id], scene.Get(id), id, IncomingAll(scene, deltas))
  {
    var incoming := IncomingAll(scene, deltas);
    MergeKeepsTheFirstBest(scene, incoming, id);
    if Contains(incoming, id) {
      var i :| 0 <= i < |incoming| && incoming[i].id == id;
      IncomingMembers(scene, deltas, incoming[i]);
    }
    if Creates(deltas, id) {
      var d :| d in deltas && d.kind.Upsert? && d.element.Some? && d.element.value.id == id;
      IncomingMembers(scene, deltas, d.element.value);
      assert d.element.value in incoming;
    }
  }

  /** An id no applied delta targets keeps its element. */
  lemma UntargetedStays(scene: SceneIndex, deltas: seq<Delta>, id: string)
    requires forall d :: d in deltas && Incoming(scene, d).Some? ==> TargetOf(d) != id
    ensures Reconciled(scene, deltas).Get(id) == scene.Get(id)
  {
    ReconcileKeepsTheFirstBest(scene, deltas, id);
    forall e | e in IncomingAll(scene, deltas)
      ensures e.id != id
    {
      IncomingMembers(scene, deltas, e);
    }
  }

  /** An id nobody outranks keeps its element. */
  lemma {:induction false} LosersChangeNothing(scene: SceneIndex, deltas: seq<Delta>, id: string)
    requires forall e :: e in IncomingAll(scene, deltas) && e.id == id ==>
               id in scene.at && !RemoteWins(scene.at[id], e)
    ensures Reconciled(scene, deltas).Get(id) == scene.Get(id)
  {
    var incoming := IncomingAll(scene, deltas);
    MergeKeepsTheFirstBest(scene, incoming, id);
    if Contains(incoming, id) {
      var i :| 0 <= i < |incoming| && incoming[i].id == id;
      assert incoming[i] in incoming;
    }
  }

  // ---------------------------------------------------------------------------------------------
  // A single delta
  // ---------------------------------------------------------------------------------------------

  lemma {:induction false} OneOffer(scene: SceneIndex, d: Delta)
    ensures Reconciled(scene, [d]) == match Incoming(scene, d) case None => scene case Some(e) => Offer(scene, e)
  {
    IncomingOne(scene, d);
    if Incoming(scene, d).Some? {
      assert [] + [Incoming(scene, d).value] == [Incoming(scene, d).value];
      OfferAllSnoc(scene, [], Incoming(scene, d).value);
    }
  }

  lemma OfferAt(m: SceneIndex, e: Element)
    ensures Offer(m, e).Get(e.id) == Some(if e.id in m.at && !Newer(e, m.at[e.id]) then m.at[e.id] else e)
  {
  }

  /** A delete turns the element it finds into a tombstone, unless that element is at least as new. */
  lemma DeleteAlone(scene: SceneIndex, id: string, version: int, nonce: int)
    ensures var after := Reconciled(scene, [Delta(id, Delete, None, version, nonce)]);
            if id !in scene.at then after == scene
            else
              var e := scene.at[id];
              after.Get(id) == Some(if version > e.version || (version == e.version && nonce < e.versionNonce)
                                    then e.(isDeleted := true, version := version, versionNonce := nonce) else e)
  {
    var d := Delta(id, Delete, None, version, nonce);
    OneOffer(scene, d);
    if id in scene.at {
      var e := scene.at[id];
      var tombstone := e.(isDeleted := true, version := version, versionNonce := nonce);
      assert Incoming(scene, d) == Some(tombstone);
      OfferAt(scene, tombstone);
    }
  }

  /** An upsert brings its element, under the element's own id, unless the one there is at least as new. */
  lemma UpsertAlone(scene: SceneIndex, e: Element, elementId: string, version: int, nonce: int)
    ensures var after := Reconciled(scene, [Delta(elementId, Upsert, Some(e), version, nonce)]);
            after.Get(e.id) == Some(if e.id in scene.at && !Newer(e, scene.at[e.id]) then scene.at[e.id] else e)
  {
    OneOffer(scene, Delta(elementId, Upsert, Some(e), version, nonce));
    OfferAt(scene, e);
  }

  /** The applied deltas are, in order, the upserts with an element and the deletes of known ids. */
  lemma {:induction false} AppliedInOrder(scene: SceneIndex, deltas: seq<Delta>, d: Delta)
    ensures Applied(scene, []) == []
    ensures Applied(scene, deltas + [d]) ==
            Applied(scene, deltas) +
            if (d.kind.Upsert? && d.element.Some?) || (d.kind.Delete? && d.elementId in scene.at) then [d] else []
  {
    assert (deltas + [d])[..|deltas|] == deltas;
  }

  // ---------------------------------------------------------------------------------------------
  // Convergence: the order of a batch
  // ---------------------------------------------------------------------------------------------

  ghost predicate SameKey(a: Element, b: Element) {
    a.id == b.id && a.version == b.version && a.versionNonce == b.versionNonce
  }

  /** An element the batch offers that beats the scene and that nothing else in the batch beats. */
  ghost predicate Tops(scene: SceneIndex, deltas: seq<Delta>, e: Element) {
    && e in IncomingAll(scene, deltas)
    && (e.id in scene.at ==> RemoteWins(scene.at[e.id], e))
    && forall f :: f in IncomingAll(scene, deltas) && f.id == e.id ==> !RemoteWins(e, f)
  }

  /** No two different elements share the winning key of an id. */
  ghost predicate NoTopTie(scene: SceneIndex, deltas: seq<Delta>) {
    forall a, b :: Tops(scene, deltas, a) && Tops(scene, deltas, b) && SameKey(a, b) ==> a == b
  }

  /** What a batch leaves is either the scene's element, undefeated, or a top element of the batch. */
  lemma {:induction false} StaysOrTops(scene: SceneIndex, deltas: seq<Delta>, id: string)
    requires id in Reconciled(scene, deltas).at
    ensures var w := Reconciled(scene, deltas).at[id];
            if scene.Get(id) == Some(w)
            then forall e :: e in IncomingAll(scene, deltas) && e.id == id ==> !RemoteWins(w, e)
            else w.id == id && Tops(scene, deltas, w)
  {
    ReconcileKeepsTheFirstBest(scene, deltas, id);
    var incoming, w := IncomingAll(scene, deltas), Reconciled(scene, deltas).at[id];
    if scene.Get(id) != Some(w) {
      var i :| 0 <= i < |incoming| && EntersAt(w, scene.Get(id), id, incoming, i);
      assert incoming[i] in incoming;
    }
  }

  lemma {:induction false} SameIncoming(scene: SceneIndex, d1: seq<Delta>, d2: seq<Delta>, e: Element)
    requires forall d :: d in d1 <==> d in d2
    ensures e in IncomingAll(scene, d1) <==> e in IncomingAll(scene, d2)
    ensures Tops(scene, d1, e) <==> Tops(scene, d2, e)
  {
    forall f
      ensures f in IncomingAll(scene, d1) <==> f in IncomingAll(scene, d2)
    {
      IncomingMembers(scene, d1, f);
      IncomingMembers(scene, d2, f);
    }
  }

  /** If one order leaves the scene's element in place, so does the other. */
  lemma StayingIsShared(scene: SceneIndex, d1: seq<Delta>, d2: seq<Delta>, id: string)
    requires forall d :: d in d1 <==> d in d2
    requires id in Reconciled(scene, d1).at && id in Reconciled(scene, d2).at
    requires scene.Get(id) == Some(Reconciled(scene, d1).at[id])
    ensures Reconciled(scene, d2).at[id] == Reconciled(scene, d1).at[id]
  {
    var w := Reconciled(scene, d2).at[id];
    StaysOrTops(scene, d1, id);
    StaysOrTops(scene, d2, id);
    SameIncoming(scene, d1, d2, w);
  }

  lemma TopsAgree(scene: SceneIndex, deltas: seq<Delta>, v: Element, w: Element)
    requires Tops(scene, deltas, v) && Tops(scene, deltas, w) && v.id == w.id
    requires NoTopTie(scene, deltas)
    ensures v == w
  {
    assert !RemoteWins(v, w) && !RemoteWins(w, v);
    assert SameKey(v, w);
  }

  lemma ConvergesAt(scene: SceneIndex, d1: seq<Delta>, d2: seq<Delta>, id: string)
    requires forall d :: d in d1 <==> d in d2
    requires NoTopTie(scene, d1)
    requires id in Reconciled(scene, d1).at && id in Reconciled(scene, d2).at
    ensures Reconciled(scene, d1).at[id] == Reconciled(scene, d2).at[id]
  {
    var v, w := Reconciled(scene, d1).at[id], Reconciled(scene, d2).at[id];
    StaysOrTops(scene, d1, id);
    StaysOrTops(scene, d2, id);
    if scene.Get(id) == Some(v) {
      StayingIsShared(scene, d1, d2, id);
    } else if scene.Get(id) == Some(w) {
      StayingIsShared(scene, d2, d1, id);
    } else {
      SameIncoming(scene, d1, d2, w);
      TopsAgree(scene, d1, v, w);
    }
  }

  /**
   * Two batches with the same deltas in them, whatever their order and repetitions, lead to the
   * same element under every id, unless two different elements tie for first place.
   */
  lemma Convergence(scene: SceneIndex, d1: seq<Delta>, d2: seq<Delta>)
    requires forall d :: d in d1 <==> d in d2
    requires NoTopTie(scene, d1)
    ensures Reconciled(scene, d1).at == Reconciled(scene, d2).at
  {
    var a, b := Reconciled(scene, d1).at, Reconciled(scene, d2).at;
    forall id
      ensures (id in a <==> id in b) && (id in a && id in b ==> a[id] == b[id])
    {
      ReconcileKeepsTheFirstBest(scene, d1, id);
      ReconcileKeepsTheFirstBest(scene, d2, id);
      if id in a && id in b {
        ConvergesAt(scene, d1, d2, id);
      }
    }
  }

  /** In particular where among what the batch offers a version and nonce determine the element. */
  lemma {:induction false} ConvergenceWhereKeysDecide(scene: SceneIndex, d1: seq<Delta>, d2: seq<Delta>)
    requires forall d :: d in d1 <==> d in d2
    requires forall a, b ::
               a in IncomingAll(scene, d1) && b in IncomingAll(scene, d1) && SameKey(a, b) ==> a == b
    ensures Reconciled(scene, d1).at == Reconciled(scene, d2).at
  {
    Convergence(scene, d1, d2);
  }

  function ToFront(deltas: seq<Delta>, i: nat): seq<Delta>
    requires i < |deltas|
    ensures multiset(ToFront(deltas, i)) == multiset(deltas)
  {
    assert deltas == deltas[..i] + [deltas[i]] + deltas[i + 1..];
    [deltas[i]] + (deltas[..i] + deltas[i + 1..])
  }

  /** A top element whose delta comes first is the one that stays. */
  lemma FirstTopStays(scene: SceneIndex, deltas: seq<Delta>, i: nat, e: Element)
    requires i < |deltas| && Incoming(scene, deltas[i]) == Some(e) && Tops(scene, deltas, e)
    ensures Reconciled(scene, ToFront(deltas, i)).Get(e.id) == Some(e)
  {
    var moved := ToFront(deltas, i);
    var rest := deltas[..i] + deltas[i + 1..];
    IncomingConcat(scene, [deltas[i]], rest);
    IncomingOne(scene, deltas[i]);
    var incoming := IncomingAll(scene, moved);
    assert incoming == [e] + IncomingAll(scene, rest);
    forall f | f in incoming && f.id == e.id
      ensures !RemoteWins(e, f)
    {
      IncomingMembers(scene, moved, f);
      IncomingMembers(scene, deltas, f);
      var d :| d in moved && Incoming(scene, d) == Some(f);
      assert d in multiset(moved);
      assert d in deltas;
    }
    ReconcileKeepsTheFirstBest(scene, moved, e.id);
    assert EntersAt(e, scene.Get(e.id), e.id, incoming, 0);
    assert FirstBest(e, scene.Get(e.id), e.id, incoming);
    assert incoming[0].id == e.id;
    MergeKeepsTheFirstBest(scene, incoming, e.id);
    FirstBestIsUnique(e, Reconciled(scene, moved).at[e.id], scene.Get(e.id), e.id, incoming);
  }

  /**
   * Exactly when the order of a batch cannot matter: every permutation of it gives the same
   * id-to-element map if and only if no two different elements tie for first place.
   */
  lemma ConvergesExactlyWithoutTopTies(scene: SceneIndex, deltas: seq<Delta>)
    ensures NoTopTie(scene, deltas) <==>
            forall other :: multiset(other) == multiset(deltas) ==>
                              Reconciled(scene, other).at == Reconciled(scene, deltas).at
  {
    if NoTopTie(scene, deltas) {
      forall other | multiset(other) == multiset(deltas)
        ensures Reconciled(scene, other).at == Reconciled(scene, deltas).at
      {
        assert forall d :: d in deltas <==> d in multiset(deltas);
        assert forall d :: d in other <==> d in multiset(other);
        Convergence(scene, deltas, other);
      }
    } else {
      var a, b :| Tops(scene, deltas, a) && Tops(scene, deltas, b) && SameKey(a, b) && a != b;
      IncomingMembers(scene, deltas, a);
      IncomingMembers(scene, deltas, b);
      var i :| 0 <= i < |deltas| && Incoming(scene, deltas[i]) == Some(a);
      var j :| 0 <= j < |deltas| && Incoming(scene, deltas[j]) == Some(b);
      FirstTopStays(scene, deltas, i, a);
      FirstTopStays(scene, deltas, j, b);
      assert Reconciled(scene, ToFront(deltas, i)).at != Reconciled(scene, ToFront(deltas, j)).at;
    }
  }

  // ---------------------------------------------------------------------------------------------
  // Splitting a batch
  // ---------------------------------------------------------------------------------------------

  /** Equal up to the content of tombstones: same key, same deleted flag, same live element. */
  ghost predicate SameReading(a: Element, b: Element) {
    && SameKey(a, b) && a.isDeleted == b.isDeleted
    && (!a.isDeleted ==> a == b)
  }

  ghost predicate SameView(m: SceneIndex, n: SceneIndex) {
    && m.order == n.order
    && m.at.Keys == n.at.Keys
    && forall id :: id in m.at ==> SameReading(m.at[id], n.at[id])
  }

  lemma PutKeepsView(m: SceneIndex, n: SceneIndex, e: Element, f: Element)
    requires SameView(m, n) && SameReading(e, f)
    ensures SameView(Put(m, e), Put(n, f))
  {
    assert e.id in m.at.Keys <==> e.id in n.at.Keys;
    var m', n' := Put(m, e), Put(n, f);
    assert m'.order == n'.order;
    forall id
      ensures (id in m'.at <==> id in n'.at) && (id in m'.at ==> SameReading(m'.at[id], n'.at[id]))
    {
      assert id in m.at.Keys <==> id in n.at.Keys;
    }
  }

  lemma OfferKeepsView(m: SceneIndex, n: SceneIndex, e: Element, f: Element)
    requires SameView(m, n) && SameReading(e, f)
    ensures SameView(Offer(m, e), Offer(n, f))
  {
    assert e.id in m.at.Keys <==> e.id in n.at.Keys;
    if e.id in m.at {
      assert SameReading(m.at[e.id], n.at[e.id]);
      assert RemoteWins(m.at[e.id], e) <==> RemoteWins(n.at[e.id], f);
    }
    PutKeepsView(m, n, e, f);
  }

  /** Every delete of the second part finds its id before the first part, if it finds it after. */
  ghost predicate SplitSafe(scene: SceneIndex, d1: seq<Delta>, d2: seq<Delta>) {
    forall d :: d in d2 && d.kind.Delete? && d.elementId !in scene.at ==> !Creates(d1, d.elementId)
  }

  lemma {:induction false} SplitFrom(scene: SceneIndex, d1: seq<Delta>, d2: seq<Delta>)
    requires SplitSafe(scene, d1, d2)
    ensures var mid := Reconciled(scene, d1);
            SameView(Reconciled(mid, d2), OfferAll(mid, IncomingAll(scene, d2)))
  {
    var mid := Reconciled(scene, d1);
    if d2 != [] {
      var front, last := d2[..|d2| - 1], d2[|d2| - 1];
      assert d2 == front + [last];
      SplitFrom(scene, d1, front);
      var ours, theirs := Incoming(mid, last), Incoming(scene, last);
      SplitOne(scene, d1, d2, last);
      if ours.Some? {
        OfferKeepsView(Reconciled(mid, front), OfferAll(mid, IncomingAll(scene, front)), ours.value, theirs.value);
        OfferAllSnoc(mid, IncomingAll(mid, front), ours.value);
        OfferAllSnoc(mid, IncomingAll(scene, front), theirs.value);
      }
    }
  }

  lemma SplitOne(scene: SceneIndex, d1: seq<Delta>, d2: seq<Delta>, d: Delta)
    requires SplitSafe(scene, d1, d2) && d in d2
    ensures var ours, theirs := Incoming(Reconciled(scene, d1), d), Incoming(scene, d);
            (ours.Some? <==> theirs.Some?) && (ours.Some? ==> SameReading(ours.value, theirs.value))
  {
    ReconcileKeepsTheFirstBest(scene, d1, d.elementId);
  }

  /** Applying a batch in two parts reads the same as applying it at once. */
  lemma SplittingABatch(scene: SceneIndex, d1: seq<Delta>, d2: seq<Delta>)
    requires SplitSafe(scene, d1, d2)
    ensures SameView(Reconciled(Reconciled(scene, d1), d2), Reconciled(scene, d1 + d2))
  {
    SplitFrom(scene, d1, d2);
    IncomingConcat(scene, d1, d2);
    OfferAllConcat(scene, IncomingAll(scene, d1), IncomingAll(scene, d2));
  }

  ghost predicate DeletesOnly(deltas: seq<Delta>, ids: set<string>) {
    forall d :: d in deltas && d.kind.Delete? ==> d.elementId in ids
  }

  /**
   * Exactly when a batch can be cut after `d1`, whatever follows, as long as it deletes nothing
   * outside `ids`: none of these ids may be one that `d1` brings into the scene.
   */
  lemma SplitsExactlyWhenNothingNewIsDeleted(scene: SceneIndex, d1: seq<Delta>, ids: set<string>)
    ensures (forall id :: id in ids && id !in scene.at ==> !Creates(d1, id)) <==>
            (forall d2 :: DeletesOnly(d2, ids) ==>
                            SameView(Reconciled(Reconciled(scene, d1), d2), Reconciled(scene, d1 + d2)))
  {
    if forall id :: id in ids && id !in scene.at ==> !Creates(d1, id) {
      forall d2 | DeletesOnly(d2, ids)
        ensures SameView(Reconciled(Reconciled(scene, d1), d2), Reconciled(scene, d1 + d2))
      {
        SplittingABatch(scene, d1, d2);
      }
    } else {
      var id :| id in ids && id !in scene.at && Creates(d1, id);
      var late := DeleteOfNewElementIsLost(scene, d1, id);
      assert DeletesOnly([late], ids);
    }
  }

  /**
   * The failing case: a delete of an id the first part creates, with a higher version. In a batch
   * of its own it leaves a tombstone; in the same batch it is dropped and the element stays.
   */
  lemma DeleteOfNewElementIsLost(scene: SceneIndex, d1: seq<Delta>, id: string) returns (late: Delta)
    requires id !in scene.at && Creates(d1, id)
    ensures late.kind.Delete? && late.elementId == id
    ensures var split := Reconciled(Reconciled(scene, d1), [late]);
            id in split.at && split.at[id].isDeleted && split.at[id].version == late.version
    ensures Reconciled(scene, d1 + [late]) == Reconciled(scene, d1)
    ensures !SameView(Reconciled(Reconciled(scene, d1), [late]), Reconciled(scene, d1 + [late]))
  {
    var mid := Reconciled(scene, d1);
    ReconcileKeepsTheFirstBest(scene, d1, id);
    late := Delta(id, Delete, None, mid.at[id].version + 1, 0);
    var t := Tombstone(mid.at[id], late);
    IncomingOne(mid, late);
    IncomingOne(scene, late);
    OfferAllSnoc(mid, [], t);
    assert [] + [t] == [t];
    IncomingConcat(scene, d1, [late]);
    assert IncomingAll(scene, d1) + [] == IncomingAll(scene, d1);
  }

  // ---------------------------------------------------------------------------------------------
  // Splitting one batch in two
  // ---------------------------------------------------------------------------------------------

  predicate IsUpsertOf(d: Delta, id: string) {
    d.kind.Upsert? && d.element.Some? && d.element.value.id == id
  }

  predicate IsDeleteOf(d: Delta, id: string) {
    d.kind.Delete? && d.elementId == id
  }

  ghost predicate NewIn(scene: SceneIndex, d1: seq<Delta>, id: string) {
    id !in scene.at && Creates(d1, id)
  }

  /** No delete of an id that `d1` brings in shares its key with an upsert of that id. */
  ghost predicate KeysApart(scene: SceneIndex, d1: seq<Delta>, d2: seq<Delta>) {
    forall d, u :: d in d2 && u in d1 + d2 && d.kind.Delete? && NewIn(scene, d1, d.elementId)
                   && IsUpsertOf(u, d.elementId) ==>
      d.version != u.element.value.version || d.versionNonce != u.element.value.versionNonce
  }

  /** Every delete in `d2` of an id that `d1` brings in is matched by an upsert it does not outrank. */
  ghost predicate LateDeletesLose(scene: SceneIndex, d1: seq<Delta>, d2: seq<Delta>) {
    forall d :: d in d2 && d.kind.Delete? && NewIn(scene, d1, d.elementId) ==>
      exists u :: u in d1 + d2 && IsUpsertOf(u, d.elementId) && !HigherThan(d, u.element.value)
  }

  /** `p`, from the split run, is a tombstone put by a delete of `front`, with a higher key than `j`. */
  ghost predicate Overtaken(front: seq<Delta>, p: Element, j: Element) {
    p.id == j.id && RemoteWins(j, p) &&
    exists d :: d in front && IsDeleteOf(d, p.id) && p.version == d.version && p.versionNonce == d.versionNonce
  }

  /** How the two runs stand to each other under one id, after the part `front` of `d2`. */
  ghost predicate Near(scene: SceneIndex, d1: seq<Delta>, front: seq<Delta>, p: Option<Element>, j: Option<Element>) {
    && (p.Some? <==> j.Some?)
    && (p.Some? ==> SameReading(p.value, j.value)
                    || (NewIn(scene, d1, p.value.id) && Overtaken(front, p.value, j.value)))
  }

  /** What one offer, if there is one, does to the element under an id. */
  function Taken(cur: Option<Element>, offer: Option<Element>, id: string): Option<Element> {
    if offer.Some? && offer.value.id == id && (cur.None? || RemoteWins(cur.value, offer.value)) then offer else cur
  }

  ghost predicate Under(cur: Option<Element>, id: string) {
    cur.Some? ==> cur.value.id == id
  }

  lemma OvertakenStays(front: seq<Delta>, last: Delta, p: Element, j: Element)
    requires Overtaken(front, p, j)
    ensures Overtaken(front + [last], p, j)
  {
    var d :| d in front && IsDeleteOf(d, p.id) && p.version == d.version && p.versionNonce == d.versionNonce;
    assert d in front + [last];
  }

  lemma NearStays(scene: SceneIndex, d1: seq<Delta>, front: seq<Delta>, last: Delta, p: Option<Element>,
                  j: Option<Element>)
    requires Near(scene, d1, front, p, j)
    ensures Near(scene, d1, front + [last], p, j)
  {
    if p.Some? && !SameReading(p.value, j.value) {
      OvertakenStays(front, last, p.value, j.value);
    }
  }

  /** An upsert is offered to both runs; where a delete is ahead, their keys differ. */
  lemma NearUpsert(scene: SceneIndex, d1: seq<Delta>, front: seq<Delta>, last: Delta,
                   p: Option<Element>, j: Option<Element>, id: string)
    requires Near(scene, d1, front, p, j) && Under(p, id) && Under(j, id) && IsUpsertOf(last, id)
    requires p.Some? && NewIn(scene, d1, id) ==>
               forall d :: d in front && IsDeleteOf(d, id) ==>
                 d.version != last.element.value.version || d.versionNonce != last.element.value.versionNonce
    ensures Near(scene, d1, front + [last], Taken(p, last.element, id), Taken(j, last.element, id))
  {
    NearStays(scene, d1, front, last, p, j);
  }

  /** A delete of an id that `d1` brings in is offered to the split run only. */
  lemma NearLateDelete(scene: SceneIndex, d1: seq<Delta>, front: seq<Delta>, last: Delta,
                       p: Option<Element>, j: Option<Element>, t: Element, id: string)
    requires Near(scene, d1, front, p, j) && Under(p, id) && Under(j, id) && p.Some?
    requires NewIn(scene, d1, id) && IsDeleteOf(last, id)
    requires t.id == id && t.version == last.version && t.versionNonce == last.versionNonce
    ensures Near(scene, d1, front + [last], Taken(p, Some(t), id), j)
  {
    NearStays(scene, d1, front, last, p, j);
    assert last in front + [last];
  }

  /** One more delta of `d2`, offered to both runs, seen under one id. */
  lemma NearStep(scene: SceneIndex, d1: seq<Delta>, d2: seq<Delta>, front: seq<Delta>, last: Delta,
                 p: Option<Element>, j: Option<Element>, id: string)
    requires KeysApart(scene, d1, d2) && last in d2 && (forall d :: d in front ==> d in d2)
    requires Near(scene, d1, front, p, j) && Under(p, id) && Under(j, id)
    requires id in Reconciled(scene, d1).at ==> p.Some?
    ensures var mid := Reconciled(scene, d1);
            Near(scene, d1, front + [last], Taken(p, Incoming(mid, last), id), Taken(j, Incoming(scene, last), id))
  {
    var mid := Reconciled(scene, d1);
    NearStays(scene, d1, front, last, p, j);
    if last.kind.Upsert? {
      if IsUpsertOf(last, id) {
        assert last in d1 + d2;
        NearUpsert(scene, d1, front, last, p, j, id);
      }
    } else if last.elementId == id {
      ReconcileKeepsTheFirstBest(scene, d1, id);
      if NewIn(scene, d1, id) {
        NearLateDelete(scene, d1, front, last, p, j, Tombstone(mid.at[id], last), id);
      }
    }
  }

  lemma OfferIfAny(m: SceneIndex, offer: Option<Element>, id: string)
    ensures (if offer.Some? then Offer(m, offer.value) else m).Get(id) == Taken(m.Get(id), offer, id)
  {
  }

  lemma {:induction false} RunsStayNear(scene: SceneIndex, d1: seq<Delta>, d2: seq<Delta>, n: nat, id: string)
    requires KeysApart(scene, d1, d2) && n <= |d2|
    ensures var mid := Reconciled(scene, d1);
            Near(scene, d1, d2[..n], Reconciled(mid, d2[..n]).Get(id),
                 OfferAll(mid, IncomingAll(scene, d2[..n])).Get(id))
  {
    var mid := Reconciled(scene, d1);
    if n == 0 {
      assert d2[..0] == [];
    } else {
      var front, last := d2[..n - 1], d2[n - 1];
      RunsStayNear(scene, d1, d2, n - 1, id);
      assert d2[..n] == front + [last];
      var p, j := Reconciled(mid, front), OfferAll(mid, IncomingAll(scene, front));
      ReconcileKeepsTheFirstBest(mid, front, id);
      NearStep(scene, d1, d2, front, last, p.Get(id), j.Get(id), id);
      NextIncoming(mid, mid, front, last);
      NextIncoming(mid, scene, front, last);
      OfferIfAny(p, Incoming(mid, last), id);
      OfferIfAny(j, Incoming(scene, last), id);
    }
  }

  lemma {:induction false} NextIncoming(mid: SceneIndex, scene: SceneIndex, front: seq<Delta>, last: Delta)
    ensures var e, before := Incoming(scene, last), OfferAll(mid, IncomingAll(scene, front));
            OfferAll(mid, IncomingAll(scene, front + [last])) == if e.Some? then Offer(before, e.value) else before
  {
    assert (front + [last])[..|front|] == front;
    if Incoming(scene, last).Some? {
      OfferAllSnoc(mid, IncomingAll(scene, front), Incoming(scene, last).value);
    }
  }

  lemma {:induction false} RunsKeepOneOrder(scene: SceneIndex, d1: seq<Delta>, d2: seq<Delta>, n: nat)
    requires n <= |d2|
    ensures var mid := Reconciled(scene, d1);
            OneOrder(mid, Reconciled(mid, d2[..n]), OfferAll(mid, IncomingAll(scene, d2[..n])))
  {
    var mid := Reconciled(scene, d1);
    if n == 0 {
      assert d2[..0] == [];
    } else {
      var front, last := d2[..n - 1], d2[n - 1];
      RunsKeepOneOrder(scene, d1, d2, n - 1);
      assert d2[..n] == front + [last];
      ReconcileKeepsTheFirstBest(scene, d1, last.elementId);
      OrderNext(scene, mid, front, last);
    }
  }

  lemma {:induction false} OrderNext(scene: SceneIndex, mid: SceneIndex, front: seq<Delta>, last: Delta)
    requires last.elementId in scene.at ==> last.elementId in mid.at
    requires OneOrder(mid, Reconciled(mid, front), OfferAll(mid, IncomingAll(scene, front)))
    ensures OneOrder(mid, Reconciled(mid, front + [last]), OfferAll(mid, IncomingAll(scene, front + [last])))
  {
    NextIncoming(mid, mid, front, last);
    NextIncoming(mid, scene, front, last);
    OrderStep(scene, mid, last, Reconciled(mid, front), OfferAll(mid, IncomingAll(scene, front)));
  }

  ghost predicate OneOrder(mid: SceneIndex, p: SceneIndex, j: SceneIndex) {
    p.order == j.order && p.at.Keys == j.at.Keys && mid.at.Keys <= p.at.Keys
  }

  lemma OrderStep(scene: SceneIndex, mid: SceneIndex, last: Delta, p: SceneIndex, j: SceneIndex)
    requires OneOrder(mid, p, j)
    requires last.elementId in scene.at ==> last.elementId in mid.at
    ensures var ours, theirs := Incoming(mid, last), Incoming(scene, last);
            OneOrder(mid, if ours.Some? then Offer(p, ours.value) else p,
                     if theirs.Some? then Offer(j, theirs.value) else j)
  {
    var ours, theirs := Incoming(mid, last), Incoming(scene, last);
    if ours.Some? && theirs.Some? {
      OfferBoth(mid, p, j, ours.value, theirs.value);
    } else if ours.Some? {
      OfferKnown(mid, p, j, ours.value);
    }
  }

  lemma OfferBoth(mid: SceneIndex, p: SceneIndex, j: SceneIndex, e: Element, f: Element)
    requires OneOrder(mid, p, j) && e.id == f.id
    ensures OneOrder(mid, Offer(p, e), Offer(j, f))
  {
    OfferKeys(p, e);
    OfferKeys(j, f);
  }

  lemma OfferKnown(mid: SceneIndex, p: SceneIndex, j: SceneIndex, e: Element)
    requires OneOrder(mid, p, j) && e.id in mid.at
    ensures OneOrder(mid, Offer(p, e), j)
  {
    OfferKeys(p, e);
    assert e.id in mid.at.Keys;
    assert p.at.Keys + {e.id} == p.at.Keys;
  }

  lemma OfferKeys(m: SceneIndex, e: Element)
    ensures Offer(m, e).at.Keys == m.at.Keys + {e.id}
    ensures Offer(m, e).order == if e.id in m.at.Keys then m.order else m.order + [e.id]
  {
  }

  /** What the joint run holds under an id that `d1` brings in is one of the upserts of that id. */
  lemma JointHoldsAnUpsert(scene: SceneIndex, d1: seq<Delta>, d2: seq<Delta>, id: string) returns (u: Delta)
    requires NewIn(scene, d1, id)
    ensures id in Reconciled(scene, d1 + d2).at
    ensures u in d1 + d2 && IsUpsertOf(u, id) && Reconciled(scene, d1 + d2).at[id] == u.element.value
  {
    assert Creates(d1 + d2, id) by {
      var d :| d in d1 && d.kind.Upsert? && d.element.Some? && d.element.value.id == id;
      assert d in d1 + d2;
    }
    ReconcileKeepsTheFirstBest(scene, d1 + d2, id);
    var w, incoming := Reconciled(scene, d1 + d2).at[id], IncomingAll(scene, d1 + d2);
    var i :| 0 <= i < |incoming| && EntersAt(w, None, id, incoming, i);
    IncomingMembers(scene, d1 + d2, w);
    u :| u in d1 + d2 && Incoming(scene, u) == Some(w);
  }

  /** If a late delete outranks every upsert of its id, the two runs read differently there. */
  lemma WinningDeleteShows(scene: SceneIndex, d1: seq<Delta>, d2: seq<Delta>, d: Delta)
    requires d in d2 && d.kind.Delete? && NewIn(scene, d1, d.elementId)
    requires forall u :: u in d1 + d2 && IsUpsertOf(u, d.elementId) ==> HigherThan(d, u.element.value)
    ensures !SameView(Reconciled(Reconciled(scene, d1), d2), Reconciled(scene, d1 + d2))
  {
    var id, mid := d.elementId, Reconciled(scene, d1);
    var u := JointHoldsAnUpsert(scene, d1, d2, id);
    ReconcileKeepsTheFirstBest(scene, d1, id);
    ReconcileKeepsTheFirstBest(mid, d2, id);
    var t := Tombstone(mid.at[id], d);
    IncomingMembers(mid, d2, t);
    var p, j := Reconciled(mid, d2).at[id], Reconciled(scene, d1 + d2).at[id];
    assert !RemoteWins(p, t) && RemoteWins(j, Tombstone(j, d));
    assert !SameReading(p, j);
  }

  lemma OvertakenMeansLateDeleteWins(scene: SceneIndex, d1: seq<Delta>, d2: seq<Delta>, p: Element, j: Element)
    requires NewIn(scene, d1, p.id) && Overtaken(d2, p, j)
    requires p.id in Reconciled(scene, d1 + d2).at && Reconciled(scene, d1 + d2).at[p.id] == j
    ensures !LateDeletesLose(scene, d1, d2)
  {
    var d :| d in d2 && IsDeleteOf(d, p.id) && p.version == d.version && p.versionNonce == d.versionNonce;
    ReconcileKeepsTheFirstBest(scene, d1 + d2, p.id);
    forall u | u in d1 + d2 && IsUpsertOf(u, p.id)
      ensures HigherThan(d, u.element.value)
    {
      IncomingMembers(scene, d1 + d2, u.element.value);
      assert !RemoteWins(j, u.element.value);
    }
  }

  /**
   * Exactly when one batch may be cut in two: as long as deletes and upserts keep their keys apart,
   * applying `d1` and then `d2` reads the same as applying both at once if and only if every delete
   * in `d2` of an id that `d1` brings in is matched by an upsert it does not outrank.
   */
  lemma SplitsExactlyWhenLateDeletesLose(scene: SceneIndex, d1: seq<Delta>, d2: seq<Delta>)
    requires KeysApart(scene, d1, d2)
    ensures SameView(Reconciled(Reconciled(scene, d1), d2), Reconciled(scene, d1 + d2)) <==>
            LateDeletesLose(scene, d1, d2)
  {
    var split, joint := Reconciled(Reconciled(scene, d1), d2), Reconciled(scene, d1 + d2);
    IncomingConcat(scene, d1, d2);
    OfferAllConcat(scene, IncomingAll(scene, d1), IncomingAll(scene, d2));
    assert d2[..|d2|] == d2;
    RunsKeepOneOrder(scene, d1, d2, |d2|);
    if LateDeletesLose(scene, d1, d2) {
      forall id | id in split.at
        ensures SameReading(split.at[id], joint.at[id])
      {
        assert id in joint.at.Keys;
        RunsStayNear(scene, d1, d2, |d2|, id);
        if NewIn(scene, d1, id) && Overtaken(d2, split.at[id], joint.at[id]) {
          OvertakenMeansLateDeleteWins(scene, d1, d2, split.at[id], joint.at[id]);
        }
      }
    } else {
      var d :| d in d2 && d.kind.Delete? && NewIn(scene, d1, d.elementId) &&
               forall u :: u in d1 + d2 && IsUpsertOf(u, d.elementId) ==> HigherThan(d, u.element.value);
      WinningDeleteShows(scene, d1, d2, d);
    }
  }

  // ---------------------------------------------------------------------------------------------
  // Retrying a batch
  // ---------------------------------------------------------------------------------------------

  ghost predicate HigherThan(d: Delta, e: Element) {
    RemoteWins(e, Tombstone(e, d))
  }

  /**
   * No delete in the batch outranks every upsert of an id that the batch itself creates. (The
   * first application drops such a delete; a second one would find its target.)
   */
  ghost predicate NoLateDelete(scene: SceneIndex, deltas: seq<Delta>) {
    forall d :: d in deltas && d.kind.Delete? && d.elementId !in scene.at && Creates(deltas, d.elementId) ==>
      exists u :: u in deltas && u.kind.Upsert? && u.element.Some? && u.element.value.id == d.elementId
                  && !HigherThan(d, u.element.value)
  }

  lemma {:induction false} SecondOfferLoses(scene: SceneIndex, deltas: seq<Delta>, e: Element)
    requires NoLateDelete(scene, deltas)
    requires e in IncomingAll(Reconciled(scene, deltas), deltas)
    ensures e.id in Reconciled(scene, deltas).at && !RemoteWins(Reconciled(scene, deltas).at[e.id], e)
  {
    var once := Reconciled(scene, deltas);
    IncomingMembers(once, deltas, e);
    var d :| d in deltas && Incoming(once, d) == Some(e);
    ReconcileKeepsTheFirstBest(scene, deltas, e.id);
    if d.kind.Upsert? {
      IncomingMembers(scene, deltas, e);
    } else if d.elementId in scene.at {
      IncomingMembers(scene, deltas, Tombstone(scene.at[d.elementId], d));
    } else {
      var u :| u in deltas && u.kind.Upsert? && u.element.Some? && u.element.value.id == d.elementId
               && !HigherThan(d, u.element.value);
      IncomingMembers(scene, deltas, u.element.value);
    }
  }

  lemma LateDeleteChangesTheScene(scene: SceneIndex, deltas: seq<Delta>)
    requires !NoLateDelete(scene, deltas)
    ensures Reconciled(Reconciled(scene, deltas), deltas) != Reconciled(scene, deltas)
  {
    var once := Reconciled(scene, deltas);
    var d :| d in deltas && d.kind.Delete? && d.elementId !in scene.at && Creates(deltas, d.elementId) &&
             forall u :: u in deltas && u.kind.Upsert? && u.element.Some? && u.element.value.id == d.elementId
                         ==> HigherThan(d, u.element.value);
    var id := d.elementId;
    ReconcileKeepsTheFirstBest(scene, deltas, id);
    var w := once.at[id];
    var incoming := IncomingAll(scene, deltas);
    var i :| 0 <= i < |incoming| && EntersAt(w, None, id, incoming, i);
    IncomingMembers(scene, deltas, w);
    assert HigherThan(d, w);
    ReconcileKeepsTheFirstBest(once, deltas, id);
    IncomingMembers(once, deltas, Tombstone(w, d));
    assert Tombstone(w, d).id == id;
  }

  /** Exactly when sending a batch again changes nothing, not even a tombstone's content. */
  lemma RetryIsHarmlessExactlyWithoutLateDeletes(scene: SceneIndex, deltas: seq<Delta>)
    ensures Reconciled(Reconciled(scene, deltas), deltas) == Reconciled(scene, deltas)
            <==> NoLateDelete(scene, deltas)
  {
    if NoLateDelete(scene, deltas) {
      var once := Reconciled(scene, deltas);
      forall e | e in IncomingAll(once, deltas)
        ensures e.id in once.at && !RemoteWins(once.at[e.id], e)
      {
        SecondOfferLoses(scene, deltas, e);
      }
      NothingWins(once, IncomingAll(once, deltas));
    } else {
      LateDeleteChangesTheScene(scene, deltas);
    }
  }
}
