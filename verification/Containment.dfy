/** What the inferred containment is like, for any scene. */
module Containment {
  import opened Lists
  import opened OrderedMaps
  import opened Scenes
  import opened SceneSemantics
  import opened Ir
  import opened Decompile

  /** The chosen parent is the smallest box around the child; there is one whenever any box is. */
  lemma {:induction false} BestParentIsSmallest(boxes: seq<Box>, c: Box)
    ensures BestParent(boxes, c).None? <==> forall b :: b in boxes ==> !Encloses(b, c)
    ensures BestParent(boxes, c).Some? ==>
              && BestParent(boxes, c).value in boxes && Encloses(BestParent(boxes, c).value, c)
              && forall b :: b in boxes && Encloses(b, c) ==> Area(BestParent(boxes, c).value) <= Area(b)
  {
    if boxes != [] {
      BestParentIsSmallest(boxes[..|boxes| - 1], c);
      assert boxes == boxes[..|boxes| - 1] + [boxes[|boxes| - 1]];
    }
  }

  ghost predicate UniqueBoxes(boxes: seq<Box>) {
    forall i, j :: 0 <= i < j < |boxes| ==> boxes[i].id != boxes[j].id
  }

  lemma {:induction false} ParentKeysAreBoxes(candidates: seq<Box>, boxes: seq<Box>, k: string)
    ensures k in ParentsOf(candidates, boxes).at ==> HasBox(candidates, k)
  {
    if candidates != [] {
      var n := |candidates| - 1;
      ParentKeysAreBoxes(candidates[..n], boxes, k);
      if HasBox(candidates[..n], k) {
        var i :| 0 <= i < n && candidates[..n][i].id == k;
        assert candidates[i].id == k;
      }
      assert candidates[n].id == k ==> HasBox(candidates, k);
    }
  }

  /** The parent map gives every candidate its best parent. */
  lemma {:induction false} ParentIsBest(candidates: seq<Box>, boxes: seq<Box>, i: nat)
    requires UniqueBoxes(candidates) && i < |candidates|
    ensures ParentsOf(candidates, boxes).Get(candidates[i].id) ==
            (match BestParent(boxes, candidates[i]) case None => None case Some(b) => Some(b.id))
  {
    var n := |candidates| - 1;
    var front := candidates[..n];
    if i < n {
      ParentIsBest(front, boxes, i);
      assert front[i] == candidates[i];
    } else {
      ParentKeysAreBoxes(front, boxes, candidates[n].id);
    }
  }

  ghost predicate HasBox(boxes: seq<Box>, id: string) {
    exists i :: 0 <= i < |boxes| && boxes[i].id == id
  }

  /** A known parent of a box is the best one, and stands in the list. */
  lemma {:induction false} ParentOfBox(boxes: seq<Box>, i: nat)
    requires UniqueBoxes(boxes) && i < |boxes|
    ensures match ParentsOf(boxes, boxes).Get(boxes[i].id)
            case None => forall b :: b in boxes ==> !Encloses(b, boxes[i])
            case Some(p) =>
              exists j :: 0 <= j < |boxes| && boxes[j].id == p && Encloses(boxes[j], boxes[i])
                          && forall b :: b in boxes && Encloses(b, boxes[i]) ==> Area(boxes[j]) <= Area(b)
  {
    ParentIsBest(boxes, boxes, i);
    BestParentIsSmallest(boxes, boxes[i]);
    if BestParent(boxes, boxes[i]).Some? {
      var j :| 0 <= j < |boxes| && boxes[j] == BestParent(boxes, boxes[i]).value;
    }
  }

  // ---------------------------------------------------------------------------------------------
  // A forest
  // ---------------------------------------------------------------------------------------------

  /** Every box around another one is strictly larger. */
  ghost predicate Growing(boxes: seq<Box>) {
    forall a, b :: a in boxes && b in boxes && Encloses(a, b) ==> Area(a) > Area(b)
  }

  /** A walk from child to parent. */
  ghost predicate ClimbsUp(parentOf: RawMap<string, string>, path: seq<string>) {
    forall k :: 0 <= k < |path| - 1 ==> parentOf.Get(path[k]) == Some(path[k + 1])
  }

  lemma {:induction false} AreaGrowsUpwards(boxes: seq<Box>, path: seq<string>, i: nat) returns (j: nat)
    requires UniqueBoxes(boxes) && Growing(boxes) && ClimbsUp(ParentsOf(boxes, boxes), path) && |path| >= 2
    requires i < |boxes| && boxes[i].id == path[0]
    ensures j < |boxes| && boxes[j].id == path[|path| - 1] && Area(boxes[j]) > Area(boxes[i])
    decreases |path|
  {
    ParentOfBox(boxes, i);
    j :| 0 <= j < |boxes| && boxes[j].id == path[1] && Encloses(boxes[j], boxes[i]);
    assert boxes[j] in boxes && boxes[i] in boxes;
    if |path| > 2 {
      j := AreaGrowsUpwards(boxes, path[1..], j);
    }
  }

  /** No walk upwards comes back to where it started. */
  ghost predicate Forest(boxes: seq<Box>) {
    forall path :: ClimbsUp(ParentsOf(boxes, boxes), path) && |path| >= 2 ==> path[0] != path[|path| - 1]
  }

  /** If containers are always larger than what they contain, the parents form a forest. */
  lemma ContainmentIsAForest(boxes: seq<Box>)
    requires UniqueBoxes(boxes) && Growing(boxes)
    ensures Forest(boxes)
  {
    forall path | ClimbsUp(ParentsOf(boxes, boxes), path) && |path| >= 2
      ensures path[0] != path[|path| - 1]
    {
      ParentKeysAreBoxes(boxes, boxes, path[0]);
      assert ParentsOf(boxes, boxes).Get(path[0]) == Some(path[0 + 1]);
      var i :| 0 <= i < |boxes| && boxes[i].id == path[0];
      var j := AreaGrowsUpwards(boxes, path, i);
      assert path[0] == path[|path| - 1] ==> i == j;
    }
  }

  /** Boxes that lie in each other in a circle, each in the next and the last in the first. */
  ghost predicate Circle(ring: seq<Box>) {
    && ring != []
    && (forall k :: 0 <= k < |ring| - 1 ==> Encloses(ring[k + 1], ring[k]))
    && Encloses(ring[0], ring[|ring| - 1])
  }

  ghost predicate DrawnFrom(some: seq<Box>, boxes: seq<Box>) {
    forall b :: b in some ==> b in boxes
  }

  ghost predicate HasCircle(boxes: seq<Box>) {
    exists ring :: Circle(ring) && DrawnFrom(ring, boxes)
  }

  /** The walk of boxes along a walk of ids. */
  lemma {:induction false} BoxesAlong(boxes: seq<Box>, path: seq<string>) returns (walk: seq<Box>)
    requires UniqueBoxes(boxes) && ClimbsUp(ParentsOf(boxes, boxes), path) && |path| >= 2
    ensures |walk| == |path| && DrawnFrom(walk, boxes)
    ensures forall k :: 0 <= k < |walk| ==> walk[k].id == path[k]
    ensures forall k :: 0 <= k < |walk| - 1 ==> Encloses(walk[k + 1], walk[k])
    decreases |path|
  {
    assert ParentsOf(boxes, boxes).Get(path[0]) == Some(path[0 + 1]);
    ParentKeysAreBoxes(boxes, boxes, path[0]);
    var i :| 0 <= i < |boxes| && boxes[i].id == path[0];
    ParentOfBox(boxes, i);
    var j :| 0 <= j < |boxes| && boxes[j].id == path[1] && Encloses(boxes[j], boxes[i]);
    if |path| == 2 {
      walk := [boxes[i], boxes[j]];
    } else {
      var rest := BoxesAlong(boxes, path[1..]);
      SameBox(boxes, rest[0], boxes[j]);
      walk := [boxes[i]] + rest;
    }
  }

  lemma SameBox(boxes: seq<Box>, a: Box, b: Box)
    requires UniqueBoxes(boxes) && a in boxes && b in boxes && a.id == b.id
    ensures a == b
  {
    var i :| 0 <= i < |boxes| && boxes[i] == a;
    var j :| 0 <= j < |boxes| && boxes[j] == b;
  }

  lemma ParentCircleIsACircle(boxes: seq<Box>)
    requires UniqueBoxes(boxes) && !Forest(boxes)
    ensures HasCircle(boxes)
  {
    var path :| ClimbsUp(ParentsOf(boxes, boxes), path) && |path| >= 2 && path[0] == path[|path| - 1];
    var walk := BoxesAlong(boxes, path);
    var n := |walk| - 1;
    SameBox(boxes, walk[0], walk[n]);
    var ring := walk[..n];
    assert Encloses(walk[(n - 1) + 1], walk[n - 1]);
    assert Circle(ring) && DrawnFrom(ring, boxes);
  }

  /** Two boxes of a ring that cut it short: the same box twice, or one around another but the last. */
  ghost predicate Shortcut(ring: seq<Box>, i: nat, j: nat)
    requires i < |ring| && j < |ring|
  {
    || (i < j && ring[i] == ring[j])
    || (Encloses(ring[j], ring[i]) && j != if i == |ring| - 1 then 0 else i + 1)
  }

  lemma ShorterRing(ring: seq<Box>, i: nat, j: nat) returns (shorter: seq<Box>)
    requires Circle(ring) && i < |ring| && j < |ring| && Shortcut(ring, i, j)
    ensures Circle(shorter) && |shorter| < |ring| && DrawnFrom(shorter, ring)
  {
    if i < j && ring[i] == ring[j] {
      shorter := ring[i..j];
      assert Encloses(ring[(j - 1) + 1], ring[j - 1]);
    } else if j < i {
      shorter := ring[j..i + 1];
    } else {
      shorter := ring[..i + 1] + ring[j..];
    }
  }

  /** A ring without shortcuts, taken as the list of boxes, is the walk from parent to parent. */
  lemma {:induction false} RingIsItsOwnParents(ring: seq<Box>, i: nat)
    requires Circle(ring) && UniqueBoxes(ring) && i < |ring|
    requires forall j :: 0 <= j < |ring| ==> !Shortcut(ring, i, j)
    ensures ParentsOf(ring, ring).Get(ring[i].id) == Some(ring[if i == |ring| - 1 then 0 else i + 1].id)
  {
    var next := if i == |ring| - 1 then 0 else i + 1;
    assert Encloses(ring[next], ring[i]) && ring[next] in ring;
    ParentIsBest(ring, ring, i);
    BestParentIsSmallest(ring, ring[i]);
    var best := BestParent(ring, ring[i]).value;
    var j :| 0 <= j < |ring| && ring[j] == best;
    assert !Shortcut(ring, i, j);
  }

  /** From a circle among boxes comes a list of some of them whose parents run in one. */
  lemma {:induction false} CircleGivesAParentCircle(boxes: seq<Box>, ring: seq<Box>) returns (some: seq<Box>)
    requires UniqueBoxes(boxes) && Circle(ring) && DrawnFrom(ring, boxes)
    ensures UniqueBoxes(some) && DrawnFrom(some, boxes) && !Forest(some)
    decreases |ring|
  {
    if i, j :| 0 <= i < |ring| && 0 <= j < |ring| && Shortcut(ring, i, j) {
      var shorter := ShorterRing(ring, i, j);
      some := CircleGivesAParentCircle(boxes, shorter);
    } else {
      some := ring;
      forall i, j | 0 <= i < j < |ring|
        ensures ring[i].id != ring[j].id
      {
        assert !Shortcut(ring, i, j);
        assert ring[i] in boxes && ring[j] in boxes;
        if ring[i].id == ring[j].id {
          SameBox(boxes, ring[i], ring[j]);
        }
      }
      RingIsNoForest(ring);
    }
  }

  lemma RingIsNoForest(ring: seq<Box>)
    requires Circle(ring) && UniqueBoxes(ring)
    requires forall i, j :: 0 <= i < |ring| && 0 <= j < |ring| ==> !Shortcut(ring, i, j)
    ensures !Forest(ring)
  {
    var n := |ring|;
    var path := seq(n + 1, k requires 0 <= k <= n => ring[if k == n then 0 else k].id);
    forall k | 0 <= k < n
      ensures ParentsOf(ring, ring).Get(path[k]) == Some(path[k + 1])
    {
      RingIsItsOwnParents(ring, k);
    }
    assert ClimbsUp(ParentsOf(ring, ring), path);
  }

  /**
   * Exactly when inferred containment is a forest, whichever of the boxes are on the page: every
   * list of some of them has a forest of parents if and only if no boxes lie in each other in a
   * circle. Strictly growing areas are one way to rule circles out.
   */
  lemma ForestExactlyWithoutCircles(boxes: seq<Box>)
    requires UniqueBoxes(boxes)
    ensures (forall some :: UniqueBoxes(some) && DrawnFrom(some, boxes) ==> Forest(some)) <==> !HasCircle(boxes)
  {
    forall some | UniqueBoxes(some) && DrawnFrom(some, boxes) && !Forest(some)
      ensures HasCircle(boxes)
    {
      ParentCircleIsACircle(some);
      var ring :| Circle(ring) && DrawnFrom(ring, some);
      assert DrawnFrom(ring, boxes);
    }
    if HasCircle(boxes) {
      var ring :| Circle(ring) && DrawnFrom(ring, boxes);
      var some := CircleGivesAParentCircle(boxes, ring);
      assert UniqueBoxes(some) && DrawnFrom(some, boxes) && !Forest(some);
    }
  }

  /** The smallest circle: two boxes in the same place become each other's container. */
  lemma EqualBoxesContainEachOther(a: Box, b: Box)
    requires a.id != b.id && a.x == b.x && a.y == b.y && a.width == b.width && a.height == b.height
    ensures var parentOf := ParentsOf([a, b], [a, b]);
            parentOf.Get(a.id) == Some(b.id) && parentOf.Get(b.id) == Some(a.id)
  {
    var ring := [a, b];
    assert Circle(ring) && UniqueBoxes(ring);
    RingIsItsOwnParents(ring, 0);
    RingIsItsOwnParents(ring, 1);
  }

  // ---------------------------------------------------------------------------------------------
  // Nodes and containers
  // ---------------------------------------------------------------------------------------------

  lemma {:induction false} ContainersAreTheParents(boxes: seq<Box>, parentOf: RawMap<string, string>, c: IrContainer)
    ensures c in ContainersFrom(boxes, parentOf) <==>
            exists i :: 0 <= i < |boxes| && boxes[i].id in parentOf.at.Values
                        && c == IrContainer(boxes[i].id, boxes[i].labelText, Group,
                                            ChildrenIn(parentOf, parentOf.order, boxes[i].id))
  {
    if boxes != [] {
      var n := |boxes| - 1;
      ContainersAreTheParents(boxes[..n], parentOf, c);
      assert boxes == boxes[..n] + [boxes[n]];
      if i :| 0 <= i < |boxes| && boxes[i].id in parentOf.at.Values
              && c == IrContainer(boxes[i].id, boxes[i].labelText, Group,
                                  ChildrenIn(parentOf, parentOf.order, boxes[i].id)) {
        if i < n {
          assert boxes[..n][i] == boxes[i];
        }
      }
    }
  }

  lemma {:induction false} NodesAreTheRest(boxes: seq<Box>, parentOf: RawMap<string, string>,
                                           metadata: seq<MetadataRow>, node: IrNode)
    ensures node in NodesFrom(boxes, parentOf, metadata) <==>
            exists i :: 0 <= i < |boxes| && boxes[i].id !in parentOf.at.Values && node == NodeFrom(boxes[i], metadata)
  {
    if boxes != [] {
      var n := |boxes| - 1;
      NodesAreTheRest(boxes[..n], parentOf, metadata, node);
      assert boxes == boxes[..n] + [boxes[n]];
      if i :| 0 <= i < |boxes| && boxes[i].id !in parentOf.at.Values && node == NodeFrom(boxes[i], metadata) {
        if i < n {
          assert boxes[..n][i] == boxes[i];
        }
      }
    }
  }

  lemma {:induction false} ChildrenAreTheKeys(parentOf: RawMap<string, string>, keys: seq<string>, p: string)
    requires Distinct(keys)
    ensures Distinct(ChildrenIn(parentOf, keys, p))
    ensures forall k :: k in ChildrenIn(parentOf, keys, p) <==> k in keys && parentOf.Get(k) == Some(p)
  {
    if keys != [] {
      var n := |keys| - 1;
      ChildrenAreTheKeys(parentOf, keys[..n], p);
      assert keys == keys[..n] + [keys[n]];
      assert keys[n] !in keys[..n];
    }
  }

  function BoxesOf(scene: seq<Element>): seq<Box> {
    RectBoxes(scene, ById(scene))
  }

  lemma {:induction false} NodeIdsAre(boxes: seq<Box>, parentOf: RawMap<string, string>, metadata: seq<MetadataRow>,
                   doc: IrDocument, id: string)
    requires doc.nodes == NodesFrom(boxes, parentOf, metadata)
    ensures id in NodeIds(doc) <==> HasBox(boxes, id) && id !in parentOf.at.Values
  {
    var nodes := doc.nodes;
    if k :| 0 <= k < |nodes| && nodes[k].id == id {
      NodesAreTheRest(boxes, parentOf, metadata, nodes[k]);
      assert nodes[k] in nodes;
      var i :| 0 <= i < |boxes| && boxes[i].id !in parentOf.at.Values && nodes[k] == NodeFrom(boxes[i], metadata);
      assert boxes[i].id == id;
    }
    if HasBox(boxes, id) && id !in parentOf.at.Values {
      var i :| 0 <= i < |boxes| && boxes[i].id == id;
      NodesAreTheRest(boxes, parentOf, metadata, NodeFrom(boxes[i], metadata));
      var k :| 0 <= k < |nodes| && nodes[k] == NodeFrom(boxes[i], metadata);
      assert nodes[k].id == id;
    }
  }

  lemma {:induction false} ContainerIdsAre(boxes: seq<Box>, parentOf: RawMap<string, string>, doc: IrDocument,
                                           id: string)
    requires doc.containers == ContainersFrom(boxes, parentOf)
    ensures id in ContainerIds(doc) <==> HasBox(boxes, id) && id in parentOf.at.Values
  {
    var containers := doc.containers;
    if k :| 0 <= k < |containers| && containers[k].id == id {
      ContainersAreTheParents(boxes, parentOf, containers[k]);
      assert containers[k] in containers;
      var i :| 0 <= i < |boxes| && boxes[i].id in parentOf.at.Values && containers[k].id == boxes[i].id;
      assert boxes[i].id == id;
    }
    if HasBox(boxes, id) && id in parentOf.at.Values {
      var i :| 0 <= i < |boxes| && boxes[i].id == id;
      var c := IrContainer(boxes[i].id, boxes[i].labelText, Group, ChildrenIn(parentOf, parentOf.order, boxes[i].id));
      ContainersAreTheParents(boxes, parentOf, c);
      var k :| 0 <= k < |containers| && containers[k] == c;
      assert containers[k].id == id;
    }
  }

  /** Nodes and containers split the live labelled rectangles between them. */
  lemma NodesAndContainersPartition(scene: seq<Element>, metadata: seq<MetadataRow>, id: string)
    ensures var doc := Decompiled(scene, metadata);
            && (HasBox(BoxesOf(scene), id) <==> id in NodeIds(doc) || id in ContainerIds(doc))
            && !(id in NodeIds(doc) && id in ContainerIds(doc))
  {
    var boxes := BoxesOf(scene);
    var parentOf := ParentsOf(boxes, boxes);
    NodeIdsAre(boxes, parentOf, metadata, Decompiled(scene, metadata), id);
    ContainerIdsAre(boxes, parentOf, Decompiled(scene, metadata), id);
  }

  /**
   * A container lists exactly the boxes whose smallest enclosing box it is, each once; so a box
   * is listed under at most one container, and every listed child is itself in the document.
   */
  lemma ContainersListTheirOwn(scene: seq<Element>, metadata: seq<MetadataRow>, k: nat, child: string)
    requires k < |Decompiled(scene, metadata).containers|
    ensures var doc := Decompiled(scene, metadata);
            && Distinct(doc.containers[k].children)
            && (child in doc.containers[k].children <==>
                  ParentsOf(BoxesOf(scene), BoxesOf(scene)).Get(child) == Some(doc.containers[k].id))
            && (child in doc.containers[k].children ==> child in NodeIds(doc) + ContainerIds(doc))
  {
    var doc, boxes := Decompiled(scene, metadata), BoxesOf(scene);
    var parentOf := ParentsOf(boxes, boxes);
    ParentsAreValid(boxes, boxes);
    ParentKeysAreBoxes(boxes, boxes, child);
    ContainersAreTheParents(boxes, parentOf, doc.containers[k]);
    ChildrenAreTheKeys(parentOf, parentOf.order, doc.containers[k].id);
    NodesAndContainersPartition(scene, metadata, child);
  }

  lemma {:induction false} KeysInOrder(parentOf: RawMap<string, string>, keys: seq<string>, p: string)
    requires Distinct(keys)
    ensures InOrderOf(ChildrenIn(parentOf, keys, p), keys)
  {
    if keys != [] {
      var front, last := keys[..|keys| - 1], keys[|keys| - 1];
      assert keys == front + [last] && last !in front;
      KeysInOrder(parentOf, front, p);
      ChildrenAreTheKeys(parentOf, front, p);
      InOrderStill(ChildrenIn(parentOf, front, p), front, [last]);
      InOrderNew(ChildrenIn(parentOf, front, p), front, last);
    }
  }

  function BoxIds(boxes: seq<Box>): seq<string> {
    seq(|boxes|, i requires 0 <= i < |boxes| => boxes[i].id)
  }

  lemma {:induction false} ParentKeysInOrder(candidates: seq<Box>, boxes: seq<Box>)
    requires UniqueBoxes(candidates)
    ensures InOrderOf(ParentsOf(candidates, boxes).order, BoxIds(candidates))
    ensures forall id :: id in ParentsOf(candidates, boxes).order ==> id in BoxIds(candidates)
  {
    if candidates != [] {
      var front, last := candidates[..|candidates| - 1], candidates[|candidates| - 1];
      var before := ParentsOf(front, boxes).order;
      assert BoxIds(candidates) == BoxIds(front) + [last.id];
      assert last.id !in BoxIds(front);
      ParentKeysInOrder(front, boxes);
      ParentsAreValid(front, boxes);
      InOrderStill(before, BoxIds(front), [last.id]);
      InOrderNew(before, BoxIds(front), last.id);
    }
  }

  /** A container lists its children in the order of their rectangles in the scene. */
  lemma ChildrenInSceneOrder(scene: seq<Element>, metadata: seq<MetadataRow>, k: nat)
    requires UniqueBoxes(BoxesOf(scene)) && k < |Decompiled(scene, metadata).containers|
    ensures InOrderOf(Decompiled(scene, metadata).containers[k].children, BoxIds(BoxesOf(scene)))
  {
    var c, boxes := Decompiled(scene, metadata).containers[k], BoxesOf(scene);
    var parentOf := ParentsOf(boxes, boxes);
    ParentsAreValid(boxes, boxes);
    ContainersAreTheParents(boxes, parentOf, c);
    KeysInOrder(parentOf, parentOf.order, c.id);
    ParentKeysInOrder(boxes, boxes);
    InOrderThrough(c.children, parentOf.order, BoxIds(boxes));
  }

  // ---------------------------------------------------------------------------------------------
  // Which scenes decompile to a sound document
  // ---------------------------------------------------------------------------------------------

  /** The box at `k` is the first of the smallest around `c`. */
  ghost predicate ChosenAround(boxes: seq<Box>, k: int, c: Box) {
    && 0 <= k < |boxes| && Encloses(boxes[k], c)
    && forall j :: 0 <= j < |boxes| && Encloses(boxes[j], c) ==>
         Area(boxes[k]) <= Area(boxes[j]) && (j < k ==> Area(boxes[k]) < Area(boxes[j]))
  }

  lemma {:induction false} BestParentIsChosen(boxes: seq<Box>, c: Box) returns (k: int)
    ensures BestParent(boxes, c).Some? ==> ChosenAround(boxes, k, c) && boxes[k] == BestParent(boxes, c).value
  {
    k := 0;
    if boxes != [] {
      var n := |boxes| - 1;
      var front := boxes[..n];
      BestParentIsSmallest(front, c);
      var j := BestParentIsChosen(front, c);
      k := if BestParent(boxes, c) == BestParent(front, c) then j else n;
      if BestParent(boxes, c).Some? {
        ChosenNext(boxes, c, j);
      }
    }
  }

  lemma ChosenNext(boxes: seq<Box>, c: Box, j: int)
    requires boxes != []
    requires var front := boxes[..|boxes| - 1];
             && (BestParent(front, c).None? ==> forall b :: b in front ==> !Encloses(b, c))
             && (BestParent(front, c).Some? ==> ChosenAround(front, j, c) && front[j] == BestParent(front, c).value)
    requires BestParent(boxes, c).Some?
    ensures var k := if BestParent(boxes, c) == BestParent(boxes[..|boxes| - 1], c) then j else |boxes| - 1;
            ChosenAround(boxes, k, c) && boxes[k] == BestParent(boxes, c).value
  {
    var n := |boxes| - 1;
    var front := boxes[..n];
    assert forall i :: 0 <= i < n ==> front[i] == boxes[i] && boxes[i] in front;
  }

  lemma ChosenIsUnique(boxes: seq<Box>, j: int, k: int, c: Box)
    requires ChosenAround(boxes, j, c) && ChosenAround(boxes, k, c)
    ensures j == k
  {
  }

  /** The first smallest box around `c` has this id. */
  ghost predicate ParentIs(boxes: seq<Box>, c: Box, id: string) {
    exists k :: ChosenAround(boxes, k, c) && boxes[k].id == id
  }

  lemma {:induction false} ParentByGeometry(boxes: seq<Box>, c: Box, id: string)
    ensures ParentIs(boxes, c, id) <==> BestParent(boxes, c).Some? && BestParent(boxes, c).value.id == id
  {
    var k := BestParentIsChosen(boxes, c);
    if ParentIs(boxes, c, id) {
      var j :| ChosenAround(boxes, j, c) && boxes[j].id == id;
      BestParentIsSmallest(boxes, c);
      assert boxes[j] in boxes;
      ChosenIsUnique(boxes, j, k, c);
    }
  }

  /** Boxes whose sides are not negative. */
  ghost predicate Drawable(boxes: seq<Box>) {
    forall k :: 0 <= k < |boxes| ==> boxes[k].width >= 0.0 && boxes[k].height >= 0.0
  }

  /** All of `c` lies within a unit of the other box. */
  ghost predicate Surrounds(b: Box, c: Box) {
    b.id != c.id && forall x, y :: OnBox(c, x, y) ==> WithinAUnitOf(b, x, y)
  }

  /** Read off the page: no box around `c` is smaller, and none before this one is as small. */
  ghost predicate FirstSmallestAround(boxes: seq<Box>, k: int, c: Box) {
    && 0 <= k < |boxes| && Surrounds(boxes[k], c)
    && forall j :: 0 <= j < |boxes| && Surrounds(boxes[j], c) ==>
         && boxes[k].width * boxes[k].height <= boxes[j].width * boxes[j].height
         && (j < k ==> boxes[k].width * boxes[k].height < boxes[j].width * boxes[j].height)
  }

  lemma ChosenOnThePage(boxes: seq<Box>, k: int, c: Box)
    requires c.width >= 0.0 && c.height >= 0.0
    ensures ChosenAround(boxes, k, c) <==> FirstSmallestAround(boxes, k, c)
  {
    forall j | 0 <= j < |boxes|
      ensures Encloses(boxes[j], c) <==> Surrounds(boxes[j], c)
      ensures Area(boxes[j]) == boxes[j].width * boxes[j].height
    {
      EnclosesMeans(boxes[j], c);
    }
  }

  /** The inferred parent of a box is the first of the smallest boxes around it, read off the page. */
  lemma {:induction false} ParentIsTheFirstSmallestAround(boxes: seq<Box>, i: nat, id: string)
    requires UniqueBoxes(boxes) && Drawable(boxes) && i < |boxes|
    ensures ParentsOf(boxes, boxes).Get(boxes[i].id) == Some(id) <==>
            exists k :: FirstSmallestAround(boxes, k, boxes[i]) && boxes[k].id == id
  {
    ParentIsBest(boxes, boxes, i);
    ParentByGeometry(boxes, boxes[i], id);
    forall k
      ensures ChosenAround(boxes, k, boxes[i]) <==> FirstSmallestAround(boxes, k, boxes[i])
    {
      ChosenOnThePage(boxes, k, boxes[i]);
    }
  }

  ghost predicate LiesInNone(boxes: seq<Box>, c: Box) {
    forall b :: b in boxes ==> !Encloses(b, c)
  }

  /** No later box, of the first `n`, has the same id and lies in another one; so this one's parent stays. */
  ghost predicate DecidesParent(boxes: seq<Box>, n: nat, i: int)
    requires n <= |boxes|
  {
    0 <= i < n && forall j :: i < j < n && boxes[j].id == boxes[i].id ==> LiesInNone(boxes, boxes[j])
  }

  /** What the map holds under a key, once the first `n` boxes have been looked at. */
  ghost predicate Gives(boxes: seq<Box>, n: nat, key: string, id: string)
    requires n <= |boxes|
  {
    exists i :: DecidesParent(boxes, n, i) && boxes[i].id == key && ParentIs(boxes, boxes[i], id)
  }

  lemma StillDecides(boxes: seq<Box>, m: nat, i: int)
    requires m < |boxes| && 0 <= i < m
    ensures DecidesParent(boxes, m + 1, i) <==>
            DecidesParent(boxes, m, i) && (boxes[m].id == boxes[i].id ==> LiesInNone(boxes, boxes[m]))
  {
  }

  lemma NoParentInNone(boxes: seq<Box>, c: Box, id: string)
    ensures LiesInNone(boxes, c) ==> !ParentIs(boxes, c, id)
  {
    ParentByGeometry(boxes, c, id);
    BestParentIsSmallest(boxes, c);
  }

  lemma GivesStill(boxes: seq<Box>, m: nat, key: string, id: string)
    requires m < |boxes| && (LiesInNone(boxes, boxes[m]) || boxes[m].id != key)
    ensures Gives(boxes, m, key, id) ==> Gives(boxes, m + 1, key, id)
  {
    if Gives(boxes, m, key, id) {
      var i :| DecidesParent(boxes, m, i) && boxes[i].id == key && ParentIs(boxes, boxes[i], id);
      StillDecides(boxes, m, i);
    }
  }

  lemma GivesLatest(boxes: seq<Box>, m: nat, key: string, id: string)
    requires m < |boxes|
    ensures boxes[m].id == key && ParentIs(boxes, boxes[m], id) ==> Gives(boxes, m + 1, key, id)
  {
    assert DecidesParent(boxes, m + 1, m);
  }

  lemma GivesOnly(boxes: seq<Box>, m: nat, key: string, id: string)
    requires m < |boxes| && Gives(boxes, m + 1, key, id)
    ensures (boxes[m].id == key && ParentIs(boxes, boxes[m], id))
            || (Gives(boxes, m, key, id) && (boxes[m].id == key ==> LiesInNone(boxes, boxes[m])))
  {
    var i :| DecidesParent(boxes, m + 1, i) && boxes[i].id == key && ParentIs(boxes, boxes[i], id);
    if i < m {
      StillDecides(boxes, m, i);
      assert DecidesParent(boxes, m, i);
      assert Gives(boxes, m, key, id);
    } else {
      assert boxes[m].id == key;
    }
  }

  lemma GivesNext(boxes: seq<Box>, m: nat, key: string, id: string)
    requires m < |boxes|
    ensures Gives(boxes, m + 1, key, id) <==>
            if !LiesInNone(boxes, boxes[m]) && boxes[m].id == key then ParentIs(boxes, boxes[m], id)
            else Gives(boxes, m, key, id)
  {
    NoParentInNone(boxes, boxes[m], id);
    GivesLatest(boxes, m, key, id);
    if Gives(boxes, m + 1, key, id) {
      GivesOnly(boxes, m, key, id);
    }
    if LiesInNone(boxes, boxes[m]) || boxes[m].id != key {
      GivesStill(boxes, m, key, id);
    }
  }

  lemma {:induction false} ParentAt(boxes: seq<Box>, n: nat, key: string, id: string)
    requires n <= |boxes|
    ensures ParentsOf(boxes[..n], boxes).Get(key) == Some(id) <==> Gives(boxes, n, key, id)
  {
    if n > 0 {
      var m := n - 1;
      ParentAt(boxes, m, key, id);
      GivesNext(boxes, m, key, id);
      assert boxes[..n][..m] == boxes[..m] && boxes[..n][m] == boxes[m];
      ParentByGeometry(boxes, boxes[m], id);
      BestParentIsSmallest(boxes, boxes[m]);
    }
  }

  /** Some box has its parent under this id. */
  ghost predicate HoldsSome(boxes: seq<Box>, id: string) {
    exists i :: DecidesParent(boxes, |boxes|, i) && ParentIs(boxes, boxes[i], id)
  }

  lemma {:induction false} ParentsByGeometry(boxes: seq<Box>, id: string)
    ensures id in ParentsOf(boxes, boxes).at.Values <==> HoldsSome(boxes, id)
  {
    assert boxes[..|boxes|] == boxes;
    var parentOf := ParentsOf(boxes, boxes);
    if id in parentOf.at.Values {
      var key :| key in parentOf.at && parentOf.at[key] == id;
      ParentAt(boxes, |boxes|, key, id);
    }
    if HoldsSome(boxes, id) {
      var i :| DecidesParent(boxes, |boxes|, i) && ParentIs(boxes, boxes[i], id);
      ParentAt(boxes, |boxes|, boxes[i].id, id);
      assert parentOf.at[boxes[i].id] == id;
    }
  }

  /** A labelled rectangle that is nowhere the first smallest around another. */
  ghost predicate Leaf(boxes: seq<Box>, id: string) {
    HasBox(boxes, id) && !HoldsSome(boxes, id)
  }

  ghost predicate JoinsLeaves(scene: seq<Element>, e: Element)
    requires IsEdge(e, LiveIds(scene))
  {
    Leaf(BoxesOf(scene), e.content.startBinding.value) && Leaf(BoxesOf(scene), e.content.endBinding.value)
  }

  /**
   * Exactly the scenes that decompile to a document that passes the referential checks: each arrow
   * bound at both ends has to join two labelled rectangles that hold no other. Children never
   * dangle; an arrow bound to a container, or to a shape without a label, does.
   */
  lemma SoundExactlyWhenArrowsJoinLeaves(scene: seq<Element>, metadata: seq<MetadataRow>)
    ensures Sound(Decompiled(scene, metadata)) <==>
            forall e :: e in scene && !e.isDeleted && IsEdge(e, LiveIds(scene)) ==> JoinsLeaves(scene, e)
  {
    var doc, ids := Decompiled(scene, metadata), LiveIds(scene);
    var arrows := EdgeArrows(scene, ids);
    if Sound(doc) {
      forall e | e in scene && !e.isDeleted && IsEdge(e, ids)
        ensures JoinsLeaves(scene, e)
      {
        EdgeArrowsAreEdges(scene, ids, e);
        var i :| 0 <= i < |arrows| && arrows[i] == e;
        assert !Dangles(doc, UnknownFrom(i)) && !Dangles(doc, UnknownTo(i));
        EdgeJoinsLeaves(scene, metadata, i);
      }
    } else {
      var issue :| Dangles(doc, issue);
      OnlyEdgesDangle(scene, metadata, issue);
      var i := issue.edge;
      EdgeJoinsLeaves(scene, metadata, i);
      EdgeArrowsAreEdges(scene, ids, arrows[i]);
      assert !JoinsLeaves(scene, arrows[i]);
    }
  }

  lemma OnlyEdgesDangle(scene: seq<Element>, metadata: seq<MetadataRow>, issue: Issue)
    requires Dangles(Decompiled(scene, metadata), issue)
    ensures !issue.UnknownChild?
  {
    if issue.UnknownChild? {
      var children := Decompiled(scene, metadata).containers[issue.container].children;
      ContainersListTheirOwn(scene, metadata, issue.container, children[issue.child]);
    }
  }

  lemma SoundIfEdgesJoinNodes(scene: seq<Element>, metadata: seq<MetadataRow>)
    requires var doc := Decompiled(scene, metadata);
             forall i :: 0 <= i < |doc.edges| ==> doc.edges[i].from in NodeIds(doc) && doc.edges[i].to in NodeIds(doc)
    ensures Sound(Decompiled(scene, metadata))
  {
    forall issue | Dangles(Decompiled(scene, metadata), issue)
      ensures !issue.UnknownChild?
    {
      OnlyEdgesDangle(scene, metadata, issue);
    }
  }

  lemma NodesAreTheLeaves(scene: seq<Element>, metadata: seq<MetadataRow>, id: string)
    ensures id in NodeIds(Decompiled(scene, metadata)) <==> Leaf(BoxesOf(scene), id)
  {
    var boxes := BoxesOf(scene);
    NodeIdsAre(boxes, ParentsOf(boxes, boxes), metadata, Decompiled(scene, metadata), id);
    ParentsByGeometry(boxes, id);
  }

  lemma {:induction false} EdgeJoinsLeaves(scene: seq<Element>, metadata: seq<MetadataRow>, i: nat)
    requires i < |Decompiled(scene, metadata).edges|
    ensures var doc, arrows := Decompiled(scene, metadata), EdgeArrows(scene, LiveIds(scene));
            && |arrows| == |doc.edges| && IsEdge(arrows[i], LiveIds(scene))
            && (JoinsLeaves(scene, arrows[i]) <==> doc.edges[i].from in NodeIds(doc) && doc.edges[i].to in NodeIds(doc))
  {
    var doc, arrows := Decompiled(scene, metadata), EdgeArrows(scene, LiveIds(scene));
    EdgeArrowsAreEdges(scene, LiveIds(scene), arrows[i]);
    NodesAreTheLeaves(scene, metadata, doc.edges[i].from);
    NodesAreTheLeaves(scene, metadata, doc.edges[i].to);
  }
}
