/** Decompiling a compiled document gives the document back. */
module RoundTrip {
  import opened OrderedMaps
  import opened Scenes
  import opened SceneSemantics
  import opened Ir
  import opened Compile
  import opened Decompile
  import opened Containment
  import opened CompiledScenes

  // ---------------------------------------------------------------------------------------------
  // Containment comes back
  // ---------------------------------------------------------------------------------------------

  lemma ChildIsHeld(ir: IrDocument, p: string, c: string)
    requires IsChild(ir, p, c)
    ensures Holds(ir, p, c)
  {
    assert LeadsDown(ir, [p, c]);
  }

  /** With one parent per child, whatever holds `c` is its parent or holds its parent. */
  lemma HoldsThroughParent(ir: IrDocument, a: string, p: string, c: string)
    requires OneParent(ir) && Holds(ir, a, c) && IsChild(ir, p, c)
    ensures a == p || Holds(ir, a, p)
  {
    var path :| LeadsDown(ir, path) && path[0] == a && path[|path| - 1] == c;
    var n := |path| - 1;
    assert IsChild(ir, path[n - 1], path[n - 1 + 1]);
    if n > 1 {
      assert LeadsDown(ir, path[..n]);
    }
  }

  lemma HeldHasParent(ir: IrDocument, a: string, c: string) returns (p: string)
    requires Holds(ir, a, c)
    ensures IsChild(ir, p, c)
  {
    var path :| LeadsDown(ir, path) && path[0] == a && path[|path| - 1] == c;
    p := path[|path| - 2];
    assert IsChild(ir, path[|path| - 2], path[|path| - 2 + 1]);
  }

  lemma ItemOfContainer(ir: IrDocument, keys: map<string, LibraryItem>, p: string, c: string) returns (j: nat)
    requires IsChild(ir, p, c)
    ensures j < |ir.containers| && Items(ir, keys)[j].id == p && c in ir.containers[j].children
  {
    j :| 0 <= j < |ir.containers| && ir.containers[j].id == p && c in ir.containers[j].children;
  }

  lemma ItemOfChild(ir: IrDocument, keys: map<string, LibraryItem>, p: string, c: string) returns (i: nat)
    requires IsChild(ir, p, c) && Sound(ir)
    ensures i < |Items(ir, keys)| && Items(ir, keys)[i].id == c
  {
    var k :| 0 <= k < |ir.containers| && ir.containers[k].id == p && c in ir.containers[k].children;
    var m :| 0 <= m < |ir.containers[k].children| && ir.containers[k].children[m] == c;
    assert !Dangles(ir, UnknownChild(k, m));
    if c in ContainerIds(ir) {
      i :| 0 <= i < |ir.containers| && ir.containers[i].id == c;
    } else {
      var n :| 0 <= n < |ir.nodes| && ir.nodes[n].id == c;
      i := |ir.containers| + n;
    }
  }

  lemma BoxesAreUnique(items: seq<Item>, at: map<string, PositionedNode>)
    requires Placed(items, at) && UniqueItems(items)
    ensures UniqueBoxes(ItemBoxes(items, at))
  {
  }

  /** The inferred parent of a contained item is its container. */
  lemma ContainedFindsItsContainer(ir: IrDocument, keys: map<string, LibraryItem>, at: map<string, PositionedNode>,
                                   p: string, i: nat)
    requires var items := Items(ir, keys);
             && UniqueItems(items) && OneParent(ir) && Fits(ir, items, at)
             && i < |items| && IsChild(ir, p, items[i].id)
    ensures var boxes := ItemBoxes(Items(ir, keys), at);
            ParentsOf(boxes, boxes).Get(Items(ir, keys)[i].id) == Some(p)
  {
    var items := Items(ir, keys);
    var boxes := ItemBoxes(items, at);
    var c := items[i].id;
    BoxesAreUnique(items, at);
    ChildIsHeld(ir, p, c);
    var j := ItemOfContainer(ir, keys, p, c);
    assert FitsPair(ir, ItemBox(items[j], at), ItemBox(items[i], at));
    assert boxes[j] in boxes && Encloses(boxes[j], boxes[i]);
    ParentOfBox(boxes, i);
    var k :| 0 <= k < |boxes| && ParentsOf(boxes, boxes).Get(c) == Some(boxes[k].id)
             && Encloses(boxes[k], boxes[i]) && Area(boxes[k]) <= Area(boxes[j]);
    assert FitsPair(ir, ItemBox(items[k], at), ItemBox(items[i], at));
    assert FitsPair(ir, ItemBox(items[k], at), ItemBox(items[j], at));
    HoldsThroughParent(ir, boxes[k].id, p, c);
  }

  /** An item nobody contains has no inferred parent. */
  lemma FreeFindsNone(ir: IrDocument, items: seq<Item>, at: map<string, PositionedNode>, i: nat)
    requires UniqueItems(items) && Fits(ir, items, at) && i < |items|
    requires forall p :: !IsChild(ir, p, items[i].id)
    ensures ParentsOf(ItemBoxes(items, at), ItemBoxes(items, at)).Get(items[i].id) == None
  {
    var boxes := ItemBoxes(items, at);
    BoxesAreUnique(items, at);
    ParentOfBox(boxes, i);
    if b :| b in boxes && Encloses(b, boxes[i]) {
      var k :| 0 <= k < |boxes| && boxes[k] == b;
      assert FitsPair(ir, ItemBox(items[k], at), ItemBox(items[i], at));
      var p := HeldHasParent(ir, b.id, items[i].id);
    }
  }

  /** Inferred parents are exactly the containers of the document. */
  lemma ParentsAreTheContainers(ir: IrDocument, keys: map<string, LibraryItem>, at: map<string, PositionedNode>,
                                p: string, c: string)
    requires var items := Items(ir, keys);
             UniqueItems(items) && OneParent(ir) && Fits(ir, items, at) && Sound(ir)
    ensures var boxes := ItemBoxes(Items(ir, keys), at);
            ParentsOf(boxes, boxes).Get(c) == Some(p) <==> IsChild(ir, p, c)
  {
    var items := Items(ir, keys);
    var boxes := ItemBoxes(items, at);
    if IsChild(ir, p, c) {
      var i := ItemOfChild(ir, keys, p, c);
      ContainedFindsItsContainer(ir, keys, at, p, i);
    } else if ParentsOf(boxes, boxes).Get(c) == Some(p) {
      ParentKeysAreBoxes(boxes, boxes, c);
      var i :| 0 <= i < |boxes| && boxes[i].id == c;
      if q :| IsChild(ir, q, c) {
        ContainedFindsItsContainer(ir, keys, at, q, i);
      } else {
        FreeFindsNone(ir, items, at, i);
      }
    }
  }

  /** The parent map says what the document's containers say. */
  ghost predicate MatchesTree(ir: IrDocument, parentOf: RawMap<string, string>) {
    parentOf.Valid() && forall p, c :: parentOf.Get(c) == Some(p) <==> IsChild(ir, p, c)
  }

  lemma InferredMatchesTree(ir: IrDocument, keys: map<string, LibraryItem>, at: map<string, PositionedNode>)
    requires var items := Items(ir, keys);
             UniqueItems(items) && OneParent(ir) && Fits(ir, items, at) && Sound(ir)
    ensures var boxes := ItemBoxes(Items(ir, keys), at);
            MatchesTree(ir, ParentsOf(boxes, boxes))
  {
    var boxes := ItemBoxes(Items(ir, keys), at);
    ParentsAreValid(boxes, boxes);
    forall p, c
      ensures ParentsOf(boxes, boxes).Get(c) == Some(p) <==> IsChild(ir, p, c)
    {
      ParentsAreTheContainers(ir, keys, at, p, c);
    }
  }

  /** The parents of the map are the ids with something inside. */
  lemma ParentIdsAre(ir: IrDocument, parentOf: RawMap<string, string>, p: string)
    requires MatchesTree(ir, parentOf)
    ensures p in parentOf.at.Values <==> exists c :: IsChild(ir, p, c)
  {
    if p in parentOf.at.Values {
      var c :| c in parentOf.at && parentOf.at[c] == p;
      assert parentOf.Get(c) == Some(p);
    }
    if c :| IsChild(ir, p, c) {
      assert parentOf.Get(c) == Some(p);
      assert c in parentOf.at && parentOf.at[c] == p;
    }
  }

  // ---------------------------------------------------------------------------------------------
  // Containers and nodes come back
  // ---------------------------------------------------------------------------------------------

  /** The containers that hold something, in order. */
  function Kept(containers: seq<IrContainer>): seq<IrContainer> {
    if containers == [] then []
    else
      var before, last := Kept(containers[..|containers| - 1]), containers[|containers| - 1];
      if last.children == [] then before else before + [last]
  }

  /** The containers that hold nothing, as nodes: that is what they come back as. */
  function Emptied(containers: seq<IrContainer>, metadata: seq<MetadataRow>): seq<IrNode> {
    if containers == [] then []
    else
      var before, last := Emptied(containers[..|containers| - 1], metadata), containers[|containers| - 1];
      if last.children == [] then before + [NodeBack(last.id, last.labelText, metadata)] else before
  }

  function NodeBack(id: string, labelText: string, metadata: seq<MetadataRow>): IrNode {
    IrNode(id, labelText, StringField(id, "componentKey", metadata), NodeSemanticsFor(id, metadata))
  }

  function NodesBack(nodes: seq<IrNode>, metadata: seq<MetadataRow>): seq<IrNode> {
    seq(|nodes|, i requires 0 <= i < |nodes| => NodeBack(nodes[i].id, nodes[i].labelText, metadata))
  }

  function ContainerBack(c: IrContainer, parentOf: RawMap<string, string>): IrContainer {
    IrContainer(c.id, c.labelText, Group, ChildrenIn(parentOf, parentOf.order, c.id))
  }

  function ContainersBack(containers: seq<IrContainer>, parentOf: RawMap<string, string>): seq<IrContainer> {
    seq(|containers|, i requires 0 <= i < |containers| => ContainerBack(containers[i], parentOf))
  }

  lemma {:induction false} ContainersConcat(a: seq<Box>, b: seq<Box>, parentOf: RawMap<string, string>)
    ensures ContainersFrom(a + b, parentOf) == ContainersFrom(a, parentOf) + ContainersFrom(b, parentOf)
  {
    if b == [] {
      assert a + b == a;
    } else {
      ContainersConcat(a, b[..|b| - 1], parentOf);
      assert (a + b)[..|a + b| - 1] == a + b[..|b| - 1];
    }
  }

  lemma {:induction false} NodesConcat(a: seq<Box>, b: seq<Box>, parentOf: RawMap<string, string>,
                                       metadata: seq<MetadataRow>)
    ensures NodesFrom(a + b, parentOf, metadata) == NodesFrom(a, parentOf, metadata) + NodesFrom(b, parentOf, metadata)
  {
    if b == [] {
      assert a + b == a;
    } else {
      NodesConcat(a, b[..|b| - 1], parentOf, metadata);
      assert (a + b)[..|a + b| - 1] == a + b[..|b| - 1];
    }
  }

  lemma {:induction false} ContainersComeBack(containers: seq<IrContainer>, at: map<string, PositionedNode>,
                                              parentOf: RawMap<string, string>, metadata: seq<MetadataRow>)
    requires Placed(ContainerItems(containers), at)
    requires forall k :: 0 <= k < |containers| ==>
               (containers[k].id in parentOf.at.Values <==> containers[k].children != [])
    ensures var boxes := ItemBoxes(ContainerItems(containers), at);
            && ContainersFrom(boxes, parentOf) == ContainersBack(Kept(containers), parentOf)
            && NodesFrom(boxes, parentOf, metadata) == Emptied(containers, metadata)
  {
    if containers != [] {
      var n := |containers| - 1;
      var items := ContainerItems(containers);
      assert ContainerItems(containers[..n]) == items[..n];
      ContainersComeBack(containers[..n], at, parentOf, metadata);
      assert ItemBoxes(items, at)[..n] == ItemBoxes(items[..n], at);
    }
  }

  lemma {:induction false} NodesComeBack(nodes: seq<IrNode>, keys: map<string, LibraryItem>, at: map<string,
                                         PositionedNode>,
                                         parentOf: RawMap<string, string>, metadata: seq<MetadataRow>)
    requires Placed(NodeItems(nodes, keys), at)
    requires forall k :: 0 <= k < |nodes| ==> nodes[k].id !in parentOf.at.Values
    ensures var boxes := ItemBoxes(NodeItems(nodes, keys), at);
            && ContainersFrom(boxes, parentOf) == []
            && NodesFrom(boxes, parentOf, metadata) == NodesBack(nodes, metadata)
  {
    if nodes != [] {
      var n := |nodes| - 1;
      LastNodeBox(nodes, keys, at);
      NodesComeBack(nodes[..n], keys, at, parentOf, metadata);
      assert NodesBack(nodes, metadata) == NodesBack(nodes[..n], metadata) + [NodesBack(nodes, metadata)[n]];
    }
  }

  lemma LastNodeBox(nodes: seq<IrNode>, keys: map<string, LibraryItem>, at: map<string, PositionedNode>)
    requires nodes != [] && Placed(NodeItems(nodes, keys), at)
    ensures Placed(NodeItems(nodes[..|nodes| - 1], keys), at)
    ensures var n, boxes := |nodes| - 1, ItemBoxes(NodeItems(nodes, keys), at);
            && |boxes| == n + 1 && boxes[..n] == ItemBoxes(NodeItems(nodes[..n], keys), at)
            && boxes[n].id == nodes[n].id && boxes[n].labelText == nodes[n].labelText
  {
    var n := |nodes| - 1;
    assert NodeItems(nodes[..n], keys) == NodeItems(nodes, keys)[..n];
  }

  // ---------------------------------------------------------------------------------------------
  // The theorem
  // ---------------------------------------------------------------------------------------------

  /** Same container, up to its kind and the order of its children. */
  ghost predicate SameContainer(back: IrContainer, c: IrContainer) {
    && back.id == c.id && back.labelText == c.labelText && back.kind == Group
    && Distinct(back.children)
    && forall child :: child in back.children <==> child in c.children
  }

  lemma ValidIsReady(ir: IrDocument, keys: map<string, LibraryItem>, at: map<string, PositionedNode>, draws: Draws)
    requires Valid(ir, Items(ir, keys)) && NoClash(Items(ir, keys), ir.edges) && Placed(Items(ir, keys), at)
    ensures Ready(Items(ir, keys), ir.edges, at)
    ensures Bound(ir.edges, LiveIds(Drawn(Items(ir, keys), ir.edges, at, draws)))
  {
    forall k | 0 <= k < |ir.edges|
      ensures EndIsDrawn(ir, keys, at, draws, ir.edges[k].from) && EndIsDrawn(ir, keys, at, draws, ir.edges[k].to)
    {
      assert !Dangles(ir, UnknownFrom(k)) && !Dangles(ir, UnknownTo(k));
      NodeIsDrawn(ir, keys, at, draws, ir.edges[k].from);
      NodeIsDrawn(ir, keys, at, draws, ir.edges[k].to);
    }
  }

  ghost predicate EndIsDrawn(ir: IrDocument, keys: map<string, LibraryItem>, at: map<string, PositionedNode>,
                             draws: Draws, id: string) {
    id in at && Names(Some(id), LiveIds(Drawn(Items(ir, keys), ir.edges, at, draws)))
  }

  lemma NodeIsDrawn(ir: IrDocument, keys: map<string, LibraryItem>, at: map<string, PositionedNode>, draws: Draws,
                    id: string)
    requires Filled(Items(ir, keys)) && Placed(Items(ir, keys), at) && id in NodeIds(ir)
    ensures EndIsDrawn(ir, keys, at, draws, id)
  {
    var n :| 0 <= n < |ir.nodes| && ir.nodes[n].id == id;
    var items, i := Items(ir, keys), |ir.containers| + n;
    assert items[i].id == id;
    RectPartsAt(items, at, draws, i);
    var scene := Drawn(items, ir.edges, at, draws);
    assert scene[2 * i].id == id && !scene[2 * i].isDeleted;
  }

  lemma OnlyThisContainer(ir: IrDocument, keys: map<string, LibraryItem>, k: nat, c: string)
    requires UniqueItems(Items(ir, keys)) && k < |ir.containers|
    ensures IsChild(ir, ir.containers[k].id, c) <==> c in ir.containers[k].children
  {
    if IsChild(ir, ir.containers[k].id, c) {
      var j := ItemOfContainer(ir, keys, ir.containers[k].id, c);
      assert Items(ir, keys)[k].id == Items(ir, keys)[j].id;
    }
  }

  lemma NodesHoldNothing(ir: IrDocument, keys: map<string, LibraryItem>, n: nat, c: string)
    requires UniqueItems(Items(ir, keys)) && n < |ir.nodes|
    ensures !IsChild(ir, ir.nodes[n].id, c)
  {
    assert Items(ir, keys)[|ir.containers| + n].id == ir.nodes[n].id;
    if IsChild(ir, ir.nodes[n].id, c) {
      var j := ItemOfContainer(ir, keys, ir.nodes[n].id, c);
    }
  }

  /** Whether an item holds something, by position. */
  lemma HoldersByPosition(ir: IrDocument, keys: map<string, LibraryItem>, parentOf: RawMap<string, string>)
    requires UniqueItems(Items(ir, keys)) && MatchesTree(ir, parentOf)
    ensures forall k :: 0 <= k < |ir.containers| ==>
              (ir.containers[k].id in parentOf.at.Values <==> ir.containers[k].children != [])
    ensures forall n :: 0 <= n < |ir.nodes| ==> ir.nodes[n].id !in parentOf.at.Values
  {
    forall k | 0 <= k < |ir.containers|
      ensures ir.containers[k].id in parentOf.at.Values <==> ir.containers[k].children != []
    {
      ParentIdsAre(ir, parentOf, ir.containers[k].id);
      if ir.containers[k].children != [] {
        OnlyThisContainer(ir, keys, k, ir.containers[k].children[0]);
      }
      if c :| IsChild(ir, ir.containers[k].id, c) {
        OnlyThisContainer(ir, keys, k, c);
      }
    }
    forall n | 0 <= n < |ir.nodes|
      ensures ir.nodes[n].id !in parentOf.at.Values
    {
      ParentIdsAre(ir, parentOf, ir.nodes[n].id);
      if c :| IsChild(ir, ir.nodes[n].id, c) {
        NodesHoldNothing(ir, keys, n, c);
      }
    }
  }

  lemma {:induction false} KeptMembers(containers: seq<IrContainer>, c: IrContainer)
    ensures c in Kept(containers) <==> c in containers && c.children != []
  {
    if containers != [] {
      KeptMembers(containers[..|containers| - 1], c);
      assert containers == containers[..|containers| - 1] + [containers[|containers| - 1]];
    }
  }

  lemma ContainerIsSame(ir: IrDocument, keys: map<string, LibraryItem>, parentOf: RawMap<string, string>, k: nat)
    requires UniqueItems(Items(ir, keys)) && MatchesTree(ir, parentOf) && k < |ir.containers|
    ensures SameContainer(ContainerBack(ir.containers[k], parentOf), ir.containers[k])
  {
    var c := ir.containers[k];
    ChildrenAreTheKeys(parentOf, parentOf.order, c.id);
    forall child
      ensures child in ChildrenIn(parentOf, parentOf.order, c.id) <==> child in c.children
    {
      assert parentOf.Get(child) == Some(c.id) <==> IsChild(ir, c.id, child);
      OnlyThisContainer(ir, keys, k, child);
    }
  }

  lemma BoxesInTwoParts(ir: IrDocument, keys: map<string, LibraryItem>, at: map<string, PositionedNode>)
    requires Placed(Items(ir, keys), at)
    ensures Placed(ContainerItems(ir.containers), at) && Placed(NodeItems(ir.nodes, keys), at)
    ensures ItemBoxes(Items(ir, keys), at) ==
            ItemBoxes(ContainerItems(ir.containers), at) + ItemBoxes(NodeItems(ir.nodes, keys), at)
  {
    BoxesConcat(ContainerItems(ir.containers), NodeItems(ir.nodes, keys), at);
  }

  lemma BoxesConcat(a: seq<Item>, b: seq<Item>, at: map<string, PositionedNode>)
    requires Placed(a + b, at)
    ensures Placed(a, at) && Placed(b, at) && ItemBoxes(a + b, at) == ItemBoxes(a, at) + ItemBoxes(b, at)
  {
    assert forall i :: 0 <= i < |a| ==> a[i] == (a + b)[i];
    assert forall i :: 0 <= i < |b| ==> b[i] == (a + b)[|a| + i];
  }

  /** The node and container halves of the theorem. */
  lemma {:induction false} BoxesComeBack(ir: IrDocument, keys: map<string, LibraryItem>, at: map<string,
                                         PositionedNode>,
                      parentOf: RawMap<string, string>, metadata: seq<MetadataRow>)
    requires UniqueItems(Items(ir, keys)) && Placed(Items(ir, keys), at) && MatchesTree(ir, parentOf)
    ensures var boxes := ItemBoxes(Items(ir, keys), at);
            && NodesFrom(boxes, parentOf, metadata) == Emptied(ir.containers, metadata) + NodesBack(ir.nodes, metadata)
            && ContainersFrom(boxes, parentOf) == ContainersBack(Kept(ir.containers), parentOf)
  {
    BoxesInTwoParts(ir, keys, at);
    HoldersByPosition(ir, keys, parentOf);
    ContainersComeBack(ir.containers, at, parentOf, metadata);
    NodesComeBack(ir.nodes, keys, at, parentOf, metadata);
    var first, second := ItemBoxes(ContainerItems(ir.containers), at), ItemBoxes(NodeItems(ir.nodes, keys), at);
    ContainersConcat(first, second, parentOf);
    NodesConcat(first, second, parentOf, metadata);
  }

  lemma ContainersAreSame(ir: IrDocument, keys: map<string, LibraryItem>, parentOf: RawMap<string, string>)
    requires UniqueItems(Items(ir, keys)) && MatchesTree(ir, parentOf)
    ensures var kept := Kept(ir.containers);
            forall k :: 0 <= k < |kept| ==> SameContainer(ContainersBack(kept, parentOf)[k], kept[k])
  {
    var kept := Kept(ir.containers);
    forall k | 0 <= k < |kept|
      ensures SameContainer(ContainersBack(kept, parentOf)[k], kept[k])
    {
      KeptMembers(ir.containers, kept[k]);
      var j :| 0 <= j < |ir.containers| && ir.containers[j] == kept[k];
      ContainerIsSame(ir, keys, parentOf, j);
    }
  }

  /**
   * Compile, then decompile. For a valid document whose ids do not clash with generated ones, whose
   * children have one parent, and a layout that fits: the nodes come back with id and label, in
   * order, after any empty containers, which come back as nodes; the other containers come back
   * with id, label and the same children, in order; every edge comes back with its ends, direction
   * and label, in order; and the result passes the referential checks.
   */
  lemma {:induction false} CompileThenDecompile(ir: IrDocument, keys: map<string, LibraryItem>, at: map<string,
                                                PositionedNode>,
                             draws: Draws, metadata: seq<MetadataRow>)
    requires Valid(ir, Items(ir, keys)) && NoClash(Items(ir, keys), ir.edges)
    requires OneParent(ir) && Fits(ir, Items(ir, keys), at)
    ensures var doc := Decompiled(SceneOf(ir, keys, at, draws), metadata);
            && doc.nodes == Emptied(ir.containers, metadata) + NodesBack(ir.nodes, metadata)
            && |doc.containers| == |Kept(ir.containers)|
            && (forall k :: 0 <= k < |doc.containers| ==> SameContainer(doc.containers[k], Kept(ir.containers)[k]))
            && |doc.edges| == |ir.edges|
            && (forall k :: 0 <= k < |doc.edges| ==> doc.edges[k] == EdgeBack(ir.edges[k], k, metadata))
            && Sound(doc)
  {
    var items, scene := Items(ir, keys), SceneOf(ir, keys, at, draws);
    var parentOf := ParentsOf(ItemBoxes(items, at), ItemBoxes(items, at));
    SceneIsRectsAndArrows(ir, keys, at, draws);
    ValidIsReady(ir, keys, at, draws);
    BoxesAreTheItems(items, ir.edges, at, draws);
    InferredMatchesTree(ir, keys, at);
    BoxesComeBack(ir, keys, at, parentOf, metadata);
    ContainersAreSame(ir, keys, parentOf);
    EdgesComeBack(items, ir.edges, at, draws, metadata);
    DecompiledIsSound(ir, keys, at, draws, metadata);
  }

  lemma {:induction false} DecompiledIsSound(ir: IrDocument, keys: map<string, LibraryItem>, at: map<string,
                                             PositionedNode>,
                          draws: Draws, metadata: seq<MetadataRow>)
    requires Sound(ir)
    requires var doc := Decompiled(SceneOf(ir, keys, at, draws), metadata);
             && doc.nodes == Emptied(ir.containers, metadata) + NodesBack(ir.nodes, metadata)
             && |doc.edges| == |ir.edges|
             && (forall k :: 0 <= k < |doc.edges| ==> doc.edges[k] == EdgeBack(ir.edges[k], k, metadata))
    ensures Sound(Decompiled(SceneOf(ir, keys, at, draws), metadata))
  {
    var scene := SceneOf(ir, keys, at, draws);
    var doc := Decompiled(scene, metadata);
    forall k | 0 <= k < |doc.edges|
      ensures doc.edges[k].from in NodeIds(doc) && doc.edges[k].to in NodeIds(doc)
    {
      assert !Dangles(ir, UnknownFrom(k)) && !Dangles(ir, UnknownTo(k));
      NodeComesBack(ir, doc, metadata, ir.edges[k].from);
      NodeComesBack(ir, doc, metadata, ir.edges[k].to);
    }
    SoundIfEdgesJoinNodes(scene, metadata);
  }

  lemma {:induction false} NodeComesBack(ir: IrDocument, doc: IrDocument, metadata: seq<MetadataRow>, id: string)
    requires doc.nodes == Emptied(ir.containers, metadata) + NodesBack(ir.nodes, metadata) && id in NodeIds(ir)
    ensures id in NodeIds(doc)
  {
    var n :| 0 <= n < |ir.nodes| && ir.nodes[n].id == id;
    assert doc.nodes[|Emptied(ir.containers, metadata)| + n].id == id;
  }

  lemma {:induction false} KeptAndEmptied(containers: seq<IrContainer>, metadata: seq<MetadataRow>)
    ensures |Kept(containers)| + |Emptied(containers, metadata)| == |containers|
    ensures Emptied(containers, metadata) == [] <==> forall k :: 0 <= k < |containers| ==> containers[k].children != []
    ensures Emptied(containers, metadata) == [] ==> Kept(containers) == containers
  {
    if containers != [] {
      var n := |containers| - 1;
      KeptAndEmptied(containers[..n], metadata);
      assert containers == containers[..n] + [containers[n]];
    }
  }

  /**
   * Exactly when the structure comes back whole, nodes as nodes and containers as containers:
   * when no container is empty.
   */
  lemma ComesBackWholeExactlyWithoutEmptyContainers(
    ir: IrDocument, keys: map<string, LibraryItem>, at: map<string, PositionedNode>, draws: Draws,
    metadata: seq<MetadataRow>)
    requires Valid(ir, Items(ir, keys)) && NoClash(Items(ir, keys), ir.edges)
    requires OneParent(ir) && Fits(ir, Items(ir, keys), at)
    ensures var doc := Decompiled(SceneOf(ir, keys, at, draws), metadata);
            (forall k :: 0 <= k < |ir.containers| ==> ir.containers[k].children != []) <==>
            && doc.nodes == NodesBack(ir.nodes, metadata)
            && |doc.containers| == |ir.containers|
            && forall k :: 0 <= k < |ir.containers| ==> SameContainer(doc.containers[k], ir.containers[k])
  {
    CompileThenDecompile(ir, keys, at, draws, metadata);
    KeptAndEmptied(ir.containers, metadata);
  }

  /** With metadata that records what the scene cannot, nodes and edges come back to the letter. */
  lemma NothingIsLostWithMetadata(
    ir: IrDocument, keys: map<string, LibraryItem>, at: map<string, PositionedNode>, draws: Draws,
    metadata: seq<MetadataRow>)
    requires Valid(ir, Items(ir, keys)) && NoClash(Items(ir, keys), ir.edges)
    requires OneParent(ir) && Fits(ir, Items(ir, keys), at)
    requires forall k :: 0 <= k < |ir.containers| ==> ir.containers[k].children != []
    requires forall n :: 0 <= n < |ir.nodes| ==>
               StringField(ir.nodes[n].id, "componentKey", metadata) == ir.nodes[n].componentKey
               && NodeSemanticsFor(ir.nodes[n].id, metadata) == ir.nodes[n].semantics
    requires forall k :: 0 <= k < |ir.edges| ==>
               EdgeModeFor(EdgeId(k), metadata) == ir.edges[k].mode
               && StringField(EdgeId(k), "protocol", metadata) == ir.edges[k].protocol
    ensures var doc := Decompiled(SceneOf(ir, keys, at, draws), metadata);
            doc.nodes == ir.nodes && doc.edges == ir.edges
  {
    CompileThenDecompile(ir, keys, at, draws, metadata);
    KeptAndEmptied(ir.containers, metadata);
    assert NodesBack(ir.nodes, metadata) == ir.nodes;
  }

  // ---------------------------------------------------------------------------------------------
  // Recorded metadata
  // ---------------------------------------------------------------------------------------------

  function ModeName(mode: EdgeMode): string {
    match mode case Sync => "sync" case Async => "async" case Data => "data" case Dependency => "dependency"
  }

  function EdgeRow(edge: IrEdge, k: nat): MetadataRow {
    var mode := map["mode" := JsonString(ModeName(edge.mode))];
    MetadataRow(EdgeId(k), JsonObject(match edge.protocol
                                      case None => mode
                                      case Some(protocol) => mode["protocol" := JsonString(protocol)]))
  }

  function NodeRow(node: IrNode): MetadataRow {
    var texts := match node.semantics case None => map[] case Some(found) => found;
    var fields := map key | key in texts :: JsonString(texts[key]);
    MetadataRow(node.id, JsonObject(match node.componentKey
                                    case None => fields
                                    case Some(key) => fields["componentKey" := JsonString(key)]))
  }

  /** What the scene cannot hold, written down: a row for every node and for every edge. */
  function Recorded(ir: IrDocument): seq<MetadataRow> {
    seq(|ir.nodes|, n requires 0 <= n < |ir.nodes| => NodeRow(ir.nodes[n]))
    + seq(|ir.edges|, k requires 0 <= k < |ir.edges| => EdgeRow(ir.edges[k], k))
  }

  /** What the schema demands of semantics: they have no other than the five known keys. */
  ghost predicate KnownSemantics(ir: IrDocument) {
    forall n :: 0 <= n < |ir.nodes| && ir.nodes[n].semantics.Some? ==>
      ir.nodes[n].semantics.value.Keys <=
        {"technology", "provider", "environment", "dataClassification", "criticality"}
  }

  lemma EdgeRowIsFirst(ir: IrDocument, keys: map<string, LibraryItem>, k: nat)
    requires NoClash(Items(ir, keys), ir.edges) && k < |ir.edges|
    ensures FieldsFor(EdgeId(k), Recorded(ir)) == EdgeRow(ir.edges[k], k).json.fields
  {
    var rows, at := Recorded(ir), |ir.nodes| + k;
    forall j | 0 <= j < at
      ensures rows[j].elementId != EdgeId(k)
    {
      if j < |ir.nodes| {
        assert Items(ir, keys)[|ir.containers| + j].id == ir.nodes[j].id;
      } else {
        OtherEdgeIds(k);
      }
    }
    FirstRowCounts(EdgeId(k), rows, at);
  }

  lemma NodeRowIsFirst(ir: IrDocument, keys: map<string, LibraryItem>, n: nat)
    requires UniqueItems(Items(ir, keys)) && n < |ir.nodes|
    ensures FieldsFor(ir.nodes[n].id, Recorded(ir)) == NodeRow(ir.nodes[n]).json.fields
  {
    var rows := Recorded(ir);
    forall j | 0 <= j < n
      ensures rows[j].elementId != ir.nodes[n].id
    {
      assert Items(ir, keys)[|ir.containers| + j].id == ir.nodes[j].id;
      assert Items(ir, keys)[|ir.containers| + n].id == ir.nodes[n].id;
    }
    FirstRowCounts(ir.nodes[n].id, rows, n);
  }

  lemma ContainerHasNoRow(ir: IrDocument, keys: map<string, LibraryItem>, c: nat)
    requires UniqueItems(Items(ir, keys)) && NoClash(Items(ir, keys), ir.edges) && c < |ir.containers|
    ensures FieldsFor(ir.containers[c].id, Recorded(ir)) == map[]
  {
    var rows := Recorded(ir);
    assert Items(ir, keys)[c].id == ir.containers[c].id;
    forall j | 0 <= j < |rows|
      ensures rows[j].elementId != ir.containers[c].id
    {
      if j < |ir.nodes| {
        assert Items(ir, keys)[|ir.containers| + j].id == ir.nodes[j].id;
      }
    }
    FirstRowCounts(ir.containers[c].id, rows, 0);
  }

  lemma EdgeIsRemembered(ir: IrDocument, keys: map<string, LibraryItem>, k: nat)
    requires NoClash(Items(ir, keys), ir.edges) && k < |ir.edges|
    ensures EdgeBack(ir.edges[k], k, Recorded(ir)) == ir.edges[k]
  {
    EdgeRowIsFirst(ir, keys, k);
    ModeIsTheOneNamed(EdgeId(k), Recorded(ir));
    if ir.edges[k].protocol.Some? {
      OnlyTextsAreRead(EdgeId(k), "protocol", Recorded(ir), ir.edges[k].protocol.value);
    }
  }

  /** A node as its row gives it back: semantics without any text are none. */
  function NodeRemembered(node: IrNode): IrNode {
    if node.semantics == Some(map[]) then node.(semantics := None) else node
  }

  lemma SemanticsAreRemembered(ir: IrDocument, keys: map<string, LibraryItem>, n: nat)
    requires UniqueItems(Items(ir, keys)) && KnownSemantics(ir) && n < |ir.nodes|
    ensures NodeSemanticsFor(ir.nodes[n].id, Recorded(ir)) == NodeRemembered(ir.nodes[n]).semantics
  {
    var node, rows := ir.nodes[n], Recorded(ir);
    var texts := match node.semantics case None => map[] case Some(found) => found;
    var back := NodeSemanticsFor(node.id, rows);
    NodeRowIsFirst(ir, keys, n);
    forall key
      ensures back.Some? && key in back.value <==> key in texts
      ensures back.Some? && key in back.value && key in texts ==> back.value[key] == texts[key]
    {
      SemanticsAreTheKnownTexts(node.id, rows, key, if key in texts then texts[key] else "");
      if back.Some? && key in back.value {
        SemanticsAreTheKnownTexts(node.id, rows, key, back.value[key]);
      }
    }
    SemanticsAreTheKnownTexts(node.id, rows, "", "");
    if back.Some? {
      assert back.value == texts;
    } else {
      assert texts == map[];
    }
  }

  lemma NodeIsRemembered(ir: IrDocument, keys: map<string, LibraryItem>, n: nat)
    requires UniqueItems(Items(ir, keys)) && KnownSemantics(ir) && n < |ir.nodes|
    ensures NodeBack(ir.nodes[n].id, ir.nodes[n].labelText, Recorded(ir)) == NodeRemembered(ir.nodes[n])
  {
    var node, rows := ir.nodes[n], Recorded(ir);
    SemanticsAreRemembered(ir, keys, n);
    NodeRowIsFirst(ir, keys, n);
    var fields := FieldsFor(node.id, rows);
    assert "componentKey" in fields <==> node.componentKey.Some?;
  }

  /** The containers that hold nothing, as nodes of which only id and label are known. */
  function AsNodes(containers: seq<IrContainer>): seq<IrNode> {
    if containers == [] then []
    else
      var before, last := AsNodes(containers[..|containers| - 1]), containers[|containers| - 1];
      if last.children == [] then before + [IrNode(last.id, last.labelText, None, None)] else before
  }

  lemma {:induction false} EmptiedIsPlain(containers: seq<IrContainer>, metadata: seq<MetadataRow>)
    requires forall c :: 0 <= c < |containers| ==> FieldsFor(containers[c].id, metadata) == map[]
    ensures Emptied(containers, metadata) == AsNodes(containers)
  {
    if containers != [] {
      var n := |containers| - 1;
      EmptiedIsPlain(containers[..n], metadata);
      SemanticsAreTheKnownTexts(containers[n].id, metadata, "", "");
      NoFieldsNoSemantics(containers[n].id, metadata);
    }
  }

  lemma {:induction false} NoFieldsNoSemantics(id: string, metadata: seq<MetadataRow>)
    requires FieldsFor(id, metadata) == map[]
    ensures NodeSemanticsFor(id, metadata) == None
  {
    var back := NodeSemanticsFor(id, metadata);
    if back.Some? {
      SemanticsAreTheKnownTexts(id, metadata, "", "");
      var key :| key in back.value;
      SemanticsAreTheKnownTexts(id, metadata, key, back.value[key]);
      assert false;
    }
  }

  /**
   * With its metadata recorded a document comes back: every edge to the letter, every node too,
   * save that semantics without a text are none, and the empty containers as further nodes.
   */
  lemma {:induction false} RecordedDocumentComesBack(ir: IrDocument, keys: map<string, LibraryItem>,
                                                     at: map<string, PositionedNode>, draws: Draws)
    requires Valid(ir, Items(ir, keys)) && NoClash(Items(ir, keys), ir.edges) && KnownSemantics(ir)
    requires OneParent(ir) && Fits(ir, Items(ir, keys), at)
    ensures var doc := Decompiled(SceneOf(ir, keys, at, draws), Recorded(ir));
            && doc.edges == ir.edges
            && doc.nodes == AsNodes(ir.containers)
                            + seq(|ir.nodes|, n requires 0 <= n < |ir.nodes| => NodeRemembered(ir.nodes[n]))
  {
    var rows := Recorded(ir);
    CompileThenDecompile(ir, keys, at, draws, rows);
    forall k | 0 <= k < |ir.edges|
      ensures EdgeBack(ir.edges[k], k, rows) == ir.edges[k]
    {
      EdgeIsRemembered(ir, keys, k);
    }
    forall n | 0 <= n < |ir.nodes|
      ensures NodesBack(ir.nodes, rows)[n] == NodeRemembered(ir.nodes[n])
    {
      NodeIsRemembered(ir, keys, n);
    }
    forall c | 0 <= c < |ir.containers|
      ensures FieldsFor(ir.containers[c].id, rows) == map[]
    {
      ContainerHasNoRow(ir, keys, c);
    }
    EmptiedIsPlain(ir.containers, rows);
    assert NodesBack(ir.nodes, rows) ==
           seq(|ir.nodes|, n requires 0 <= n < |ir.nodes| => NodeRemembered(ir.nodes[n]));
  }

  // ---------------------------------------------------------------------------------------------
  // From the library and the layout
  // ---------------------------------------------------------------------------------------------

  ghost predicate IsItem(ir: IrDocument, id: string) {
    id in NodeIds(ir) || id in ContainerIds(ir)
  }

  ghost function Spot(id: string, p: PositionedNode): Box {
    Box(id, "", p.x, p.y, p.width, p.height)
  }

  ghost predicate IsPlaced(ir: IrDocument, positioned: seq<PositionedNode>, id: string, p: PositionedNode) {
    IsItem(ir, id) && LastEntry(positioned, id, p)
  }

  /**
   * A layout fits: it places every node and container, and of the places, those of the last entries
   * for an id, one lies in another exactly along the containment tree and is then smaller.
   */
  ghost predicate LayoutFits(ir: IrDocument, positioned: seq<PositionedNode>) {
    && (forall id :: IsItem(ir, id) ==> HasEntry(positioned, id))
    && (forall a, b, p, q :: IsPlaced(ir, positioned, a, p) && IsPlaced(ir, positioned, b, q) ==>
          FitsPair(ir, Spot(a, p), Spot(b, q)))
  }

  lemma ItemsAreItems(ir: IrDocument, keys: map<string, LibraryItem>, i: nat)
    requires i < |Items(ir, keys)|
    ensures IsItem(ir, Items(ir, keys)[i].id)
  {
    if i < |ir.containers| {
      assert ir.containers[i].id == Items(ir, keys)[i].id;
    } else {
      assert ir.nodes[i - |ir.containers|].id == Items(ir, keys)[i].id;
    }
  }

  lemma {:induction false} PlaceOfItem(ir: IrDocument, keys: map<string, LibraryItem>,
                                       positioned: seq<PositionedNode>, i: nat)
    requires LayoutFits(ir, positioned) && i < |Items(ir, keys)|
    ensures var id := Items(ir, keys)[i].id;
            id in Positions(positioned) && IsPlaced(ir, positioned, id, Positions(positioned)[id])
  {
    var id := Items(ir, keys)[i].id;
    ItemsAreItems(ir, keys, i);
    LastEntryCounts(positioned, id, PositionedNode("", 0.0, 0.0, 0.0, 0.0));
    LastEntryCounts(positioned, id, Positions(positioned)[id]);
  }

  lemma LabelDoesNotMatter(ir: IrDocument, a: Box, b: Box, a': Box, b': Box)
    requires FitsPair(ir, a, b) && a' == a.(labelText := a'.labelText) && b' == b.(labelText := b'.labelText)
    ensures FitsPair(ir, a', b')
  {
  }

  lemma {:induction false} PairFits(ir: IrDocument, keys: map<string, LibraryItem>, positioned: seq<PositionedNode>,
                                    i: nat, j: nat)
    requires LayoutFits(ir, positioned) && i < |Items(ir, keys)| && j < |Items(ir, keys)|
    ensures Items(ir, keys)[i].id in Positions(positioned) && Items(ir, keys)[j].id in Positions(positioned)
    ensures FitsPair(ir, ItemBox(Items(ir, keys)[i], Positions(positioned)),
                     ItemBox(Items(ir, keys)[j], Positions(positioned)))
  {
    var at, a, b := Positions(positioned), Items(ir, keys)[i], Items(ir, keys)[j];
    PlaceOfItem(ir, keys, positioned, i);
    PlaceOfItem(ir, keys, positioned, j);
    LabelDoesNotMatter(ir, Spot(a.id, at[a.id]), Spot(b.id, at[b.id]), ItemBox(a, at), ItemBox(b, at));
  }

  lemma {:induction false} FittingLayoutFits(ir: IrDocument, keys: map<string, LibraryItem>,
                                             positioned: seq<PositionedNode>)
    requires LayoutFits(ir, positioned)
    ensures Fits(ir, Items(ir, keys), Positions(positioned))
  {
    var items, at := Items(ir, keys), Positions(positioned);
    forall i | 0 <= i < |items|
      ensures items[i].id in at
    {
      PlaceOfItem(ir, keys, positioned, i);
    }
    forall i, j | 0 <= i < |items| && 0 <= j < |items|
      ensures FitsPair(ir, ItemBox(items[i], at), ItemBox(items[j], at))
    {
      PairFits(ir, keys, positioned, i, j);
    }
  }

  /**
   * What `CompileIr` makes of a document, a library that has its components and a layout that fits,
   * decompiles, with the recorded metadata, to the document's nodes and edges, and to its
   * containers that hold something, with the same children.
   */
  lemma {:induction false} CompiledDocumentComesBack(ir: IrDocument, library: seq<LibraryItem>,
                                                     positioned: seq<PositionedNode>, draws: Draws,
                                                     scene: seq<Element>)
    requires Valid(ir, Items(ir, KnownKeys(library))) && NoClash(Items(ir, KnownKeys(library)), ir.edges)
    requires KnownSemantics(ir) && OneParent(ir) && LayoutFits(ir, positioned)
    requires scene == SceneOf(ir, KnownKeys(library), Positions(positioned), draws)
    ensures var doc := Decompiled(scene, Recorded(ir));
            && doc.edges == ir.edges
            && doc.nodes == AsNodes(ir.containers)
                            + seq(|ir.nodes|, n requires 0 <= n < |ir.nodes| => NodeRemembered(ir.nodes[n]))
            && |doc.containers| == |Kept(ir.containers)|
            && (forall k :: 0 <= k < |doc.containers| ==> SameContainer(doc.containers[k], Kept(ir.containers)[k]))
            && Sound(doc)
  {
    var keys, at := KnownKeys(library), Positions(positioned);
    FittingLayoutFits(ir, keys, positioned);
    RecordedDocumentComesBack(ir, keys, at, draws);
    CompileThenDecompile(ir, keys, at, draws, Recorded(ir));
  }

  // ---------------------------------------------------------------------------------------------
  // Small documents on which something does not come back
  // ---------------------------------------------------------------------------------------------

  const EMPTY_CONTAINER := IrDocument([], [IrContainer("c", "C", Vpc, [])], [])

  lemma EmptyContainerFits()
    ensures var items := Items(EMPTY_CONTAINER, map[]);
            && Valid(EMPTY_CONTAINER, items) && NoClash(items, []) && OneParent(EMPTY_CONTAINER)
            && Fits(EMPTY_CONTAINER, items, SAMPLE_LAYOUT)
  {
    var items := Items(EMPTY_CONTAINER, map[]);
    assert items == [Item("c", "C", DEFAULT_STROKE_COLOR)];
    assert EMPTY_CONTAINER.containers[0].children == [];
    assert |LabelId("c")| > 1;
    assert !Holds(EMPTY_CONTAINER, "c", "c") by {
      if path :| LeadsDown(EMPTY_CONTAINER, path) && path[0] == "c" && path[|path| - 1] == "c" {
        assert IsChild(EMPTY_CONTAINER, path[0], path[0 + 1]);
      }
    }
  }

  /** An empty container comes back as a node. */
  lemma EmptyContainerComesBackAsANode(draws: Draws, metadata: seq<MetadataRow>)
    ensures var doc := Decompiled(SceneOf(EMPTY_CONTAINER, map[], SAMPLE_LAYOUT, draws), metadata);
            doc.containers == [] && |doc.nodes| == 1 && doc.nodes[0].id == "c" && doc.nodes[0].labelText == "C"
  {
    EmptyContainerFits();
    CompileThenDecompile(EMPTY_CONTAINER, map[], SAMPLE_LAYOUT, draws, metadata);
    var containers := EMPTY_CONTAINER.containers;
    assert containers[..0] == [] && containers[0].children == [];
    assert Kept(containers) == Kept(containers[..0]) == [];
    assert |Emptied(containers, metadata)| == 1;
  }

  const LINKED := SAMPLE.(edges := [IrEdge("a", "c", Sync, None, Oneway, None)])

  lemma LinkedIsReady(draws: Draws)
    ensures var items, scene := Items(LINKED, map[]), SceneOf(LINKED, map[], SAMPLE_LAYOUT, draws);
            && items == [Item("c", "C", DEFAULT_STROKE_COLOR), Item("a", "A", DEFAULT_STROKE_COLOR)]
            && Ready(items, LINKED.edges, SAMPLE_LAYOUT) && scene == Drawn(items, LINKED.edges, SAMPLE_LAYOUT, draws)
            && Bound(LINKED.edges, LiveIds(scene))
  {
    SampleItems();
    var items, scene := Items(LINKED, map[]), SceneOf(LINKED, map[], SAMPLE_LAYOUT, draws);
    assert items == Items(SAMPLE, map[]);
    SceneIsRectsAndArrows(LINKED, map[], SAMPLE_LAYOUT, draws);
    assert forall id :: |LabelId(id)| > 1;
    RectPartsAt(items, SAMPLE_LAYOUT, draws, 0);
    RectPartsAt(items, SAMPLE_LAYOUT, draws, 1);
    assert scene[0].id == "c" && scene[2].id == "a" && !scene[0].isDeleted && !scene[2].isDeleted;
  }

  lemma ContainerIsNoLeaf()
    ensures !Leaf(ItemBoxes(Items(SAMPLE, map[]), SAMPLE_LAYOUT), "c")
  {
    SampleItems();
    var boxes := ItemBoxes(Items(SAMPLE, map[]), SAMPLE_LAYOUT);
    assert |boxes| == 2 && boxes[0].id == "c" && boxes[1].id == "a";
    assert ChosenAround(boxes, 0, boxes[1]);
    assert DecidesParent(boxes, 2, 1) && ParentIs(boxes, boxes[1], "c");
  }

  /** An arrow from a node to the container around it decompiles to an edge that dangles. */
  lemma ArrowToAContainerDangles(draws: Draws, metadata: seq<MetadataRow>)
    ensures !Sound(Decompiled(SceneOf(LINKED, map[], SAMPLE_LAYOUT, draws), metadata))
  {
    var items, scene := Items(LINKED, map[]), SceneOf(LINKED, map[], SAMPLE_LAYOUT, draws);
    LinkedIsReady(draws);
    BoxesAreTheItems(items, LINKED.edges, SAMPLE_LAYOUT, draws);
    ContainerIsNoLeaf();
    EveryEdgeHasAnArrow(items, LINKED.edges, SAMPLE_LAYOUT, draws);
    var arrow := EdgeArrows(scene, LiveIds(scene))[0];
    EdgeArrowsAreEdges(scene, LiveIds(scene), arrow);
    assert !JoinsLeaves(scene, arrow);
    SoundExactlyWhenArrowsJoinLeaves(scene, metadata);
  }
}
