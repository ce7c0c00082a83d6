/** What the decompiler reads off a compiled scene. */
module CompiledScenes {
  import opened OrderedMaps
  import opened Scenes
  import opened SceneSemantics
  import opened Ir
  import opened Compile
  import opened Decompile
  import opened Containment

  // ---------------------------------------------------------------------------------------------
  // What is asked of the document and of the layout
  // ---------------------------------------------------------------------------------------------

  function Items(ir: IrDocument, keys: map<string, LibraryItem>): seq<Item> {
    ContainerItems(ir.containers) + NodeItems(ir.nodes, keys)
  }

  ghost predicate UniqueItems(items: seq<Item>) {
    forall i, j :: 0 <= i < j < |items| ==> items[i].id != items[j].id
  }

  ghost predicate Filled(items: seq<Item>) {
    forall i :: 0 <= i < |items| ==> items[i].id != "" && items[i].labelText != ""
  }

  /** No node or container has an id the compiler gives to an element of its own. */
  ghost predicate NoClash(items: seq<Item>, edges: seq<IrEdge>) {
    && (forall i, j :: 0 <= i < |items| && 0 <= j < |items| ==> items[i].id != LabelId(items[j].id))
    && (forall i, k :: 0 <= i < |items| && 0 <= k < |edges| ==>
          items[i].id != EdgeId(k) && (HasLabel(edges[k]) ==> items[i].id != LabelId(EdgeId(k))))
  }

  /** What the schema demands of a document. */
  ghost predicate Valid(ir: IrDocument, items: seq<Item>) {
    && UniqueItems(items) && Filled(items) && Sound(ir)
    && (forall k :: 0 <= k < |ir.edges| && ir.edges[k].labelText.Some? ==> ir.edges[k].labelText.value != "")
  }

  ghost predicate OneParent(ir: IrDocument) {
    forall p, q, c :: IsChild(ir, p, c) && IsChild(ir, q, c) ==> p == q
  }

  /** A way down the containment tree, from a container to something it holds, at any depth. */
  ghost predicate LeadsDown(ir: IrDocument, path: seq<string>) {
    |path| >= 2 && forall k :: 0 <= k < |path| - 1 ==> IsChild(ir, path[k], path[k + 1])
  }

  ghost predicate Holds(ir: IrDocument, a: string, b: string) {
    exists path :: LeadsDown(ir, path) && path[0] == a && path[|path| - 1] == b
  }

  function ItemBox(item: Item, at: map<string, PositionedNode>): Box
    requires item.id in at
  {
    var p := at[item.id];
    Box(item.id, item.labelText, p.x, p.y, p.width, p.height)
  }

  function ItemBoxes(items: seq<Item>, at: map<string, PositionedNode>): seq<Box>
    requires Placed(items, at)
  {
    seq(|items|, i requires 0 <= i < |items| => ItemBox(items[i], at))
  }

  predicate Placed(items: seq<Item>, at: map<string, PositionedNode>) {
    forall i :: 0 <= i < |items| ==> items[i].id in at
  }

  /**
   * What a layout has to deliver: every node and container has a box, boxes lie in each other
   * exactly along the containment tree, and what holds something is strictly larger.
   */
  ghost predicate Fits(ir: IrDocument, items: seq<Item>, at: map<string, PositionedNode>) {
    && Placed(items, at)
    && forall i, j :: 0 <= i < |items| && 0 <= j < |items| ==>
         FitsPair(ir, ItemBox(items[i], at), ItemBox(items[j], at))
  }

  ghost predicate FitsPair(ir: IrDocument, a: Box, b: Box) {
    && (a.id != b.id ==> (BoxContains(a, b) <==> Holds(ir, a.id, b.id)))
    && (Holds(ir, a.id, b.id) ==> Area(a) > Area(b))
  }

  // ---------------------------------------------------------------------------------------------
  // The compiled scene, element by element
  // ---------------------------------------------------------------------------------------------

  lemma {:induction false} RectPartsAt(items: seq<Item>, at: map<string, PositionedNode>, draws: Draws, i: nat)
    requires Placed(items, at) && i < |items|
    ensures |RectParts(items, at, draws)| == 2 * |items|
    ensures RectParts(items, at, draws)[2 * i] == RectangleElement(items[i].id, at[items[i].id], items[i].color, draws)
    ensures RectParts(items, at, draws)[2 * i + 1] ==
            LabelElement(items[i].id, items[i].labelText, at[items[i].id], draws)
  {
    var n := |items| - 1;
    if n > 0 {
      RectPartsAt(items[..n], at, draws, if i < n then i else 0);
    }
  }

  lemma {:induction false} RectPartsSnoc(items: seq<Item>, item: Item, at: map<string, PositionedNode>, draws: Draws)
    ensures RectParts(items + [item], at, draws) == RectParts(items, at, draws) + RectPart(item, at, draws)
  {
    assert (items + [item])[..|items|] == items;
  }

  lemma Regroup<T>(x: seq<T>, y: seq<T>, z: seq<T>)
    ensures (x + y) + z == x + (y + z)
  {
  }

  lemma {:induction false} RectPartsConcat(a: seq<Item>, b: seq<Item>, at: map<string, PositionedNode>, draws: Draws)
    ensures RectParts(a + b, at, draws) == RectParts(a, at, draws) + RectParts(b, at, draws)
  {
    if b == [] {
      assert a + b == a;
    } else {
      var front, last := b[..|b| - 1], b[|b| - 1];
      var part := RectPart(last, at, draws);
      assert a + b == (a + front) + [last] && b == front + [last];
      calc {
        RectParts(a + b, at, draws);
        { RectPartsSnoc(a + front, last, at, draws); }
        RectParts(a + front, at, draws) + part;
        { RectPartsConcat(a, front, at, draws); }
        (RectParts(a, at, draws) + RectParts(front, at, draws)) + part;
        { Regroup(RectParts(a, at, draws), RectParts(front, at, draws), part); }
        RectParts(a, at, draws) + (RectParts(front, at, draws) + part);
        { RectPartsSnoc(front, last, at, draws); }
        RectParts(a, at, draws) + RectParts(b, at, draws);
      }
    }
  }

  lemma {:induction false} SceneIsRectsAndArrows(ir: IrDocument, keys: map<string, LibraryItem>, at: map<string,
                                                 PositionedNode>, draws: Draws)
    ensures SceneOf(ir, keys, at, draws) == RectParts(Items(ir, keys), at, draws) + ArrowParts(ir.edges, at, draws)
  {
    RectPartsConcat(ContainerItems(ir.containers), NodeItems(ir.nodes, keys), at, draws);
  }

  ghost predicate Joined(edges: seq<IrEdge>, at: map<string, PositionedNode>) {
    forall k :: 0 <= k < |edges| ==> edges[k].from in at && edges[k].to in at
  }

  function ArrowAt(edges: seq<IrEdge>, k: nat, at: map<string, PositionedNode>, draws: Draws): Element
    requires k < |edges| && edges[k].from in at && edges[k].to in at
  {
    ArrowElement(edges[k], k, at[edges[k].from], at[edges[k].to], draws)
  }

  /** Every element of the arrow part is some edge's arrow or its label. */
  lemma {:induction false} ArrowPartsMembers(edges: seq<IrEdge>, at: map<string, PositionedNode>, draws: Draws,
                                             e: Element)
    requires Joined(edges, at) && e in ArrowParts(edges, at, draws)
    ensures !e.isDeleted && e.content.kind != "rectangle"
    ensures exists k :: 0 <= k < |edges| && (e.id == EdgeId(k) || (HasLabel(edges[k]) && e.id == LabelId(EdgeId(k))))
  {
    var n := |edges| - 1;
    if e in ArrowParts(edges[..n], at, draws) {
      ArrowPartsMembers(edges[..n], at, draws, e);
      var k :| 0 <= k < n && (e.id == EdgeId(k) || (HasLabel(edges[..n][k]) && e.id == LabelId(EdgeId(k))));
      assert edges[..n][k] == edges[k];
    } else {
      assert e in ArrowPart(edges[n], n, at, draws);
    }
  }

  // ---------------------------------------------------------------------------------------------
  // Labels
  // ---------------------------------------------------------------------------------------------

  lemma {:induction false} BoundTextConcat(id: string, a: seq<Element>, b: seq<Element>)
    ensures BoundText(id, a + b) == if BoundText(id, a).Some? then BoundText(id, a) else BoundText(id, b)
  {
    if a == [] {
      assert a + b == b;
    } else {
      assert (a + b)[1..] == a[1..] + b;
      BoundTextConcat(id, a[1..], b);
    }
  }

  lemma {:induction false} BoundTextOfPair(id: string, e: Element, f: Element)
    ensures BoundText(id, [e]) == if IsBoundText(e.content, id) then e.content.text else None
    ensures BoundText(id, [e, f]) ==
            if IsBoundText(e.content, id) then e.content.text
            else if IsBoundText(f.content, id) then f.content.text else None
  {
    assert [e][1..] == [] && [e, f][1..] == [f] && [f][1..] == [];
  }

  lemma {:induction false} RectPartLabel(item: Item, at: map<string, PositionedNode>, draws: Draws, id: string)
    requires item.id in at
    ensures BoundText(id, RectPart(item, at, draws)) == if item.id == id then Some(item.labelText) else None
  {
    BoundTextOfPair(id, RectangleElement(item.id, at[item.id], item.color, draws),
                    LabelElement(item.id, item.labelText, at[item.id], draws));
  }

  lemma {:induction false} RectLabels(items: seq<Item>, at: map<string, PositionedNode>, draws: Draws, id: string)
    requires Placed(items, at) && UniqueItems(items)
    ensures var found := BoundText(id, RectParts(items, at, draws));
            && (forall i :: 0 <= i < |items| && items[i].id == id ==> found == Some(items[i].labelText))
            && ((forall i :: 0 <= i < |items| ==> items[i].id != id) ==> found == None)
  {
    if items != [] {
      var n := |items| - 1;
      RectLabels(items[..n], at, draws, id);
      RectPartLabel(items[n], at, draws, id);
      BoundTextConcat(id, RectParts(items[..n], at, draws), RectPart(items[n], at, draws));
      assert forall i :: 0 <= i < n ==> items[..n][i] == items[i];
    }
  }

  lemma {:induction false} ArrowPartLabel(edge: IrEdge, k: nat, at: map<string, PositionedNode>, draws: Draws,
                                          id: string)
    requires edge.from in at && edge.to in at
    ensures BoundText(id, ArrowPart(edge, k, at, draws)) ==
            if HasLabel(edge) && id == EdgeId(k) then edge.labelText else None
  {
    var arrow := ArrowElement(edge, k, at[edge.from], at[edge.to], draws);
    if HasLabel(edge) {
      var text := LabelElement(EdgeId(k), edge.labelText.value, EdgeLabelBox(k, at[edge.from], at[edge.to]), draws);
      assert ArrowPart(edge, k, at, draws) == [arrow, text];
      BoundTextOfPair(id, arrow, text);
    } else {
      assert ArrowPart(edge, k, at, draws) == [arrow];
      BoundTextOfPair(id, arrow, arrow);
    }
  }

  lemma LabelStep(edges: seq<IrEdge>, at: map<string, PositionedNode>, draws: Draws, id: string)
    requires Joined(edges, at) && edges != []
    ensures var n := |edges| - 1;
            var before := BoundText(id, ArrowParts(edges[..n], at, draws));
            BoundText(id, ArrowParts(edges, at, draws)) ==
            if before.Some? then before else if HasLabel(edges[n]) && id == EdgeId(n) then edges[n].labelText else None
  {
    var n := |edges| - 1;
    ArrowPartLabel(edges[n], n, at, draws, id);
    BoundTextConcat(id, ArrowParts(edges[..n], at, draws), ArrowPart(edges[n], n, at, draws));
  }

  lemma {:induction false} NoArrowLabel(edges: seq<IrEdge>, at: map<string, PositionedNode>, draws: Draws, id: string)
    requires Joined(edges, at) && forall k :: 0 <= k < |edges| ==> EdgeId(k) != id
    ensures BoundText(id, ArrowParts(edges, at, draws)) == None
  {
    if edges != [] {
      var n := |edges| - 1;
      NoArrowLabel(edges[..n], at, draws, id);
      LabelStep(edges, at, draws, id);
    }
  }

  lemma OtherEdgeIds(n: nat)
    ensures forall k :: 0 <= k < n ==> EdgeId(k) != EdgeId(n)
  {
    forall k | 0 <= k < n
      ensures EdgeId(k) != EdgeId(n)
    {
      if EdgeId(k) == EdgeId(n) {
        EdgeIdsAreDistinct(k, n);
      }
    }
  }

  lemma {:induction false} ArrowLabel(edges: seq<IrEdge>, at: map<string, PositionedNode>, draws: Draws, k: nat)
    requires Joined(edges, at) && k < |edges|
    ensures BoundText(EdgeId(k), ArrowParts(edges, at, draws)) ==
            if HasLabel(edges[k]) then edges[k].labelText else None
  {
    var n := |edges| - 1;
    LabelStep(edges, at, draws, EdgeId(k));
    OtherEdgeIds(n);
    if k < n {
      ArrowLabel(edges[..n], at, draws, k);
    } else {
      NoArrowLabel(edges[..n], at, draws, EdgeId(n));
    }
  }

  // ---------------------------------------------------------------------------------------------
  // Reading the scene
  // ---------------------------------------------------------------------------------------------

  /** The rectangle-and-label part followed by the arrow part. */
  function Drawn(items: seq<Item>, edges: seq<IrEdge>, at: map<string, PositionedNode>, draws: Draws): seq<Element> {
    RectParts(items, at, draws) + ArrowParts(edges, at, draws)
  }

  ghost predicate Ready(items: seq<Item>, edges: seq<IrEdge>, at: map<string, PositionedNode>) {
    Placed(items, at) && UniqueItems(items) && Filled(items) && NoClash(items, edges) && Joined(edges, at)
  }

  lemma {:induction false} RectPartsMembers(items: seq<Item>, at: map<string, PositionedNode>, draws: Draws, k: nat)
    requires Placed(items, at) && k < |RectParts(items, at, draws)|
    ensures |RectParts(items, at, draws)| == 2 * |items|
    ensures var e, i := RectParts(items, at, draws)[k], k / 2;
            && !e.isDeleted
            && (k % 2 == 0 ==> e == RectangleElement(items[i].id, at[items[i].id], items[i].color, draws))
            && (k % 2 == 1 ==> e == LabelElement(items[i].id, items[i].labelText, at[items[i].id], draws))
  {
    if items == [] {
    } else {
      RectPartsAt(items, at, draws, 0);
      RectPartsAt(items, at, draws, k / 2);
    }
  }

  lemma {:induction false} AllLive(scene: seq<Element>)
    requires forall k :: 0 <= k < |scene| ==> !scene[k].isDeleted
    ensures LiveScene(scene) == scene
  {
    if scene != [] {
      AllLive(scene[..|scene| - 1]);
    }
  }

  lemma DrawnIsLive(items: seq<Item>, edges: seq<IrEdge>, at: map<string, PositionedNode>, draws: Draws)
    requires Placed(items, at) && Joined(edges, at)
    ensures LiveScene(Drawn(items, edges, at, draws)) == Drawn(items, edges, at, draws)
  {
    var rects, arrows := RectParts(items, at, draws), ArrowParts(edges, at, draws);
    var scene: seq<Element> := rects + arrows;
    forall k | 0 <= k < |scene|
      ensures !scene[k].isDeleted
    {
      if k < |rects| {
        RectPartsMembers(items, at, draws, k);
      } else {
        ArrowPartsMembers(edges, at, draws, arrows[k - |rects|]);
      }
    }
    AllLive(scene);
  }

  /** The last element with an id is the one the table keeps. */
  lemma {:induction false} LastWins(elements: seq<SemanticElement>, i: nat)
    requires i < |elements| && forall j :: i < j < |elements| ==> elements[j].elementId != elements[i].elementId
    ensures elements[i].elementId in SemanticById(elements)
    ensures SemanticById(elements)[elements[i].elementId] == elements[i]
  {
    var n := |elements| - 1;
    if i < n {
      LastWins(elements[..n], i);
    }
  }

  lemma {:induction false} LaterRectPart(items: seq<Item>, edges: seq<IrEdge>, at: map<string, PositionedNode>,
                                         draws: Draws, i: nat, k: nat)
    requires Ready(items, edges, at) && i < |items| && 2 * i < k < |RectParts(items, at, draws)|
    ensures RectParts(items, at, draws)[k].id != items[i].id
  {
    RectPartsMembers(items, at, draws, k);
    if k % 2 == 0 {
      assert i < k / 2;
    }
  }

  /** After its rectangle no element of the scene has an item's id. */
  lemma NoLaterNamesake(items: seq<Item>, edges: seq<IrEdge>, at: map<string, PositionedNode>, draws: Draws, i: nat,
                        k: nat)
    requires Ready(items, edges, at) && i < |items| && 2 * i < k < |Drawn(items, edges, at, draws)|
    ensures Drawn(items, edges, at, draws)[k].id != items[i].id
  {
    var rects, arrows := RectParts(items, at, draws), ArrowParts(edges, at, draws);
    if k < |rects| {
      LaterRectPart(items, edges, at, draws, i, k);
    } else {
      ArrowIsNoNamesake(items, edges, at, draws, i, arrows[k - |rects|]);
    }
  }

  lemma {:induction false} ArrowIsNoNamesake(items: seq<Item>, edges: seq<IrEdge>, at: map<string, PositionedNode>,
                                             draws: Draws,
                          i: nat, e: Element)
    requires Ready(items, edges, at) && i < |items| && e in ArrowParts(edges, at, draws)
    ensures e.id != items[i].id
  {
    ArrowPartsMembers(edges, at, draws, e);
    GeneratedIdIsFree(items, edges, i, e.id);
  }

  lemma GeneratedIdIsFree(items: seq<Item>, edges: seq<IrEdge>, i: nat, id: string)
    requires NoClash(items, edges) && i < |items|
    requires exists k :: 0 <= k < |edges| && (id == EdgeId(k) || (HasLabel(edges[k]) && id == LabelId(EdgeId(k))))
    ensures id != items[i].id
  {
    var k :| 0 <= k < |edges| && (id == EdgeId(k) || (HasLabel(edges[k]) && id == LabelId(EdgeId(k))));
    assert items[i].id != EdgeId(k);
  }

  /** The decompiler reads the item's own label off its rectangle. */
  lemma LabelOfItem(items: seq<Item>, edges: seq<IrEdge>, at: map<string, PositionedNode>, draws: Draws, i: nat)
    requires Ready(items, edges, at) && i < |items|
    ensures var byId := Decompile.ById(Drawn(items, edges, at, draws));
            items[i].id in byId && byId[items[i].id].labelText == Some(items[i].labelText)
  {
    var scene := Drawn(items, edges, at, draws);
    var elements := ElementsOf(scene);
    DrawnIsLive(items, edges, at, draws);
    RectPartsAt(items, at, draws, i);
    assert scene[2 * i] == RectParts(items, at, draws)[2 * i];
    forall k | 2 * i < k < |elements|
      ensures elements[k].elementId != elements[2 * i].elementId
    {
      NoLaterNamesake(items, edges, at, draws, i, k);
    }
    LastWins(elements, 2 * i);
    RectLabels(items, at, draws, items[i].id);
    BoundTextConcat(items[i].id, RectParts(items, at, draws), ArrowParts(edges, at, draws));
  }

  lemma {:induction false} RectBoxesConcat(a: seq<Element>, b: seq<Element>, byId: map<string, SemanticElement>)
    ensures RectBoxes(a + b, byId) == RectBoxes(a, byId) + RectBoxes(b, byId)
  {
    if b == [] {
      assert a + b == a;
    } else {
      var n := |b| - 1;
      RectBoxesConcat(a, b[..n], byId);
      assert (a + b)[..|a + b| - 1] == a + b[..n];
    }
  }

  lemma {:induction false} NoBoxes(scene: seq<Element>, byId: map<string, SemanticElement>)
    requires forall e :: e in scene ==> e.content.kind != "rectangle"
    ensures RectBoxes(scene, byId) == []
  {
    if scene != [] {
      NoBoxes(scene[..|scene| - 1], byId);
    }
  }

  lemma {:induction false} BoxesOfPart(item: Item, at: map<string, PositionedNode>, draws: Draws, byId: map<string,
                                       SemanticElement>)
    requires item.id in at && item.labelText != ""
    requires item.id in byId && byId[item.id].labelText == Some(item.labelText)
    ensures RectBoxes(RectPart(item, at, draws), byId) == [ItemBox(item, at)]
  {
    var part := RectPart(item, at, draws);
    assert BoxOf(part[0], byId) == Some(ItemBox(item, at));
    assert part[..1] == [part[0]] && RectBoxes([part[0]][..0], byId) == [];
  }

  /** Every item's label is the one the semantics resolve for it. */
  ghost predicate Labelled(items: seq<Item>, byId: map<string, SemanticElement>) {
    forall i :: 0 <= i < |items| ==> items[i].id in byId && byId[items[i].id].labelText == Some(items[i].labelText)
  }

  lemma FrontIsReady(items: seq<Item>, at: map<string, PositionedNode>, byId: map<string, SemanticElement>)
    requires items != [] && Placed(items, at) && Filled(items) && Labelled(items, byId)
    ensures var front := items[..|items| - 1];
            && Placed(front, at) && Filled(front) && Labelled(front, byId)
            && ItemBoxes(items, at) == ItemBoxes(front, at) + [ItemBox(items[|items| - 1], at)]
  {
  }

  lemma {:induction false} BoxesOfRects(items: seq<Item>, at: map<string, PositionedNode>, draws: Draws,
                                        byId: map<string, SemanticElement>)
    requires Placed(items, at) && Filled(items) && Labelled(items, byId)
    ensures RectBoxes(RectParts(items, at, draws), byId) == ItemBoxes(items, at)
  {
    if items != [] {
      var front, last := items[..|items| - 1], items[|items| - 1];
      FrontIsReady(items, at, byId);
      BoxesOfRects(front, at, draws, byId);
      BoxesOfPart(last, at, draws, byId);
      RectBoxesConcat(RectParts(front, at, draws), RectPart(last, at, draws), byId);
    }
  }

  /** The boxes the decompiler finds are those of the containers and the nodes, in their order. */
  lemma BoxesAreTheItems(items: seq<Item>, edges: seq<IrEdge>, at: map<string, PositionedNode>, draws: Draws)
    requires Ready(items, edges, at)
    ensures BoxesOf(Drawn(items, edges, at, draws)) == ItemBoxes(items, at)
  {
    var byId := Decompile.ById(Drawn(items, edges, at, draws));
    forall i | 0 <= i < |items|
      ensures items[i].id in byId && byId[items[i].id].labelText == Some(items[i].labelText)
    {
      LabelOfItem(items, edges, at, draws, i);
    }
    BoxesOfRects(items, at, draws, byId);
    forall e | e in ArrowParts(edges, at, draws)
      ensures e.content.kind != "rectangle"
    {
      ArrowPartsMembers(edges, at, draws, e);
    }
    NoBoxes(ArrowParts(edges, at, draws), byId);
    RectBoxesConcat(RectParts(items, at, draws), ArrowParts(edges, at, draws), byId);
  }

  // ---------------------------------------------------------------------------------------------
  // Edges
  // ---------------------------------------------------------------------------------------------

  lemma {:induction false} EdgeArrowsConcat(a: seq<Element>, b: seq<Element>, ids: set<string>)
    ensures EdgeArrows(a + b, ids) == EdgeArrows(a, ids) + EdgeArrows(b, ids)
  {
    if b == [] {
      assert a + b == a;
    } else {
      var n := |b| - 1;
      EdgeArrowsConcat(a, b[..n], ids);
      assert (a + b)[..|a + b| - 1] == a + b[..n];
    }
  }

  lemma {:induction false} NoArrows(scene: seq<Element>, ids: set<string>)
    requires forall k :: 0 <= k < |scene| ==> scene[k].content.kind != "arrow"
    ensures EdgeArrows(scene, ids) == []
  {
    if scene != [] {
      NoArrows(scene[..|scene| - 1], ids);
    }
  }

  ghost predicate Bound(edges: seq<IrEdge>, ids: set<string>) {
    forall k :: 0 <= k < |edges| ==> Names(Some(edges[k].from), ids) && Names(Some(edges[k].to), ids)
  }

  lemma {:induction false} ArrowOfPart(edge: IrEdge, k: nat, at: map<string, PositionedNode>, draws: Draws,
                                       ids: set<string>)
    requires edge.from in at && edge.to in at && Names(Some(edge.from), ids) && Names(Some(edge.to), ids)
    ensures EdgeArrows(ArrowPart(edge, k, at, draws), ids) == [ArrowElement(edge, k, at[edge.from], at[edge.to], draws)]
  {
    var arrow := ArrowElement(edge, k, at[edge.from], at[edge.to], draws);
    assert [arrow][..0] == [];
    assert EdgeArrows([arrow], ids) == [arrow];
    if HasLabel(edge) {
      var text := LabelElement(EdgeId(k), edge.labelText.value, EdgeLabelBox(k, at[edge.from], at[edge.to]), draws);
      EdgeArrowsConcat([arrow], [text], ids);
      NoArrows([text], ids);
      assert ArrowPart(edge, k, at, draws) == [arrow] + [text];
    } else {
      assert ArrowPart(edge, k, at, draws) == [arrow];
    }
  }

  /** The arrows of the edges, in edge order. */
  function Arrows(edges: seq<IrEdge>, at: map<string, PositionedNode>, draws: Draws): seq<Element>
    requires Joined(edges, at)
  {
    if edges == [] then []
    else Arrows(edges[..|edges| - 1], at, draws) + [ArrowAt(edges, |edges| - 1, at, draws)]
  }

  lemma {:induction false} ArrowsIndex(edges: seq<IrEdge>, at: map<string, PositionedNode>, draws: Draws, k: nat)
    requires Joined(edges, at) && k < |edges|
    ensures |Arrows(edges, at, draws)| == |edges|
    ensures Arrows(edges, at, draws)[k] == ArrowAt(edges, k, at, draws)
  {
    var n := |edges| - 1;
    if n > 0 {
      var j := if k < n then k else 0;
      ArrowsIndex(edges[..n], at, draws, j);
      assert edges[..n][j] == edges[j];
    }
  }

  lemma {:induction false} ArrowsAreTheEdges(edges: seq<IrEdge>, at: map<string, PositionedNode>, draws: Draws,
                                             ids: set<string>)
    requires Joined(edges, at) && Bound(edges, ids)
    ensures EdgeArrows(ArrowParts(edges, at, draws), ids) == Arrows(edges, at, draws)
  {
    if edges != [] {
      var n := |edges| - 1;
      ArrowsAreTheEdges(edges[..n], at, draws, ids);
      ArrowOfPart(edges[n], n, at, draws, ids);
      EdgeArrowsConcat(ArrowParts(edges[..n], at, draws), ArrowPart(edges[n], n, at, draws), ids);
    }
  }

  /** The edge as it can come back: its ends, direction and label, with mode and protocol from metadata. */
  function EdgeBack(edge: IrEdge, k: nat, metadata: seq<MetadataRow>): IrEdge {
    edge.(mode := EdgeModeFor(EdgeId(k), metadata), protocol := StringField(EdgeId(k), "protocol", metadata))
  }

  lemma EdgeLabelIsRead(items: seq<Item>, edges: seq<IrEdge>, at: map<string, PositionedNode>, draws: Draws, k: nat)
    requires Ready(items, edges, at) && k < |edges|
    ensures ResolveLabel(ArrowAt(edges, k, at, draws), Drawn(items, edges, at, draws)) ==
            if HasLabel(edges[k]) then edges[k].labelText else None
  {
    RectLabels(items, at, draws, EdgeId(k));
    ArrowLabel(edges, at, draws, k);
    BoundTextConcat(EdgeId(k), RectParts(items, at, draws), ArrowParts(edges, at, draws));
  }

  lemma EveryEdgeHasAnArrow(items: seq<Item>, edges: seq<IrEdge>, at: map<string, PositionedNode>, draws: Draws)
    requires Ready(items, edges, at) && Bound(edges, LiveIds(Drawn(items, edges, at, draws)))
    ensures var scene := Drawn(items, edges, at, draws);
            && |EdgeArrows(scene, LiveIds(scene))| == |edges|
            && forall k :: 0 <= k < |edges| ==> EdgeArrows(scene, LiveIds(scene))[k] == ArrowAt(edges, k, at, draws)
  {
    DrawnArrows(items, edges, at, draws, LiveIds(Drawn(items, edges, at, draws)));
    if edges != [] {
      ArrowsIndex(edges, at, draws, 0);
    }
    forall k | 0 <= k < |edges|
      ensures |Arrows(edges, at, draws)| == |edges| && Arrows(edges, at, draws)[k] == ArrowAt(edges, k, at, draws)
    {
      ArrowsIndex(edges, at, draws, k);
    }
  }

  lemma EdgesComeBack(items: seq<Item>, edges: seq<IrEdge>, at: map<string, PositionedNode>, draws: Draws,
                      metadata: seq<MetadataRow>)
    requires Ready(items, edges, at) && Bound(edges, LiveIds(Drawn(items, edges, at, draws)))
    requires forall k :: 0 <= k < |edges| && edges[k].labelText.Some? ==> edges[k].labelText.value != ""
    ensures var back := EdgesFrom(Drawn(items, edges, at, draws), metadata);
            |back| == |edges| && forall k :: 0 <= k < |edges| ==> back[k] == EdgeBack(edges[k], k, metadata)
  {
    var scene := Drawn(items, edges, at, draws);
    EveryEdgeHasAnArrow(items, edges, at, draws);
    DrawnIsLive(items, edges, at, draws);
    forall k | 0 <= k < |edges|
      ensures EdgesFrom(scene, metadata)[k] == EdgeBack(edges[k], k, metadata)
    {
      EdgeLabelIsRead(items, edges, at, draws, k);
    }
  }

  lemma {:induction false} DrawnArrows(items: seq<Item>, edges: seq<IrEdge>, at: map<string, PositionedNode>,
                                       draws: Draws, ids: set<string>)
    requires Placed(items, at) && Joined(edges, at) && Bound(edges, ids)
    ensures EdgeArrows(Drawn(items, edges, at, draws), ids) == Arrows(edges, at, draws)
  {
    var rects := RectParts(items, at, draws);
    forall k | 0 <= k < |rects|
      ensures rects[k].content.kind != "arrow"
    {
      RectPartsMembers(items, at, draws, k);
    }
    NoArrows(rects, ids);
    EdgeArrowsConcat(rects, ArrowParts(edges, at, draws), ids);
    ArrowsAreTheEdges(edges, at, draws, ids);
  }

  // ---------------------------------------------------------------------------------------------
  // The demands can be met
  // ---------------------------------------------------------------------------------------------

  const SAMPLE := IrDocument([IrNode("a", "A", None, None)], [IrContainer("c", "C", Group, ["a"])], [])

  const SAMPLE_LAYOUT := map["c" := PositionedNode("c", 0.0, 0.0, 90.0, 90.0),
                             "a" := PositionedNode("a", 30.0, 30.0, 20.0, 20.0)]

  lemma SampleTree(p: string, q: string)
    ensures IsChild(SAMPLE, p, q) <==> p == "c" && q == "a"
    ensures Holds(SAMPLE, p, q) <==> p == "c" && q == "a"
  {
    assert SAMPLE.containers[0].id == "c" && SAMPLE.containers[0].children == ["a"];
    if Holds(SAMPLE, p, q) {
      var path :| LeadsDown(SAMPLE, path) && path[0] == p && path[|path| - 1] == q;
      assert |path| > 2 ==> IsChild(SAMPLE, path[1], path[2]);
      assert IsChild(SAMPLE, path[0], path[1]);
    }
    if p == "c" && q == "a" {
      var path := ["c", "a"];
      assert IsChild(SAMPLE, path[0], path[1]);
      assert LeadsDown(SAMPLE, path);
    }
  }

  lemma SampleItems()
    ensures var items := Items(SAMPLE, map[]);
            items == [Item("c", "C", DEFAULT_STROKE_COLOR), Item("a", "A", DEFAULT_STROKE_COLOR)]
  {
  }

  lemma SampleIsValid()
    ensures Valid(SAMPLE, Items(SAMPLE, map[])) && OneParent(SAMPLE)
  {
    SampleItems();
    assert SAMPLE.nodes[0].id == "a" && "a" in NodeIds(SAMPLE);
    assert SAMPLE.containers[0].children == ["a"];
    forall p, q, c | IsChild(SAMPLE, p, c) && IsChild(SAMPLE, q, c)
      ensures p == q
    {
      SampleTree(p, c);
      SampleTree(q, c);
    }
  }

  lemma SampleDoesNotClash()
    ensures NoClash(Items(SAMPLE, map[]), SAMPLE.edges)
  {
    SampleItems();
    assert forall id :: |LabelId(id)| > 1;
  }

  /** A node in a container, drawn inside it, is a document and a layout as demanded. */
  lemma SampleMeetsTheDemands()
    ensures Valid(SAMPLE, Items(SAMPLE, map[])) && NoClash(Items(SAMPLE, map[]), SAMPLE.edges) && OneParent(SAMPLE)
    ensures Fits(SAMPLE, Items(SAMPLE, map[]), SAMPLE_LAYOUT)
  {
    SampleIsValid();
    SampleDoesNotClash();
    SampleItems();
    var items := Items(SAMPLE, map[]);
    forall i, j | 0 <= i < |items| && 0 <= j < |items|
      ensures FitsPair(SAMPLE, ItemBox(items[i], SAMPLE_LAYOUT), ItemBox(items[j], SAMPLE_LAYOUT))
    {
      SampleTree(items[i].id, items[j].id);
    }
  }
}
