/** From the intermediate representation to a flat scene. The layout is a parameter. */
module Compile {
  import opened OrderedMaps
  import opened Scenes
  import opened Ir

  datatype PositionedNode = PositionedNode(id: string, x: real, y: real, width: real, height: real)

  datatype LibraryItem = LibraryItem(stableKey: string, color: Option<string>)

  datatype CompileIssue = UnknownComponentKey(nodeId: string, componentKey: string)

  datatype CompileResult = CompiledScene(elements: seq<Element>) | CompileError(issues: seq<CompileIssue>)

  /** What comes from outside: the random numbers, by element id, and the time. */
  datatype Draws = Draws(nonce: string -> int, now: int)

  const DEFAULT_STROKE_COLOR := "#1e1e1e"

  function Digits(n: nat): (s: string)
    ensures |s| > 0
    ensures forall k :: 0 <= k < |s| ==> '0' <= s[k] <= '9'
  {
    var last := ['0' + (n % 10) as char];
    if n < 10 then last else Digits(n / 10) + last
  }

  function EdgeId(index: nat): string {
    "edge-" + Digits(index)
  }

  function LabelId(id: string): string {
    id + "__label"
  }

  function NewElement(id: string, x: real, y: real, content: Content, draws: Draws): Element {
    Element(id, 1, draws.nonce(id), false, draws.now, x, y, content)
  }

  function LabelElement(containerId: string, text: string, box: PositionedNode, draws: Draws): Element {
    NewElement(LabelId(containerId), box.x, box.y,
               Content("text", box.width, box.height, Some(text), Some(containerId), None, None, None, [],
                       DEFAULT_STROKE_COLOR), draws)
  }

  function RectangleElement(id: string, box: PositionedNode, color: string, draws: Draws): Element {
    NewElement(id, box.x, box.y,
               Content("rectangle", box.width, box.height, None, None, None, None, None, [LabelId(id)], color), draws)
  }

  function Abs(a: real): real { if a < 0.0 then -a else a }

  function ArrowElement(edge: IrEdge, index: nat, from: PositionedNode, to: PositionedNode, draws: Draws): Element {
    var fx, fy := from.x + from.width / 2.0, from.y + from.height / 2.0;
    var tx, ty := to.x + to.width / 2.0, to.y + to.height / 2.0;
    NewElement(EdgeId(index), fx, fy,
               Content("arrow", Abs(tx - fx), Abs(ty - fy), None, None, Some(edge.from), Some(edge.to),
                       if edge.direction.Bidirectional? then Some("arrow") else None,
                       if HasLabel(edge) then [LabelId(EdgeId(index))] else [], DEFAULT_STROKE_COLOR), draws)
  }

  function EdgeLabelBox(index: nat, from: PositionedNode, to: PositionedNode): PositionedNode {
    var fx, fy := from.x + from.width / 2.0, from.y + from.height / 2.0;
    var tx, ty := to.x + to.width / 2.0, to.y + to.height / 2.0;
    PositionedNode(LabelId(EdgeId(index)), fx + (tx - fx) / 2.0 - 40.0, fy + (ty - fy) / 2.0 - 12.0, 80.0, 24.0)
  }

  predicate HasLabel(edge: IrEdge) {
    edge.labelText.Some? && edge.labelText.value != ""
  }

  /** A node or a container, as far as drawing it goes. */
  datatype Item = Item(id: string, labelText: string, color: string)

  function RectPart(item: Item, at: map<string, PositionedNode>, draws: Draws): seq<Element> {
    if item.id !in at then []
    else [RectangleElement(item.id, at[item.id], item.color, draws),
          LabelElement(item.id, item.labelText, at[item.id], draws)]
  }

  function RectParts(items: seq<Item>, at: map<string, PositionedNode>, draws: Draws): seq<Element> {
    if items == [] then []
    else RectParts(items[..|items| - 1], at, draws) + RectPart(items[|items| - 1], at, draws)
  }

  function ArrowPart(edge: IrEdge, index: nat, at: map<string, PositionedNode>, draws: Draws): seq<Element> {
    if edge.from !in at || edge.to !in at then []
    else
      var from, to := at[edge.from], at[edge.to];
      [ArrowElement(edge, index, from, to, draws)] +
      if HasLabel(edge)
      then [LabelElement(EdgeId(index), edge.labelText.value, EdgeLabelBox(index, from, to), draws)]
      else []
  }

  function ArrowParts(edges: seq<IrEdge>, at: map<string, PositionedNode>, draws: Draws): seq<Element> {
    if edges == [] then []
    else
      var index := |edges| - 1;
      ArrowParts(edges[..index], at, draws) + ArrowPart(edges[index], index, at, draws)
  }

  function ContainerItems(containers: seq<IrContainer>): seq<Item> {
    seq(|containers|, i requires 0 <= i < |containers| =>
      Item(containers[i].id, containers[i].labelText, DEFAULT_STROKE_COLOR))
  }

  function KnownKeys(library: seq<LibraryItem>): map<string, LibraryItem> {
    if library == [] then map[]
    else
      var last := library[|library| - 1];
      KnownKeys(library[..|library| - 1])[last.stableKey := last]
  }

  function ColorOf(node: IrNode, keys: map<string, LibraryItem>): string {
    if node.componentKey.Some? && node.componentKey.value != "" && node.componentKey.value in keys
       && keys[node.componentKey.value].color.Some?
    then keys[node.componentKey.value].color.value
    else DEFAULT_STROKE_COLOR
  }

  function NodeItems(nodes: seq<IrNode>, keys: map<string, LibraryItem>): seq<Item> {
    seq(|nodes|, i requires 0 <= i < |nodes| => Item(nodes[i].id, nodes[i].labelText, ColorOf(nodes[i], keys)))
  }

  function Positions(positioned: seq<PositionedNode>): map<string, PositionedNode> {
    if positioned == [] then map[]
    else
      var last := positioned[|positioned| - 1];
      Positions(positioned[..|positioned| - 1])[last.id := last]
  }

  function SceneOf(ir: IrDocument, keys: map<string, LibraryItem>, at: map<string, PositionedNode>, draws: Draws)
    : seq<Element>
  {
    RectParts(ContainerItems(ir.containers), at, draws) + RectParts(NodeItems(ir.nodes, keys), at, draws)
    + ArrowParts(ir.edges, at, draws)
  }

  predicate Unresolved(node: IrNode, keys: map<string, LibraryItem>) {
    node.componentKey.Some? && node.componentKey.value != "" && node.componentKey.value !in keys
  }

  // ---------------------------------------------------------------------------------------------
  // Labels and what they label
  // ---------------------------------------------------------------------------------------------

  /** A text and an element that name each other: one as its container, the other as bound to it. */
  predicate Labels(text: Element, host: Element) {
    text.content.kind == "text" && text.content.containerId == Some(host.id) && host.content.boundElements == [text.id]
  }

  /** Every text labels the element before it, and what is said to have a label has it next to it. */
  predicate Linked(scene: seq<Element>) {
    && (forall i :: 0 <= i < |scene| && scene[i].content.kind == "text" ==> 0 < i && Labels(scene[i], scene[i - 1]))
    && (forall i :: 0 <= i < |scene| && scene[i].content.boundElements != [] ==>
          i + 1 < |scene| && Labels(scene[i + 1], scene[i]))
  }

  lemma LinkedConcat(a: seq<Element>, b: seq<Element>)
    requires Linked(a) && Linked(b)
    ensures Linked(a + b)
  {
    var s := a + b;
    forall i | 0 <= i < |s|
      ensures s[i].content.kind == "text" ==> 0 < i && Labels(s[i], s[i - 1])
      ensures s[i].content.boundElements != [] ==> i + 1 < |s| && Labels(s[i + 1], s[i])
    {
      if i >= |a| {
        assert s[i] == b[i - |a|];
      }
    }
  }

  lemma ArrowPartIsLinked(edge: IrEdge, index: nat, at: map<string, PositionedNode>, draws: Draws)
    ensures Linked(ArrowPart(edge, index, at, draws))
  {
  }

  lemma {:induction false} RectPartsAreLinked(items: seq<Item>, at: map<string, PositionedNode>, draws: Draws)
    ensures Linked(RectParts(items, at, draws))
  {
    if items != [] {
      var n := |items| - 1;
      RectPartsAreLinked(items[..n], at, draws);
      LinkedConcat(RectParts(items[..n], at, draws), RectPart(items[n], at, draws));
    }
  }

  lemma {:induction false} ArrowPartsAreLinked(edges: seq<IrEdge>, at: map<string, PositionedNode>, draws: Draws)
    ensures Linked(ArrowParts(edges, at, draws))
  {
    if edges != [] {
      var n := |edges| - 1;
      ArrowPartsAreLinked(edges[..n], at, draws);
      ArrowPartIsLinked(edges[n], n, at, draws);
      LinkedConcat(ArrowParts(edges[..n], at, draws), ArrowPart(edges[n], n, at, draws));
    }
  }

  /**
   * In every compiled scene labels and what they label name each other: the element right before
   * each text lists it and is named by it as its container, and nothing lists a label that is not
   * there.
   */
  lemma {:induction false} CompiledScenesAreLinked(ir: IrDocument, keys: map<string, LibraryItem>,
                                                   at: map<string, PositionedNode>, draws: Draws)
    ensures Linked(SceneOf(ir, keys, at, draws))
  {
    var containers, nodes := RectParts(ContainerItems(ir.containers), at, draws),
      RectParts(NodeItems(ir.nodes, keys), at, draws);
    RectPartsAreLinked(ContainerItems(ir.containers), at, draws);
    RectPartsAreLinked(NodeItems(ir.nodes, keys), at, draws);
    ArrowPartsAreLinked(ir.edges, at, draws);
    LinkedConcat(containers, nodes);
    LinkedConcat(containers + nodes, ArrowParts(ir.edges, at, draws));
  }

  /** Adds a rectangle and its label. */
  method BuildRectangle(item: Item, box: PositionedNode, draws: Draws, elements: seq<Element>)
    returns (more: seq<Element>)
    ensures more == elements + [RectangleElement(item.id, box, item.color, draws),
                                LabelElement(item.id, item.labelText, box, draws)]
    ensures Linked(elements) ==> Linked(more)
  {
    if Linked(elements) {
      LinkedConcat(elements, [RectangleElement(item.id, box, item.color, draws),
                              LabelElement(item.id, item.labelText, box, draws)]);
    }
    more := elements + [RectangleElement(item.id, box, item.color, draws)];
    more := more + [LabelElement(item.id, item.labelText, box, draws)];
  }

  /** Adds an arrow, and its label if it has one. */
  method BuildArrow(edge: IrEdge, index: nat, at: map<string, PositionedNode>, draws: Draws, elements: seq<Element>)
    returns (more: seq<Element>)
    ensures more == elements + ArrowPart(edge, index, at, draws)
    ensures Linked(elements) ==> Linked(more)
  {
    ArrowPartIsLinked(edge, index, at, draws);
    if Linked(elements) {
      LinkedConcat(elements, ArrowPart(edge, index, at, draws));
    }
    more := elements;
    if edge.from !in at || edge.to !in at { return; }
    var arrow := ArrowElement(edge, index, at[edge.from], at[edge.to], draws);
    more := more + [arrow];
    if HasLabel(edge) {
      var labelBox := EdgeLabelBox(index, at[edge.from], at[edge.to]);
      more := more + [LabelElement(EdgeId(index), edge.labelText.value, labelBox, draws)];
    }
  }

  /** One issue per node whose component key is not in the library, in node order. */
  function Issues(nodes: seq<IrNode>, keys: map<string, LibraryItem>): seq<CompileIssue> {
    if nodes == [] then []
    else
      var before, last := Issues(nodes[..|nodes| - 1], keys), nodes[|nodes| - 1];
      if Unresolved(last, keys) then before + [UnknownComponentKey(last.id, last.componentKey.value)] else before
  }

  lemma {:induction false} IssuesAreTheUnresolved(nodes: seq<IrNode>, keys: map<string, LibraryItem>)
    ensures Issues(nodes, keys) == [] <==> forall node :: node in nodes ==> !Unresolved(node, keys)
  {
    if nodes != [] {
      IssuesAreTheUnresolved(nodes[..|nodes| - 1], keys);
      assert nodes == nodes[..|nodes| - 1] + [nodes[|nodes| - 1]];
    }
  }

  /** The drawing loop for containers and for nodes. */
  method DrawItems(items: seq<Item>, at: map<string, PositionedNode>, draws: Draws, drawn: seq<Element>)
    returns (elements: seq<Element>)
    ensures elements == drawn + RectParts(items, at, draws)
  {
    elements := drawn;
    for i := 0 to |items|
      invariant elements == drawn + RectParts(items[..i], at, draws)
    {
      assert items[..i + 1][..i] == items[..i];
      if items[i].id !in at { continue; }
      elements := BuildRectangle(items[i], at[items[i].id], draws, elements);
    }
    assert items[..|items|] == items;
  }

  method DrawEdges(edges: seq<IrEdge>, at: map<string, PositionedNode>, draws: Draws, drawn: seq<Element>)
    returns (elements: seq<Element>)
    ensures elements == drawn + ArrowParts(edges, at, draws)
  {
    elements := drawn;
    for index := 0 to |edges|
      invariant elements == drawn + ArrowParts(edges[..index], at, draws)
    {
      assert edges[..index + 1][..index] == edges[..index];
      elements := BuildArrow(edges[index], index, at, draws, elements);
    }
    assert edges[..|edges|] == edges;
  }

  /**
   * Compiles a document into a scene, unless a node asks for a component the library does not
   * have; then there are only issues and no partial scene.
   */
  method CompileIr(ir: IrDocument, library: seq<LibraryItem>, positioned: seq<PositionedNode>, draws: Draws)
    returns (result: CompileResult)
    ensures var keys := KnownKeys(library);
            result == if Issues(ir.nodes, keys) != [] then CompileError(Issues(ir.nodes, keys))
                      else CompiledScene(SceneOf(ir, keys, Positions(positioned), draws))
  {
    var libraryByKey := KnownKeys(library);
    var issues := Issues(ir.nodes, libraryByKey);
    if issues != [] {
      return CompileError(issues);
    }
    var positionedById := Positions(positioned);
    var elements := DrawItems(ContainerItems(ir.containers), positionedById, draws, []);
    elements := DrawItems(NodeItems(ir.nodes, libraryByKey), positionedById, draws, elements);
    elements := DrawEdges(ir.edges, positionedById, draws, elements);
    return CompiledScene(elements);
  }

  // ---------------------------------------------------------------------------------------------
  // Generated ids
  // ---------------------------------------------------------------------------------------------

  lemma {:induction false} DigitsAreInjective(m: nat, n: nat)
    requires Digits(m) == Digits(n)
    ensures m == n
  {
    assert (m >= 10 <==> |Digits(m)| >= 2) && (n >= 10 <==> |Digits(n)| >= 2);
    if m >= 10 && n >= 10 {
      var dm, dn := Digits(m), Digits(n);
      assert dm[..|dm| - 1] == Digits(m / 10) && dn[..|dn| - 1] == Digits(n / 10);
      assert dm[|dm| - 1] == dn[|dn| - 1];
      DigitsAreInjective(m / 10, n / 10);
    }
  }

  lemma EdgeIdsAreDistinct(i: nat, j: nat)
    requires EdgeId(i) == EdgeId(j)
    ensures i == j
  {
    assert EdgeId(i)[5..] == Digits(i) && EdgeId(j)[5..] == Digits(j);
    DigitsAreInjective(i, j);
  }

  /** The number a text of decimal digits stands for. */
  ghost function NumberOf(s: string): int {
    if s == "" then 0 else 10 * NumberOf(s[..|s| - 1]) + (s[|s| - 1] as int - '0' as int)
  }

  /** The generated id of an edge is its position in decimal, without leading zeros. */
  lemma {:induction false} EdgeIdIsItsPosition(n: nat)
    ensures EdgeId(n) == "edge-" + Digits(n) && NumberOf(Digits(n)) == n
    ensures Digits(n)[0] == '0' ==> Digits(n) == "0"
  {
    var d := Digits(n);
    if n < 10 {
      assert d[..0] == "" && NumberOf("") == 0;
    } else {
      EdgeIdIsItsPosition(n / 10);
      assert d[..|d| - 1] == Digits(n / 10);
      assert d[0] == Digits(n / 10)[0];
    }
  }

  // ---------------------------------------------------------------------------------------------
  // What the library and the layout say
  // ---------------------------------------------------------------------------------------------

  /** The last entry the layout has for an id. */
  ghost predicate LastEntry(positioned: seq<PositionedNode>, id: string, p: PositionedNode) {
    exists k :: 0 <= k < |positioned| && positioned[k] == p && p.id == id
                && forall j :: k < j < |positioned| ==> positioned[j].id != id
  }

  ghost predicate HasEntry(positioned: seq<PositionedNode>, id: string) {
    exists k :: 0 <= k < |positioned| && positioned[k].id == id
  }

  /** Where the layout repeats an id its last entry counts. */
  lemma {:induction false} LastEntryCounts(positioned: seq<PositionedNode>, id: string, p: PositionedNode)
    ensures id in Positions(positioned) <==> HasEntry(positioned, id)
    ensures id in Positions(positioned) && Positions(positioned)[id] == p <==> LastEntry(positioned, id, p)
  {
    if positioned != [] {
      var n := |positioned| - 1;
      LastEntryCounts(positioned[..n], id, p);
      if HasEntry(positioned[..n], id) {
        var k :| 0 <= k < n && positioned[..n][k].id == id;
        assert positioned[k].id == id;
      }
      if positioned[n].id != id {
        LastEntryStays(positioned, id, p);
      } else {
        assert HasEntry(positioned, id);
        assert LastEntry(positioned, id, positioned[n]);
      }
    }
  }

  lemma LastEntryStays(positioned: seq<PositionedNode>, id: string, p: PositionedNode)
    requires positioned != [] && positioned[|positioned| - 1].id != id
    ensures LastEntry(positioned, id, p) <==> LastEntry(positioned[..|positioned| - 1], id, p)
    ensures HasEntry(positioned, id) <==> HasEntry(positioned[..|positioned| - 1], id)
  {
    var n := |positioned| - 1;
    var front := positioned[..n];
    assert forall k :: 0 <= k < n ==> front[k] == positioned[k];
    if LastEntry(positioned, id, p) {
      var k :| 0 <= k < |positioned| && positioned[k] == p && p.id == id
               && forall j :: k < j < |positioned| ==> positioned[j].id != id;
      assert front[k] == p;
    }
    if LastEntry(front, id, p) {
      var k :| 0 <= k < |front| && front[k] == p && p.id == id
               && forall j :: k < j < |front| ==> front[j].id != id;
      assert positioned[k] == p;
    }
  }

  ghost predicate Offers(library: seq<LibraryItem>, key: string) {
    exists k :: 0 <= k < |library| && library[k].stableKey == key
  }

  /** Where the library repeats a key its last item counts. */
  lemma {:induction false} LastItemCounts(library: seq<LibraryItem>, key: string)
    ensures key in KnownKeys(library) <==> Offers(library, key)
    ensures forall k :: 0 <= k < |library| && library[k].stableKey == key
                        && (forall j :: k < j < |library| ==> library[j].stableKey != key) ==>
                          key in KnownKeys(library) && KnownKeys(library)[key] == library[k]
  {
    if library != [] {
      var n := |library| - 1;
      LastItemCounts(library[..n], key);
      assert forall k :: 0 <= k < n ==> library[..n][k] == library[k];
      if Offers(library[..n], key) {
        var k :| 0 <= k < n && library[..n][k].stableKey == key;
        assert library[k].stableKey == key;
      }
      if library[n].stableKey == key {
        assert Offers(library, key);
      }
    }
  }

  /** The issues name, in node order, each node that asks for a key no library item has, and that key. */
  lemma {:induction false} IssuesInOrder(nodes: seq<IrNode>, node: IrNode, library: seq<LibraryItem>)
    ensures Issues([], KnownKeys(library)) == []
    ensures Issues(nodes + [node], KnownKeys(library)) ==
            Issues(nodes, KnownKeys(library)) +
            match node.componentKey
            case None => []
            case Some(key) => if key == "" || Offers(library, key) then [] else [UnknownComponentKey(node.id, key)]
  {
    assert (nodes + [node])[..|nodes|] == nodes;
    if node.componentKey.Some? {
      LastItemCounts(library, node.componentKey.value);
    }
  }

  /** A node is drawn in the colour of the last library item with its key, if that has one. */
  lemma {:induction false} NodeColor(nodes: seq<IrNode>, library: seq<LibraryItem>, n: nat, k: nat)
    requires n < |nodes|
    ensures var item := NodeItems(nodes, KnownKeys(library))[n];
            && item.id == nodes[n].id && item.labelText == nodes[n].labelText
            && ((nodes[n].componentKey.None? || nodes[n].componentKey.value == ""
                 || !Offers(library, nodes[n].componentKey.value)) ==> item.color == "#1e1e1e")
            && (k < |library| && nodes[n].componentKey == Some(library[k].stableKey) && library[k].stableKey != ""
                && (forall j :: k < j < |library| ==> library[j].stableKey != library[k].stableKey) ==>
                  item.color == match library[k].color case None => "#1e1e1e" case Some(color) => color)
  {
    if nodes[n].componentKey.Some? {
      LastItemCounts(library, nodes[n].componentKey.value);
    }
  }

  // ---------------------------------------------------------------------------------------------
  // What is drawn
  // ---------------------------------------------------------------------------------------------

  /** A new, live element: its first version, its place and what it shows. */
  ghost predicate Shows(e: Element, id: string, x: real, y: real, content: Content) {
    e.id == id && e.version == 1 && !e.isDeleted && e.x == x && e.y == y && e.content == content
  }

  /** The rectangle at `s`, in its colour and place, with its label right behind it. */
  ghost predicate DrawsItem(scene: seq<Element>, s: nat, item: Item, p: PositionedNode) {
    && s + 1 < |scene|
    && Shows(scene[s], item.id, p.x, p.y,
             Content("rectangle", p.width, p.height, None, None, None, None, None, [item.id + "__label"], item.color))
    && Shows(scene[s + 1], item.id + "__label", p.x, p.y,
             Content("text", p.width, p.height, Some(item.labelText), Some(item.id), None, None, None, [], "#1e1e1e"))
  }

  /** Items are drawn in their order, each where the layout puts it; those it does not place are skipped. */
  lemma {:induction false} ItemsAreDrawnInTurn(items: seq<Item>, item: Item, positioned: seq<PositionedNode>,
                                               draws: Draws)
    ensures var at := Positions(positioned);
            var before, after := RectParts(items, at, draws), RectParts(items + [item], at, draws);
            && RectParts([], at, draws) == [] && before <= after
            && (!HasEntry(positioned, item.id) ==> after == before)
            && (forall p :: LastEntry(positioned, item.id, p) ==>
                  |after| == |before| + 2 && DrawsItem(after, |before|, item, p))
  {
    assert (items + [item])[..|items|] == items;
    forall p | LastEntry(positioned, item.id, p)
      ensures item.id in Positions(positioned) && Positions(positioned)[item.id] == p
    {
      LastEntryCounts(positioned, item.id, p);
    }
    LastEntryCounts(positioned, item.id, PositionedNode("", 0.0, 0.0, 0.0, 0.0));
    var part := RectPart(item, Positions(positioned), draws);
    assert RectParts(items + [item], Positions(positioned), draws) ==
           RectParts(items, Positions(positioned), draws) + part;
  }

  ghost function CenterX(p: PositionedNode): real { p.x + p.width / 2.0 }
  ghost function CenterY(p: PositionedNode): real { p.y + p.height / 2.0 }

  ghost predicate IsDistance(d: real, u: real, v: real) {
    d >= 0.0 && (d == u - v || d == v - u)
  }

  /**
   * The arrow at `s`: from the middle of one box, as wide and high as the way to the middle of the
   * other, bound to both ends, with a head at its start if it goes both ways.
   */
  ghost predicate DrawsArrow(scene: seq<Element>, s: nat, edge: IrEdge, id: string, f: PositionedNode,
                             t: PositionedNode) {
    s < |scene|
    && var c := scene[s].content;
       && Shows(scene[s], id, CenterX(f), CenterY(f), c)
       && c.kind == "arrow" && c.startBinding == Some(edge.from) && c.endBinding == Some(edge.to)
       && IsDistance(c.width, CenterX(f), CenterX(t)) && IsDistance(c.height, CenterY(f), CenterY(t))
       && (c.startArrowhead == if edge.direction == Bidirectional then Some("arrow") else None)
       && c.text.None? && c.containerId.None?
  }

  /** The arrow's label at `s`: 80 by 24, around the middle between the two boxes' middles. */
  ghost predicate DrawsEdgeLabel(scene: seq<Element>, s: nat, text: string, id: string, f: PositionedNode,
                                 t: PositionedNode) {
    s + 1 < |scene| && scene[s].content.boundElements == [id + "__label"]
    && Shows(scene[s + 1], id + "__label",
             (CenterX(f) + CenterX(t)) / 2.0 - 40.0, (CenterY(f) + CenterY(t)) / 2.0 - 12.0,
             Content("text", 80.0, 24.0, Some(text), Some(id), None, None, None, [], "#1e1e1e"))
  }

  /**
   * Edges are drawn in their order, with their position as id, the label behind the arrow if there
   * is one; an edge with an end the layout does not place is skipped.
   */
  lemma {:induction false} EdgesAreDrawnInTurn(edges: seq<IrEdge>, edge: IrEdge, positioned: seq<PositionedNode>,
                                               draws: Draws)
    ensures var at, id := Positions(positioned), EdgeId(|edges|);
            var before, after := ArrowParts(edges, at, draws), ArrowParts(edges + [edge], at, draws);
            && ArrowParts([], at, draws) == [] && before <= after
            && (!HasEntry(positioned, edge.from) || !HasEntry(positioned, edge.to) ==> after == before)
            && (forall f, t :: LastEntry(positioned, edge.from, f) && LastEntry(positioned, edge.to, t) ==>
                  && DrawsArrow(after, |before|, edge, id, f, t)
                  && if edge.labelText.None? || edge.labelText.value == ""
                     then |after| == |before| + 1 && after[|before|].content.boundElements == []
                     else |after| == |before| + 2
                          && DrawsEdgeLabel(after, |before|, edge.labelText.value, id, f, t))
  {
    assert (edges + [edge])[..|edges|] == edges;
    forall f | LastEntry(positioned, edge.from, f)
      ensures edge.from in Positions(positioned) && Positions(positioned)[edge.from] == f
    {
      LastEntryCounts(positioned, edge.from, f);
    }
    forall t | LastEntry(positioned, edge.to, t)
      ensures edge.to in Positions(positioned) && Positions(positioned)[edge.to] == t
    {
      LastEntryCounts(positioned, edge.to, t);
    }
    var none := PositionedNode("", 0.0, 0.0, 0.0, 0.0);
    LastEntryCounts(positioned, edge.from, none);
    LastEntryCounts(positioned, edge.to, none);
  }

  /** The containers are drawn first, in the default colour, then the nodes, then the edges. */
  lemma {:induction false} SceneInThreeParts(ir: IrDocument, keys: map<string, LibraryItem>,
                                             at: map<string, PositionedNode>, draws: Draws)
    ensures exists items: seq<Item> ::
              && |items| == |ir.containers|
              && (forall c :: 0 <= c < |items| ==>
                    items[c] == Item(ir.containers[c].id, ir.containers[c].labelText, "#1e1e1e"))
              && SceneOf(ir, keys, at, draws) ==
                   RectParts(items, at, draws) + RectParts(NodeItems(ir.nodes, keys), at, draws)
                   + ArrowParts(ir.edges, at, draws)
  {
    var items := ContainerItems(ir.containers);
    assert |items| == |ir.containers|;
  }
}
