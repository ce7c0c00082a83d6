/** From a scene back to the intermediate representation. */
module Decompile {
  import opened OrderedMaps
  import opened Scenes
  import opened SceneSemantics
  import opened Ir

  // ---------------------------------------------------------------------------------------------
  // Metadata
  // ---------------------------------------------------------------------------------------------

  datatype Json = JsonString(text: string) | JsonObject(fields: map<string, Json>) | JsonOther

  datatype MetadataRow = MetadataRow(elementId: string, json: Json)

  const NODE_SEMANTIC_KEYS: set<string> :=
    {"technology", "provider", "environment", "dataClassification", "criticality"}

  /** The fields of the first row for the element, if it holds an object. */
  function FieldsFor(id: string, metadata: seq<MetadataRow>): map<string, Json> {
    if metadata == [] then map[]
    else if metadata[0].elementId == id then
      if metadata[0].json.JsonObject? then metadata[0].json.fields else map[]
    else FieldsFor(id, metadata[1..])
  }

  function StringField(id: string, key: string, metadata: seq<MetadataRow>): Option<string> {
    var fields := FieldsFor(id, metadata);
    if key in fields && fields[key].JsonString? then Some(fields[key].text) else None
  }

  function NodeSemanticsFor(id: string, metadata: seq<MetadataRow>): Option<map<string, string>> {
    var found := map k | k in NODE_SEMANTIC_KEYS && StringField(id, k, metadata).Some?
                 :: StringField(id, k, metadata).value;
    if found == map[] then None else Some(found)
  }

  function EdgeModeFor(id: string, metadata: seq<MetadataRow>): EdgeMode {
    match StringField(id, "mode", metadata)
    case Some("sync") => Sync
    case Some("async") => Async
    case Some("data") => Data
    case _ => Dependency
  }

  // ---------------------------------------------------------------------------------------------
  // Containment
  // ---------------------------------------------------------------------------------------------

  const CONTAINMENT_MARGIN := 1.0

  datatype Box = Box(id: string, labelText: string, x: real, y: real, width: real, height: real)

  predicate BoxContains(a: Box, b: Box) {
    && b.x >= a.x - CONTAINMENT_MARGIN
    && b.y >= a.y - CONTAINMENT_MARGIN
    && b.x + b.width <= a.x + a.width + CONTAINMENT_MARGIN
    && b.y + b.height <= a.y + a.height + CONTAINMENT_MARGIN
  }

  function Area(b: Box): real {
    b.width * b.height
  }

  predicate Encloses(other: Box, c: Box) {
    other.id != c.id && BoxContains(other, c)
  }

  /** The first of the smallest boxes around `c`. */
  function BestParent(boxes: seq<Box>, c: Box): Option<Box> {
    if boxes == [] then None
    else
      var best, other := BestParent(boxes[..|boxes| - 1], c), boxes[|boxes| - 1];
      if Encloses(other, c) && (best.None? || Area(other) < Area(best.value)) then Some(other) else best
  }

  function ParentsOf(candidates: seq<Box>, boxes: seq<Box>): RawMap<string, string> {
    if candidates == [] then OrderedMap([], map[])
    else
      var before, c := ParentsOf(candidates[..|candidates| - 1], boxes), candidates[|candidates| - 1];
      match BestParent(boxes, c)
      case None => before
      case Some(best) => before.Put(c.id, best.id)
  }

  method InferDirectParents(boxes: seq<Box>) returns (parentOf: RawMap<string, string>)
    ensures parentOf == ParentsOf(boxes, boxes)
  {
    parentOf := OrderedMap([], map[]);
    for i := 0 to |boxes|
      invariant parentOf == ParentsOf(boxes[..i], boxes)
    {
      var candidate := boxes[i];
      assert boxes[..i + 1][..i] == boxes[..i];
      var best: Option<Box> := None;
      for j := 0 to |boxes|
        invariant best == BestParent(boxes[..j], candidate)
      {
        var other := boxes[j];
        assert boxes[..j + 1][..j] == boxes[..j];
        if other.id == candidate.id { continue; }
        if !BoxContains(other, candidate) { continue; }
        if best.None? || Area(other) < Area(best.value) {
          best := Some(other);
        }
      }
      assert boxes[..|boxes|] == boxes;
      if best.Some? {
        parentOf := parentOf.Put(candidate.id, best.value.id);
      }
    }
    assert boxes[..|boxes|] == boxes;
  }

  // ---------------------------------------------------------------------------------------------
  // The document
  // ---------------------------------------------------------------------------------------------

  function SemanticById(elements: seq<SemanticElement>): map<string, SemanticElement> {
    if elements == [] then map[]
    else
      var last := elements[|elements| - 1];
      SemanticById(elements[..|elements| - 1])[last.elementId := last]
  }

  /** The box of an element that can be a node or a container: a live rectangle with a label. */
  function BoxOf(e: Element, byId: map<string, SemanticElement>): Option<Box> {
    if e.isDeleted || e.content.kind != "rectangle" || e.id !in byId then None
    else
      match byId[e.id].labelText
      case None => None
      case Some(text) =>
        if text == "" then None else Some(Box(e.id, text, e.x, e.y, e.content.width, e.content.height))
  }

  function RectBoxes(scene: seq<Element>, byId: map<string, SemanticElement>): seq<Box> {
    if scene == [] then []
    else
      var before := RectBoxes(scene[..|scene| - 1], byId);
      match BoxOf(scene[|scene| - 1], byId)
      case None => before
      case Some(box) => before + [box]
  }

  /** The keys that `parentOf` gives the parent `p`, in order. */
  function ChildrenIn(parentOf: RawMap<string, string>, keys: seq<string>, p: string): seq<string> {
    if keys == [] then []
    else
      var before, last := ChildrenIn(parentOf, keys[..|keys| - 1], p), keys[|keys| - 1];
      if parentOf.Get(last) == Some(p) then before + [last] else before
  }

  function ContainersFrom(boxes: seq<Box>, parentOf: RawMap<string, string>): seq<IrContainer> {
    if boxes == [] then []
    else
      var before, box := ContainersFrom(boxes[..|boxes| - 1], parentOf), boxes[|boxes| - 1];
      if box.id in parentOf.at.Values
      then before + [IrContainer(box.id, box.labelText, Group, ChildrenIn(parentOf, parentOf.order, box.id))]
      else before
  }

  function NodesFrom(boxes: seq<Box>, parentOf: RawMap<string, string>, metadata: seq<MetadataRow>): seq<IrNode> {
    if boxes == [] then []
    else
      var before, box := NodesFrom(boxes[..|boxes| - 1], parentOf, metadata), boxes[|boxes| - 1];
      if box.id in parentOf.at.Values then before
      else before + [NodeFrom(box, metadata)]
  }

  function NodeFrom(box: Box, metadata: seq<MetadataRow>): IrNode {
    IrNode(box.id, box.labelText, StringField(box.id, "componentKey", metadata), NodeSemanticsFor(box.id, metadata))
  }

  function EdgeFrom(edge: SemanticEdge, arrow: Element, metadata: seq<MetadataRow>): IrEdge {
    var twoWay := arrow.content.startArrowhead.Some? && arrow.content.startArrowhead.value != "";
    IrEdge(edge.from, edge.to, EdgeModeFor(arrow.id, metadata), StringField(arrow.id, "protocol", metadata),
           if twoWay then Bidirectional else Oneway, edge.labelText)
  }

  function EdgesFrom(scene: seq<Element>, metadata: seq<MetadataRow>): seq<IrEdge> {
    var ids, live := LiveIds(scene), LiveScene(scene);
    var arrows := EdgeArrows(scene, ids);
    seq(|arrows|, i requires 0 <= i < |arrows| =>
      EdgeArrowsAreEdges(scene, ids, arrows[i]);
      EdgeFrom(EdgeOf(arrows[i], live, ids), arrows[i], metadata))
  }

  function ById(scene: seq<Element>): map<string, SemanticElement> {
    SemanticById(ElementsOf(LiveScene(scene)))
  }

  function Decompiled(scene: seq<Element>, metadata: seq<MetadataRow>): IrDocument {
    var boxes := RectBoxes(scene, ById(scene));
    var parentOf := ParentsOf(boxes, boxes);
    IrDocument(NodesFrom(boxes, parentOf, metadata), ContainersFrom(boxes, parentOf), EdgesFrom(scene, metadata))
  }

  lemma {:induction false} SemanticByIdKeys(elements: seq<SemanticElement>, id: string)
    ensures id in SemanticById(elements) <==> exists i :: 0 <= i < |elements| && elements[i].elementId == id
  {
    if elements != [] {
      var n := |elements| - 1;
      SemanticByIdKeys(elements[..n], id);
      if i :| 0 <= i < |elements| && elements[i].elementId == id {
        if i < n {
          assert elements[..n][i].elementId == id;
        }
      }
    }
  }

  /** The elements the semantics know are the live ones. */
  lemma ByIdKnowsLive(scene: seq<Element>, id: string)
    ensures id in ById(scene) <==> id in LiveIds(scene)
  {
    var live := LiveScene(scene);
    var elements := ElementsOf(live);
    SemanticByIdKeys(elements, id);
    SameLiveIds(scene);
    if id in LiveIds(scene) {
      var i :| 0 <= i < |live| && live[i].id == id;
      assert elements[i].elementId == id;
    }
    if i :| 0 <= i < |elements| && elements[i].elementId == id {
      assert live[i].id == id;
    }
  }

  /**
   * The arrows the decompiler pairs with the semantic edges. It filters the raw scene on its own,
   * and still gets, position by position, the very arrows the edges were made from.
   */
  method LiveArrows(scene: seq<Element>, semanticById: map<string, SemanticElement>) returns (arrows: seq<Element>)
    requires semanticById == ById(scene)
    ensures arrows == EdgeArrows(scene, LiveIds(scene))
  {
    arrows := [];
    for i := 0 to |scene|
      invariant arrows == EdgeArrows(scene[..i], LiveIds(scene))
    {
      var raw := scene[i];
      assert scene[..i + 1][..i] == scene[..i];
      if raw.isDeleted { continue; }
      if raw.content.kind != "arrow" { continue; }
      var fromId, toId := raw.content.startBinding, raw.content.endBinding;
      if fromId.None? || fromId.value == "" || toId.None? || toId.value == "" { continue; }
      ByIdKnowsLive(scene, fromId.value);
      ByIdKnowsLive(scene, toId.value);
      if fromId.value !in semanticById || toId.value !in semanticById { continue; }
      arrows := arrows + [raw];
    }
    assert scene[..|scene|] == scene;
  }

  method ChildrenByParent(parentOf: RawMap<string, string>) returns (children: map<string, seq<string>>)
    requires parentOf.Valid()
    ensures forall p :: (if p in children then children[p] else []) == ChildrenIn(parentOf, parentOf.order, p)
  {
    children := map[];
    var keys := parentOf.order;
    for i := 0 to |keys|
      invariant forall p :: (if p in children then children[p] else []) == ChildrenIn(parentOf, keys[..i], p)
    {
      assert keys[..i + 1][..i] == keys[..i];
      assert keys[i] in keys;
      var childId, parentId := keys[i], parentOf.at[keys[i]];
      var siblings := if parentId in children then children[parentId] else [];
      children := children[parentId := siblings + [childId]];
    }
    assert keys[..|keys|] == keys;
  }

  method DecompileScene(scene: seq<Element>, metadata: seq<MetadataRow>) returns (doc: IrDocument)
    ensures doc == Decompiled(scene, metadata)
  {
    var elements, semanticEdges := ExtractSceneSemantics(scene);
    var semanticById := SemanticById(elements);
    var rectBoxes: seq<Box> := [];
    for i := 0 to |scene|
      invariant rectBoxes == RectBoxes(scene[..i], semanticById)
    {
      var raw := scene[i];
      assert scene[..i + 1][..i] == scene[..i];
      if raw.isDeleted { continue; }
      if raw.content.kind != "rectangle" { continue; }
      var text := if raw.id in semanticById then semanticById[raw.id].labelText else None;
      if text.None? || text.value == "" { continue; }
      rectBoxes := rectBoxes + [Box(raw.id, text.value, raw.x, raw.y, raw.content.width, raw.content.height)];
    }
    assert scene[..|scene|] == scene;
    var parentOf := InferDirectParents(rectBoxes);
    ParentsAreValid(rectBoxes, rectBoxes);
    var childrenByParent := ChildrenByParent(parentOf);
    var containers := Containers(rectBoxes, parentOf, childrenByParent);
    var nodes := NodesFrom(rectBoxes, parentOf, metadata);
    var liveArrows := LiveArrows(scene, semanticById);
    var edges := seq(|semanticEdges|, i requires 0 <= i < |semanticEdges| =>
      EdgeFrom(semanticEdges[i], liveArrows[i], metadata));
    assert edges == EdgesFrom(scene, metadata);
    doc := IrDocument(nodes, containers, edges);
  }

  method Containers(boxes: seq<Box>, parentOf: RawMap<string, string>, children: map<string, seq<string>>)
    returns (containers: seq<IrContainer>)
    requires forall p :: (if p in children then children[p] else []) == ChildrenIn(parentOf, parentOf.order, p)
    ensures containers == ContainersFrom(boxes, parentOf)
  {
    containers := [];
    for i := 0 to |boxes|
      invariant containers == ContainersFrom(boxes[..i], parentOf)
    {
      var box := boxes[i];
      assert boxes[..i + 1][..i] == boxes[..i];
      if box.id in parentOf.at.Values {
        containers := containers +
          [IrContainer(box.id, box.labelText, Group, if box.id in children then children[box.id] else [])];
      }
    }
    assert boxes[..|boxes|] == boxes;
  }

  lemma {:induction false} ParentsAreValid(candidates: seq<Box>, boxes: seq<Box>)
    ensures ParentsOf(candidates, boxes).Valid()
  {
    if candidates != [] {
      var front, c := candidates[..|candidates| - 1], candidates[|candidates| - 1];
      ParentsAreValid(front, boxes);
      if BestParent(boxes, c).Some? {
        ParentsOf(front, boxes).PutKeepsValid(c.id, BestParent(boxes, c).value.id);
      }
    }
  }

  // ---------------------------------------------------------------------------------------------
  // What the metadata say
  // ---------------------------------------------------------------------------------------------

  ghost predicate HasRow(metadata: seq<MetadataRow>, id: string) {
    exists i :: 0 <= i < |metadata| && metadata[i].elementId == id
  }

  /** Of several rows for an element the first counts; without one, or with no object in it, there are no fields. */
  lemma {:induction false} FirstRowCounts(id: string, metadata: seq<MetadataRow>, i: nat)
    ensures !HasRow(metadata, id) ==> FieldsFor(id, metadata) == map[]
    ensures i < |metadata| && metadata[i].elementId == id
            && (forall j :: 0 <= j < i ==> metadata[j].elementId != id) ==>
              FieldsFor(id, metadata) ==
              match metadata[i].json case JsonObject(fields) => fields case _ => map[]
  {
    if metadata != [] && metadata[0].elementId != id {
      var rest := metadata[1..];
      assert forall j :: 0 <= j < |rest| ==> rest[j] == metadata[j + 1];
      FirstRowCounts(id, rest, if i > 0 then i - 1 else 0);
      if HasRow(rest, id) {
        var k :| 0 <= k < |rest| && rest[k].elementId == id;
        assert metadata[k + 1].elementId == id;
      }
    } else if metadata != [] {
      assert HasRow(metadata, id);
    }
  }

  /** Only texts count as component keys, protocols and the like. */
  lemma {:induction false} OnlyTextsAreRead(id: string, key: string, metadata: seq<MetadataRow>, text: string)
    ensures StringField(id, key, metadata) == Some(text) <==>
            key in FieldsFor(id, metadata) && FieldsFor(id, metadata)[key] == JsonString(text)
  {
  }

  /** The mode is the one the metadata name; a missing or unknown one is a dependency. */
  lemma {:induction false} ModeIsTheOneNamed(id: string, metadata: seq<MetadataRow>)
    ensures var fields, mode := FieldsFor(id, metadata), EdgeModeFor(id, metadata);
            && (mode == Sync <==> "mode" in fields && fields["mode"] == JsonString("sync"))
            && (mode == Async <==> "mode" in fields && fields["mode"] == JsonString("async"))
            && (mode == Data <==> "mode" in fields && fields["mode"] == JsonString("data"))
  {
    var fields := FieldsFor(id, metadata);
    if "mode" in fields && fields["mode"].JsonString? {
      assert StringField(id, "mode", metadata) == Some(fields["mode"].text);
    }
  }

  /** Semantics hold the texts under the five known keys, and there are none if no such text is there. */
  lemma {:induction false} SemanticsAreTheKnownTexts(id: string, metadata: seq<MetadataRow>, key: string, text: string)
    ensures var fields, found := FieldsFor(id, metadata), NodeSemanticsFor(id, metadata);
            && found != Some(map[])
            && (found.Some? && key in found.value && found.value[key] == text <==>
                  key in fields && fields[key] == JsonString(text)
                  && (key == "technology" || key == "provider" || key == "environment"
                      || key == "dataClassification" || key == "criticality"))
  {
    var found := map k | k in NODE_SEMANTIC_KEYS && StringField(id, k, metadata).Some?
                 :: StringField(id, k, metadata).value;
    if key in NODE_SEMANTIC_KEYS && StringField(id, key, metadata) == Some(text) {
      assert key in found && found[key] == text;
    }
  }

  /**
   * Each edge is read off its own arrow: the ends are what it is bound to, it goes both ways if it
   * has a head at its start, its label is the arrow's, mode and protocol are those recorded for
   * the arrow's id.
   */
  lemma {:induction false} EdgesAreReadOffTheirArrows(scene: seq<Element>, metadata: seq<MetadataRow>, k: nat)
    requires k < |EdgeArrows(scene, LiveIds(scene))|
    ensures var doc, arrow := Decompiled(scene, metadata), EdgeArrows(scene, LiveIds(scene))[k];
            && |doc.edges| == |EdgeArrows(scene, LiveIds(scene))|
            && arrow.content.startBinding == Some(doc.edges[k].from)
            && arrow.content.endBinding == Some(doc.edges[k].to)
            && (doc.edges[k].direction == Bidirectional <==>
                  arrow.content.startArrowhead.Some? && arrow.content.startArrowhead != Some(""))
            && doc.edges[k].labelText == ResolveLabel(arrow, LiveScene(scene))
            && doc.edges[k].mode == EdgeModeFor(arrow.id, metadata)
            && doc.edges[k].protocol == StringField(arrow.id, "protocol", metadata)
  {
    EdgeArrowsAreEdges(scene, LiveIds(scene), EdgeArrows(scene, LiveIds(scene))[k]);
  }

  // ---------------------------------------------------------------------------------------------
  // What boxes say
  // ---------------------------------------------------------------------------------------------

  ghost predicate OnBox(b: Box, x: real, y: real) {
    b.x <= x <= b.x + b.width && b.y <= y <= b.y + b.height
  }

  ghost predicate WithinAUnitOf(a: Box, x: real, y: real) {
    a.x - 1.0 <= x <= a.x + a.width + 1.0 && a.y - 1.0 <= y <= a.y + a.height + 1.0
  }

  /** One box encloses another with a different id if no point of that sticks out by more than one unit. */
  lemma EnclosesMeans(a: Box, b: Box)
    requires b.width >= 0.0 && b.height >= 0.0
    ensures Encloses(a, b) <==> a.id != b.id && forall x, y :: OnBox(b, x, y) ==> WithinAUnitOf(a, x, y)
  {
    if forall x, y :: OnBox(b, x, y) ==> WithinAUnitOf(a, x, y) {
      assert OnBox(b, b.x, b.y) && OnBox(b, b.x + b.width, b.y + b.height);
      assert WithinAUnitOf(a, b.x, b.y) && WithinAUnitOf(a, b.x + b.width, b.y + b.height);
    }
  }

  /** The boxes are the live rectangles with a label, in scene order, in their places. */
  lemma {:induction false} BoxesInTurn(scene: seq<Element>, e: Element, byId: map<string, SemanticElement>)
    ensures RectBoxes([], byId) == []
    ensures RectBoxes(scene + [e], byId) ==
            RectBoxes(scene, byId) +
            if !e.isDeleted && e.content.kind == "rectangle" && e.id in byId && byId[e.id].labelText.Some?
               && byId[e.id].labelText != Some("")
            then [Box(e.id, byId[e.id].labelText.value, e.x, e.y, e.content.width, e.content.height)]
            else []
  {
    assert (scene + [e])[..|scene|] == scene;
  }
}
