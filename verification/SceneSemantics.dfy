/** What a scene says: labels of elements and the edges between them. */
module SceneSemantics {
  import opened OrderedMaps
  import opened Scenes

  datatype SemanticElement = SemanticElement(elementId: string, kind: string, labelText: Option<string>)

  datatype SemanticEdge = SemanticEdge(from: string, to: string, labelText: Option<string>)

  function LiveScene(scene: seq<Element>): seq<Element> {
    if scene == [] then []
    else
      var before, last := LiveScene(scene[..|scene| - 1]), scene[|scene| - 1];
      if last.isDeleted then before else before + [last]
  }

  predicate IsBoundText(c: Content, id: string) {
    c.kind == "text" && c.containerId == Some(id) && c.text.Some?
  }

  /** The text of the first text element bound to `id`. */
  function BoundText(id: string, all: seq<Element>): Option<string> {
    if all == [] then None
    else if IsBoundText(all[0].content, id) then all[0].content.text
    else BoundText(id, all[1..])
  }

  /** An element's own text if it is a text, else the text bound to it. */
  function ResolveLabel(e: Element, all: seq<Element>): Option<string> {
    if e.content.kind == "text" && e.content.text.Some? then e.content.text else BoundText(e.id, all)
  }

  predicate Names(id: Option<string>, ids: set<string>) {
    id.Some? && id.value != "" && id.value in ids
  }

  /** An arrow whose two ends are bound to live elements. */
  predicate IsEdge(e: Element, ids: set<string>) {
    e.content.kind == "arrow" && Names(e.content.startBinding, ids) && Names(e.content.endBinding, ids)
  }

  function LiveIds(scene: seq<Element>): set<string> {
    set i | 0 <= i < |scene| && !scene[i].isDeleted :: scene[i].id
  }

  /** The arrows that make edges, in scene order. */
  function EdgeArrows(scene: seq<Element>, ids: set<string>): seq<Element> {
    if scene == [] then []
    else
      var before, last := EdgeArrows(scene[..|scene| - 1], ids), scene[|scene| - 1];
      if !last.isDeleted && IsEdge(last, ids) then before + [last] else before
  }

  lemma {:induction false} EdgeArrowsAreEdges(scene: seq<Element>, ids: set<string>, e: Element)
    ensures e in EdgeArrows(scene, ids) <==> e in scene && !e.isDeleted && IsEdge(e, ids)
  {
    if scene != [] {
      EdgeArrowsAreEdges(scene[..|scene| - 1], ids, e);
      assert scene == scene[..|scene| - 1] + [scene[|scene| - 1]];
    }
  }

  lemma {:induction false} EdgeArrowsOfLive(scene: seq<Element>, ids: set<string>)
    ensures EdgeArrows(LiveScene(scene), ids) == EdgeArrows(scene, ids)
  {
    if scene != [] {
      var front, last := scene[..|scene| - 1], scene[|scene| - 1];
      EdgeArrowsOfLive(front, ids);
      if !last.isDeleted {
        assert (LiveScene(front) + [last])[..|LiveScene(front)|] == LiveScene(front);
      }
    }
  }

  lemma {:induction false} LiveMembers(scene: seq<Element>, e: Element)
    ensures e in LiveScene(scene) <==> e in scene && !e.isDeleted
  {
    if scene != [] {
      LiveMembers(scene[..|scene| - 1], e);
      assert scene == scene[..|scene| - 1] + [scene[|scene| - 1]];
    }
  }

  function ElementsOf(live: seq<Element>): seq<SemanticElement> {
    seq(|live|, i requires 0 <= i < |live| =>
      SemanticElement(live[i].id, live[i].content.kind, ResolveLabel(live[i], live)))
  }

  /** The edge an arrow stands for. */
  function EdgeOf(arrow: Element, live: seq<Element>, ids: set<string>): SemanticEdge
    requires IsEdge(arrow, ids)
  {
    SemanticEdge(arrow.content.startBinding.value, arrow.content.endBinding.value, ResolveLabel(arrow, live))
  }

  method ExtractSceneSemantics(scene: seq<Element>) returns (elements: seq<SemanticElement>, edges: seq<SemanticEdge>)
    ensures elements == ElementsOf(LiveScene(scene))
    ensures var live := LiveScene(scene);
            |elements| == |live|
            && forall i :: 0 <= i < |live| ==>
                 && elements[i].elementId == live[i].id && elements[i].kind == live[i].content.kind
                 && elements[i].labelText == ResolveLabel(live[i], live)
    ensures var arrows := EdgeArrows(scene, LiveIds(scene));
            && |edges| == |arrows|
            && forall i :: 0 <= i < |arrows| ==>
                 IsEdge(arrows[i], LiveIds(scene)) && edges[i] == EdgeOf(arrows[i], LiveScene(scene), LiveIds(scene))
  {
    var liveScene := LiveScene(scene);
    var liveIds := set i | 0 <= i < |liveScene| :: liveScene[i].id;
    SameLiveIds(scene);
    elements := ElementsOf(liveScene);
    edges := [];
    for i := 0 to |liveScene|
      invariant var arrows := EdgeArrows(liveScene[..i], liveIds);
                && |edges| == |arrows|
                && forall k :: 0 <= k < |arrows| ==>
                     IsEdge(arrows[k], liveIds) && edges[k] == EdgeOf(arrows[k], liveScene, liveIds)
    {
      var element := liveScene[i];
      assert liveScene[..i + 1][..i] == liveScene[..i];
      LiveMembers(scene, element);
      assert element in liveScene;
      if element.content.kind != "arrow" { continue; }
      var fromId, toId := element.content.startBinding, element.content.endBinding;
      if fromId.None? || fromId.value == "" || toId.None? || toId.value == "" { continue; }
      if fromId.value !in liveIds || toId.value !in liveIds { continue; }
      edges := edges + [SemanticEdge(fromId.value, toId.value, ResolveLabel(element, liveScene))];
    }
    assert liveScene[..|liveScene|] == liveScene;
    EdgeArrowsOfLive(scene, liveIds);
  }

  lemma {:induction false} SameLiveIds(scene: seq<Element>)
    ensures (set i | 0 <= i < |LiveScene(scene)| :: LiveScene(scene)[i].id) == LiveIds(scene)
  {
    var live := LiveScene(scene);
    forall id
      ensures (exists i :: 0 <= i < |live| && live[i].id == id) <==> id in LiveIds(scene)
    {
      if i :| 0 <= i < |live| && live[i].id == id {
        LiveMembers(scene, live[i]);
        assert live[i] in live;
        var j :| 0 <= j < |scene| && scene[j] == live[i];
      }
      if id in LiveIds(scene) {
        var j :| 0 <= j < |scene| && !scene[j].isDeleted && scene[j].id == id;
        LiveMembers(scene, scene[j]);
        assert scene[j] in scene;
        var i :| 0 <= i < |live| && live[i] == scene[j];
        assert live[i].id == id;
      }
    }
  }

  ghost predicate IsFirstBoundText(all: seq<Element>, id: string, i: nat)
    requires i < |all|
  {
    && all[i].content.kind == "text" && all[i].content.containerId == Some(id) && all[i].content.text.Some?
    && forall j :: 0 <= j < i ==>
         !(all[j].content.kind == "text" && all[j].content.containerId == Some(id) && all[j].content.text.Some?)
  }

  /** A text is its own label; anything else has the first text bound to it, or none. */
  lemma {:induction false} LabelIsOwnOrFirstBound(e: Element, all: seq<Element>, i: nat)
    ensures e.content.kind == "text" && e.content.text.Some? ==> ResolveLabel(e, all) == e.content.text
    ensures (e.content.kind != "text" || e.content.text.None?) && i < |all| && IsFirstBoundText(all, e.id, i) ==>
              ResolveLabel(e, all) == all[i].content.text
    ensures (e.content.kind != "text" || e.content.text.None?)
            && (forall j :: 0 <= j < |all| ==> !IsFirstBoundText(all, e.id, j)) ==>
              ResolveLabel(e, all) == None
  {
    if k :| 0 <= k < |all| && IsBoundText(all[k].content, e.id) {
      FirstBoundTextIs(e.id, all, k);
    } else {
      NoBoundText(e.id, all);
    }
    if i < |all| && IsFirstBoundText(all, e.id, i) {
      FirstBoundTextIs(e.id, all, i);
    }
  }

  lemma {:induction false} NoBoundText(id: string, all: seq<Element>)
    requires forall k :: 0 <= k < |all| ==> !IsBoundText(all[k].content, id)
    ensures BoundText(id, all) == None
  {
    if all != [] {
      NoBoundText(id, all[1..]);
    }
  }

  /** From any bound text the first one can be found, and that is the one taken. */
  lemma {:induction false} FirstBoundTextIs(id: string, all: seq<Element>, k: nat)
    requires k < |all| && IsBoundText(all[k].content, id)
    ensures exists j :: 0 <= j <= k && IsFirstBoundText(all, id, j) && BoundText(id, all) == all[j].content.text
  {
    if IsBoundText(all[0].content, id) {
      assert IsFirstBoundText(all, id, 0);
    } else {
      var rest := all[1..];
      FirstBoundTextIs(id, rest, k - 1);
      var j :| 0 <= j <= k - 1 && IsFirstBoundText(rest, id, j) && BoundText(id, rest) == rest[j].content.text;
      assert forall m :: 0 <= m < |rest| ==> rest[m] == all[m + 1];
      assert IsFirstBoundText(all, id, j + 1);
    }
  }

  /** A live element goes by this id. */
  ghost predicate IsLive(scene: seq<Element>, id: string) {
    exists i :: 0 <= i < |scene| && !scene[i].isDeleted && scene[i].id == id
  }

  /** What makes an edge: an arrow bound, at both ends, to ids of live elements other than the empty id. */
  lemma EdgesJoinLiveElements(scene: seq<Element>, e: Element)
    ensures IsEdge(e, LiveIds(scene)) <==>
            && e.content.kind == "arrow"
            && e.content.startBinding.Some? && e.content.startBinding != Some("")
            && e.content.endBinding.Some? && e.content.endBinding != Some("")
            && IsLive(scene, e.content.startBinding.value) && IsLive(scene, e.content.endBinding.value)
  {
    forall id
      ensures id in LiveIds(scene) <==> IsLive(scene, id)
    {
    }
  }
}
