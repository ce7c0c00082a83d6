/** Scene elements and scenes indexed by element id. */
module Scenes {
  import opened Lists
  import opened OrderedMaps

  /**
   * What an element shows, apart from where it is. Every field this model never looks into
   * (colours, seeds, points, group ids and so on) is kept together, unread, in `rest`.
   */
  datatype Content = Content(
    kind: string,
    width: real, height: real,
    text: Option<string>,
    containerId: Option<string>,
    startBinding: Option<string>,
    endBinding: Option<string>,
    startArrowhead: Option<string>,
    boundElements: seq<string>,
    rest: string)

  /** One element of a scene. */
  datatype Element = Element(
    id: string,
    version: int,
    versionNonce: int,
    isDeleted: bool,
    updated: int,
    x: real, y: real,
    content: Content)

  /** A scene indexed by element id: every element sits under its own id. */
  type SceneIndex = m: RawMap<string, Element> |
    m.Valid() && (forall k :: k in m.at ==> m.at[k].id == k)
    witness OrderedMap([], map[])

  function Put(m: SceneIndex, e: Element): SceneIndex {
    m.PutKeepsValid(e.id, e);
    m.Put(e.id, e)
  }

  /** `buildSceneIndex`: for a repeated id the last element wins, in the place of the first. */
  function Index(elements: seq<Element>): SceneIndex {
    if elements == [] then OrderedMap([], map[])
    else Put(Index(elements[..|elements| - 1]), elements[|elements| - 1])
  }

  ghost predicate UniqueIds(elements: seq<Element>) {
    forall i, j :: 0 <= i < j < |elements| ==> elements[i].id != elements[j].id
  }

  ghost predicate Contains(elements: seq<Element>, id: string) {
    exists i :: 0 <= i < |elements| && elements[i].id == id
  }

  /** What a reader of the scene sees: the elements that are not tombstones, by id. */
  function Live(m: SceneIndex): map<string, Element> {
    map k | k in m.at && !m.at[k].isDeleted :: m.at[k]
  }

  lemma {:induction false} IndexKeys(elements: seq<Element>, id: string)
    ensures id in Index(elements).at <==> Contains(elements, id)
    ensures id in Index(elements).at ==> Index(elements).at[id] in elements
  {
    if elements != [] {
      var front, last := elements[..|elements| - 1], elements[|elements| - 1];
      IndexKeys(front, id);
      assert elements == front + [last];
      if Contains(elements, id) && last.id != id {
        var i :| 0 <= i < |elements| && elements[i].id == id;
        assert front[i].id == id;
      }
      if Contains(front, id) {
        var i :| 0 <= i < |front| && front[i].id == id;
        assert elements[i].id == id;
      }
      if last.id == id {
        assert elements[|elements| - 1].id == id;
      }
    }
  }

  lemma PutNew(m: SceneIndex, e: Element)
    requires e.id !in m.at
    ensures Put(m, e).order == m.order + [e.id]
    ensures Put(m, e).Values() == m.Values() + [e]
  {
    var p := Put(m, e);
    assert p.order == m.order + [e.id];
    forall i | 0 <= i < |m.order|
      ensures p.Values()[i] == m.Values()[i]
    {
      assert p.order[i] == m.order[i];
      assert m.order[i] in m.order;
    }
  }

  function Ids(elements: seq<Element>): seq<string> {
    seq(|elements|, i requires 0 <= i < |elements| => elements[i].id)
  }

  lemma LastIsNew(elements: seq<Element>)
    requires UniqueIds(elements) && elements != []
    ensures elements[|elements| - 1].id !in Index(elements[..|elements| - 1]).at
  {
    IndexKeys(elements[..|elements| - 1], elements[|elements| - 1].id);
  }

  /** With unique ids the index lists the array itself, in the same order. */
  lemma {:induction false} IndexOfUnique(elements: seq<Element>)
    requires UniqueIds(elements)
    ensures Index(elements).order == Ids(elements)
    ensures Index(elements).Values() == elements
  {
    if elements != [] {
      var front, last := elements[..|elements| - 1], elements[|elements| - 1];
      LastIsNew(elements);
      IndexOfUnique(front);
      PutNew(Index(front), last);
      assert elements == front + [last];
      assert Ids(elements) == Ids(front) + [last.id];
    }
  }

  lemma {:induction false} UniqueAt(elements: seq<Element>, i: nat)
    requires UniqueIds(elements) && i < |elements|
    ensures elements[i].id in Index(elements).at && Index(elements).at[elements[i].id] == elements[i]
  {
    IndexOfUnique(elements);
    assert Index(elements).Values()[i] == elements[i];
  }

  /** Indexing the values of an index gives the index back. */
  lemma IndexOfValues(m: SceneIndex)
    ensures UniqueIds(m.Values())
    ensures Index(m.Values()) == m
  {
    var vs := m.Values();
    assert forall i :: 0 <= i < |vs| ==> vs[i].id == m.order[i];
    IndexOfUnique(vs);
    assert Index(vs).order == Ids(vs) == m.order;
    forall k
      ensures k in Index(vs).at <==> k in m.at
      ensures k in m.at ==> Index(vs).at[k] == m.at[k]
    {
      assert k in Index(vs).at <==> k in Index(vs).order;
      if k in m.at {
        var i :| 0 <= i < |m.order| && m.order[i] == k;
        UniqueAt(vs, i);
      }
    }
    assert Index(vs).at == m.at;
  }

  /** For a repeated id the last element counts. */
  lemma {:induction false} LastElementCounts(elements: seq<Element>, i: nat)
    requires i < |elements| && forall j :: i < j < |elements| ==> elements[j].id != elements[i].id
    ensures elements[i].id in Index(elements).at && Index(elements).at[elements[i].id] == elements[i]
  {
    var n := |elements| - 1;
    if i < n {
      LastElementCounts(elements[..n], i);
    }
  }

  /** The element at `i` is the first with its id. */
  ghost predicate FirstOfItsId(elements: seq<Element>, i: nat)
    requires i < |elements|
  {
    forall j :: 0 <= j < i ==> elements[j].id != elements[i].id
  }

  lemma {:induction false} OrderGrows(front: seq<Element>, last: Element)
    ensures Index(front + [last]).order == Index(front).order + if Contains(front, last.id) then [] else [last.id]
  {
    assert (front + [last])[..|front|] == front;
    IndexKeys(front, last.id);
  }

  /** Ids are listed in the order in which they first occur. */
  lemma {:induction false} FirstPlaceCounts(elements: seq<Element>, i: nat, j: nat)
    requires i < j < |elements| && FirstOfItsId(elements, i) && FirstOfItsId(elements, j)
    ensures Precedes(Index(elements).order, elements[i].id, elements[j].id)
  {
    var n := |elements| - 1;
    var front, last := elements[..n], elements[n];
    var order := Index(front).order;
    assert elements == front + [last];
    OrderGrows(front, last);
    if j < n {
      FirstPlaceCounts(front, i, j);
      PrecedesStill(order, if Contains(front, last.id) then [] else [last.id], elements[i].id, elements[j].id);
    } else {
      LastIsFirst(elements);
      IndexKeys(front, elements[i].id);
      IndexKeys(front, last.id);
      assert front[i].id == elements[i].id;
      assert elements[i].id in order && last.id !in order;
      PrecedesNew(order, elements[i].id, last.id);
    }
  }

  lemma LastIsFirst(elements: seq<Element>)
    requires elements != [] && FirstOfItsId(elements, |elements| - 1)
    ensures !Contains(elements[..|elements| - 1], elements[|elements| - 1].id)
  {
  }
}
