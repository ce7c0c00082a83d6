/** What changed between two scenes, id by id, as a person would put it. */
module StructuralDiff {
  import opened Lists
  import opened OrderedMaps
  import opened Scenes
  import opened Merge
  import opened Reconcile

  /**
   * The content signature: two elements have the same one exactly when they agree on every field
   * but version, nonce, update time and position.
   */
  function Signature(e: Element): Element {
    e.(version := 0, versionNonce := 0, updated := 0, x := 0.0, y := 0.0)
  }

  datatype Change = Added | Removed | Moved | Modified | Unchanged

  function Classify(from: Option<Element>, to: Option<Element>): Change {
    var fromPresent := from.Some? && !from.value.isDeleted;
    var toPresent := to.Some? && !to.value.isDeleted;
    if toPresent && !fromPresent then Added
    else if !toPresent && fromPresent then Removed
    else if !fromPresent || !toPresent then Unchanged
    else if Signature(from.value) != Signature(to.value) then Modified
    else if from.value.x != to.value.x || from.value.y != to.value.y then Moved
    else Unchanged
  }

  function ChangeAt(from: SceneIndex, to: SceneIndex, id: string): Change {
    Classify(from.Get(id), to.Get(id))
  }

  /** Every id of either scene once: those of `from` in their order, then the new ones of `to`. */
  function AllIds(from: SceneIndex, to: SceneIndex): seq<string> {
    from.order + Missing(from, to.order)
  }

  function Missing(from: SceneIndex, ids: seq<string>): seq<string> {
    if ids == [] then []
    else
      var before, last := Missing(from, ids[..|ids| - 1]), ids[|ids| - 1];
      if last in from.at then before else before + [last]
  }

  /** Those of the first `n` ids that underwent `change`, in order. */
  function Picked(from: SceneIndex, to: SceneIndex, ids: seq<string>, n: nat, change: Change): seq<string>
    requires n <= |ids|
  {
    if n == 0 then []
    else
      var before := Picked(from, to, ids, n - 1, change);
      if ChangeAt(from, to, ids[n - 1]) == change then before + [ids[n - 1]] else before
  }

  datatype Report = Report(added: seq<string>, removed: seq<string>, moved: seq<string>, modified: seq<string>)

  function ReportOf(from: SceneIndex, to: SceneIndex): Report {
    var ids := AllIds(from, to);
    ReportOn(from, to, ids, |ids|)
  }

  function ReportOn(from: SceneIndex, to: SceneIndex, ids: seq<string>, n: nat): Report
    requires n <= |ids|
  {
    Report(Picked(from, to, ids, n, Added), Picked(from, to, ids, n, Removed),
           Picked(from, to, ids, n, Moved), Picked(from, to, ids, n, Modified))
  }

  method Diff(from: seq<Element>, to: seq<Element>) returns (report: Report)
    ensures report == ReportOf(Index(from), Index(to))
  {
    report := DiffIndexes(Index(from), Index(to));
  }

  method DiffIndexes(fromIndex: SceneIndex, toIndex: SceneIndex) returns (report: Report)
    ensures report == ReportOf(fromIndex, toIndex)
  {
    var added: seq<string>, removed: seq<string> := [], [];
    var moved: seq<string>, modified: seq<string> := [], [];
    var allIds := AllIds(fromIndex, toIndex);
    for i := 0 to |allIds|
      invariant Report(added, removed, moved, modified) == ReportOn(fromIndex, toIndex, allIds, i)
    {
      var id := allIds[i];
      var fromEl, toEl := fromIndex.Get(id), toIndex.Get(id);
      var fromPresent := fromEl.Some? && !fromEl.value.isDeleted;
      var toPresent := toEl.Some? && !toEl.value.isDeleted;
      if toPresent && !fromPresent {
        added := added + [id];
        continue;
      }
      if !toPresent && fromPresent {
        removed := removed + [id];
        continue;
      }
      if !fromPresent || !toPresent { continue; }
      if Signature(fromEl.value) != Signature(toEl.value) {
        modified := modified + [id];
      } else if fromEl.value.x != toEl.value.x || fromEl.value.y != toEl.value.y {
        moved := moved + [id];
      }
    }
    report := Report(added, removed, moved, modified);
  }

  lemma {:induction false} PickedMembers(from: SceneIndex, to: SceneIndex, ids: seq<string>, n: nat, change: Change,
                                         id: string)
    requires n <= |ids|
    ensures id in Picked(from, to, ids, n, change) <==> id in ids[..n] && ChangeAt(from, to, id) == change
  {
    if n > 0 {
      PickedMembers(from, to, ids, n - 1, change, id);
      assert ids[..n] == ids[..n - 1] + [ids[n - 1]];
    }
  }

  lemma {:induction false} MissingMembers(from: SceneIndex, ids: seq<string>, id: string)
    ensures id in Missing(from, ids) <==> id in ids && id !in from.at
  {
    if ids != [] {
      MissingMembers(from, ids[..|ids| - 1], id);
      assert ids == ids[..|ids| - 1] + [ids[|ids| - 1]];
    }
  }

  lemma AllIdsMembers(from: SceneIndex, to: SceneIndex, id: string)
    ensures id in AllIds(from, to) <==> id in from.at || id in to.at
  {
    MissingMembers(from, to.order, id);
  }

  function ListFor(r: Report, change: Change): seq<string> {
    match change
    case Added => r.added
    case Removed => r.removed
    case Moved => r.moved
    case Modified => r.modified
    case Unchanged => []
  }

  /** Every id is listed under the change it underwent and under no other. */
  lemma ListedUnderItsChangeOnly(from: SceneIndex, to: SceneIndex, id: string, change: Change)
    ensures id in ListFor(ReportOf(from, to), change) <==> change != Unchanged && ChangeAt(from, to, id) == change
  {
    AllIdsMembers(from, to, id);
    if change != Unchanged {
      var ids := AllIds(from, to);
      PickedMembers(from, to, ids, |ids|, change, id);
      assert ids[..|ids|] == ids;
    }
  }

  /**
   * What the report says, read off the two scenes: an id is added when only the later scene shows
   * it and removed when only the earlier one does; where both do, it is modified when anything but
   * its place, version, nonce or update time differs, and moved when just its place does.
   */
  lemma ReportSaysWhatChanged(from: SceneIndex, to: SceneIndex, id: string)
    ensures var r, a, b := ReportOf(from, to), Live(from), Live(to);
            && (id in r.added <==> id in b && id !in a)
            && (id in r.removed <==> id in a && id !in b)
            && (id in r.modified <==> id in a && id in b && a[id].content != b[id].content)
            && (id in r.moved <==> id in a && id in b && a[id].content == b[id].content
                                   && (a[id].x != b[id].x || a[id].y != b[id].y))
  {
    ListedUnderItsChangeOnly(from, to, id, Added);
    ListedUnderItsChangeOnly(from, to, id, Removed);
    ListedUnderItsChangeOnly(from, to, id, Moved);
    ListedUnderItsChangeOnly(from, to, id, Modified);
  }

  lemma {:induction false} PickedInOrder(from: SceneIndex, to: SceneIndex, ids: seq<string>, n: nat, change: Change)
    requires Distinct(ids) && n <= |ids|
    ensures InOrderOf(Picked(from, to, ids, n, change), ids[..n])
  {
    if n > 0 {
      var before := Picked(from, to, ids, n - 1, change);
      PickedInOrder(from, to, ids, n - 1, change);
      assert ids[..n] == ids[..n - 1] + [ids[n - 1]];
      InOrderStill(before, ids[..n - 1], [ids[n - 1]]);
      forall id | id in before
        ensures id in ids[..n - 1]
      {
        PickedMembers(from, to, ids, n - 1, change, id);
      }
      assert ids[n - 1] !in ids[..n - 1];
      InOrderNew(before, ids[..n - 1], ids[n - 1]);
    }
  }

  lemma {:induction false} MissingInOrder(from: SceneIndex, ids: seq<string>)
    requires Distinct(ids)
    ensures InOrderOf(Missing(from, ids), ids)
  {
    if ids != [] {
      var front, last := ids[..|ids| - 1], ids[|ids| - 1];
      assert ids == front + [last];
      MissingInOrder(from, front);
      InOrderStill(Missing(from, front), front, [last]);
      forall id | id in Missing(from, front)
        ensures id in front
      {
        MissingMembers(from, front, id);
      }
      InOrderNew(Missing(from, front), front, last);
    }
  }

  /** Each list follows the order of the earlier scene, then of the later one. */
  lemma ReportInOrder(from: SceneIndex, to: SceneIndex, change: Change)
    ensures InOrderOf(ListFor(ReportOf(from, to), change), from.order + to.order)
  {
    var ids := AllIds(from, to);
    AllIdsAreDistinct(from, to);
    MissingInOrder(from, to.order);
    forall id | id in Missing(from, to.order)
      ensures id in to.order && id !in from.order
    {
      MissingMembers(from, to.order, id);
    }
    assert InOrderOf(from.order, from.order) by {
      DistinctIsInOrder(from.order);
    }
    InOrderJoin(from.order, Missing(from, to.order), from.order, to.order);
    if change != Unchanged {
      PickedInOrder(from, to, ids, |ids|, change);
      assert ids[..|ids|] == ids;
      InOrderThrough(ListFor(ReportOf(from, to), change), ids, from.order + to.order);
    }
  }

  lemma {:induction false} MissingIsDistinct(from: SceneIndex, ids: seq<string>)
    requires Distinct(ids)
    ensures Distinct(Missing(from, ids))
  {
    if ids != [] {
      var front, last := ids[..|ids| - 1], ids[|ids| - 1];
      MissingIsDistinct(from, front);
      MissingMembers(from, front, last);
      assert last !in front;
    }
  }

  lemma {:induction false} PickedIsDistinct(from: SceneIndex, to: SceneIndex, ids: seq<string>, n: nat, change: Change)
    requires Distinct(ids) && n <= |ids|
    ensures Distinct(Picked(from, to, ids, n, change))
  {
    if n > 0 {
      PickedIsDistinct(from, to, ids, n - 1, change);
      PickedMembers(from, to, ids, n - 1, change, ids[n - 1]);
      assert ids[n - 1] !in ids[..n - 1];
    }
  }

  lemma AllIdsAreDistinct(from: SceneIndex, to: SceneIndex)
    ensures Distinct(AllIds(from, to))
  {
    var ids := AllIds(from, to);
    MissingIsDistinct(from, to.order);
    forall i, j | 0 <= i < j < |ids|
      ensures ids[i] != ids[j]
    {
      if i < |from.order| <= j {
        MissingMembers(from, to.order, ids[j]);
        assert ids[i] == from.order[i] && ids[j] in Missing(from, to.order);
      }
    }
  }

  /** No list names an id twice. */
  lemma ListsNameAnIdOnce(from: SceneIndex, to: SceneIndex, change: Change)
    ensures Distinct(ListFor(ReportOf(from, to), change))
  {
    var ids := AllIds(from, to);
    AllIdsAreDistinct(from, to);
    PickedIsDistinct(from, to, ids, |ids|, change);
  }

  lemma ListsAreDisjoint(from: SceneIndex, to: SceneIndex, a: Change, b: Change)
    requires a != b
    ensures forall id :: !(id in ListFor(ReportOf(from, to), a) && id in ListFor(ReportOf(from, to), b))
  {
    forall id
      ensures !(id in ListFor(ReportOf(from, to), a) && id in ListFor(ReportOf(from, to), b))
    {
      ListedUnderItsChangeOnly(from, to, id, a);
      ListedUnderItsChangeOnly(from, to, id, b);
    }
  }

  /** What a reader sees under an id: nothing, or content in a place. */
  function Sight(m: SceneIndex, id: string): Option<(Element, real, real)> {
    if id in m.at && !m.at[id].isDeleted then Some((Signature(m.at[id]), m.at[id].x, m.at[id].y)) else None
  }

  /** The report is empty exactly when both scenes look the same. */
  lemma EmptyExactlyWhenNothingShows(from: SceneIndex, to: SceneIndex)
    ensures ReportOf(from, to) == Report([], [], [], []) <==> forall id :: Sight(from, id) == Sight(to, id)
  {
    var r := ReportOf(from, to);
    if r == Report([], [], [], []) {
      forall id
        ensures Sight(from, id) == Sight(to, id)
      {
        ListedUnderItsChangeOnly(from, to, id, ChangeAt(from, to, id));
      }
    } else {
      var change :=
        if r.added != [] then Added else if r.removed != [] then Removed else if r.moved != [] then Moved else Modified;
      var id := ListFor(r, change)[0];
      ListedUnderItsChangeOnly(from, to, id, change);
      assert Sight(from, id) != Sight(to, id);
    }
  }

  function Swapped(change: Change): Change {
    match change case Added => Removed case Removed => Added case other => other
  }

  /** Swapping the scenes swaps added with removed and keeps the sets of moved and modified. */
  lemma SwapReversesTheReport(from: SceneIndex, to: SceneIndex, change: Change, id: string)
    ensures id in ListFor(ReportOf(to, from), Swapped(change)) <==> id in ListFor(ReportOf(from, to), change)
  {
    ListedUnderItsChangeOnly(from, to, id, change);
    ListedUnderItsChangeOnly(to, from, id, Swapped(change));
  }

  /** Whatever the report shows after a batch was applied, some applied delta aimed at it. */
  lemma {:induction false} OnlyAppliedDeltasShow(scene: SceneIndex, deltas: seq<Delta>, change: Change, id: string)
    requires id in ListFor(ReportOf(scene, Reconciled(scene, deltas)), change)
    ensures exists d :: d in Applied(scene, deltas) && TargetOf(d) == id
  {
    ListedUnderItsChangeOnly(scene, Reconciled(scene, deltas), id, change);
    if forall d :: d in deltas && Incoming(scene, d).Some? ==> TargetOf(d) != id {
      UntargetedStays(scene, deltas, id);
    } else {
      var d :| d in deltas && Incoming(scene, d).Some? && TargetOf(d) == id;
      AppliedMembers(scene, deltas, d);
    }
  }

  lemma {:induction false} AppliedMembers(scene: SceneIndex, deltas: seq<Delta>, d: Delta)
    ensures d in Applied(scene, deltas) <==> d in deltas && Incoming(scene, d).Some?
  {
    if deltas != [] {
      AppliedMembers(scene, deltas[..|deltas| - 1], d);
      assert deltas == deltas[..|deltas| - 1] + [deltas[|deltas| - 1]];
    }
  }
}
