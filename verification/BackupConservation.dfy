/** Backing up and restoring a chain: which rows come back, and which objects. */
module BackupConservation {
  import opened OrderedMaps
  import opened BackupText
  import opened Archives
  import opened BackupCreate
  import opened BackupRestore
  import opened BackupChain

  // ---------------------------------------------------------------------------------------------
  // One table
  // ---------------------------------------------------------------------------------------------

  /** Each capture finds the rows of every earlier one, and new ones after them. */
  ghost predicate Grows(rows: seq<seq<Row>>) {
    forall i, j :: 0 <= i < j < |rows| ==> rows[i] <= rows[j]
  }

  ghost predicate Forward(times: seq<int>) {
    forall i, j :: 0 <= i < j < |times| ==> times[i] <= times[j]
  }

  /** The time written into a manifest separates the rows captured from those still to come. */
  ghost predicate CleanCut(before: seq<Row>, after: seq<Row>, time: int) {
    && (forall row :: row in before ==> row.createdAt <= time)
    && (forall k :: |before| <= k < |after| ==> after[k].createdAt > time)
  }

  ghost predicate CleanCutAt(rows: seq<seq<Row>>, times: seq<int>, i: nat)
    requires 1 <= i < |rows| == |times|
  {
    CleanCut(rows[i - 1], rows[i], times[i - 1])
  }

  ghost predicate CleanCuts(rows: seq<seq<Row>>, times: seq<int>, n: nat)
    requires n < |rows| == |times|
  {
    forall i :: 1 <= i <= n ==> CleanCutAt(rows, times, i)
  }

  /** The full dump, then what each increment up to the `n`-th captured. */
  function Restored(rows: seq<seq<Row>>, times: seq<int>, n: nat): seq<Row>
    requires n < |rows| == |times|
  {
    if n == 0 then rows[0]
    else Restored(rows, times, n - 1) + DumpSince(rows[n], times[n - 1])
  }

  lemma {:induction false} DumpMembers(rows: seq<Row>, since: int, row: Row)
    ensures row in DumpSince(rows, since) <==> row in rows && row.createdAt > since
  {
    if rows != [] {
      DumpMembers(rows[..|rows| - 1], since, row);
      assert rows == rows[..|rows| - 1] + [rows[|rows| - 1]];
    }
  }

  lemma {:induction false} DumpOfACleanCut(before: seq<Row>, after: seq<Row>, time: int)
    requires before <= after && CleanCut(before, after, time)
    ensures DumpSince(after, time) == after[|before|..]
    decreases |after|
  {
    if after != [] {
      var front := after[..|after| - 1];
      if |before| == |after| {
        assert after[|after| - 1] in before;
        forall row | row in front
          ensures row.createdAt <= time
        {
          assert row in before;
        }
        DumpOfACleanCut(front, front, time);
      } else {
        DumpOfACleanCut(before, front, time);
        assert after[|before|..] == front[|before|..] + [after[|after| - 1]];
      }
    }
  }

  lemma {:induction false} RestoredWasCaptured(rows: seq<seq<Row>>, times: seq<int>, n: nat, row: Row)
    requires n < |rows| == |times| && Grows(rows) && row in Restored(rows, times, n)
    ensures row in rows[n]
  {
    if n > 0 {
      if row in Restored(rows, times, n - 1) {
        RestoredWasCaptured(rows, times, n - 1, row);
        assert rows[n - 1] <= rows[n];
      } else {
        DumpMembers(rows[n], times[n - 1], row);
      }
    }
  }

  /** A row dated after every manifest so far is in the backups so far. */
  lemma {:induction false} LateRowsAreCaptured(rows: seq<seq<Row>>, times: seq<int>, n: nat, row: Row)
    requires n < |rows| == |times| && Forward(times)
    requires row in rows[n] && (n > 0 ==> row.createdAt > times[n - 1])
    ensures row in Restored(rows, times, n)
  {
    if n > 0 {
      DumpMembers(rows[n], times[n - 1], row);
    }
  }

  lemma {:induction false} DistinctCounts(rows: seq<Row>, row: Row)
    requires Distinct(rows)
    ensures multiset(rows)[row] <= 1
  {
    if rows != [] {
      var front, last := rows[..|rows| - 1], rows[|rows| - 1];
      assert rows == front + [last];
      DistinctCounts(front, row);
      assert last !in front;
    }
  }

  lemma {:induction false} CleanCutsRestoreEverything(rows: seq<seq<Row>>, times: seq<int>, n: nat)
    requires n < |rows| == |times| && Grows(rows) && CleanCuts(rows, times, n)
    ensures Restored(rows, times, n) == rows[n]
  {
    if n > 0 {
      CleanCutsRestoreEverything(rows, times, n - 1);
      assert CleanCutAt(rows, times, n);
      DumpOfACleanCut(rows[n - 1], rows[n], times[n - 1]);
      assert rows[n - 1] <= rows[n];
      assert rows[n] == rows[n - 1] + rows[n][|rows[n - 1]|..];
    }
  }

  lemma NotInAPrefix(before: seq<Row>, after: seq<Row>, k: nat)
    requires before <= after && Distinct(after) && |before| <= k < |after|
    ensures after[k] !in before
  {
    forall j | 0 <= j < |before|
      ensures before[j] != after[k]
    {
      assert before[j] == after[j];
    }
  }

  lemma SameMembers(xs: seq<Row>, ys: seq<Row>, row: Row)
    requires multiset(xs) == multiset(ys)
    ensures row in xs <==> row in ys
  {
    assert row in multiset(xs) <==> row in multiset(ys);
  }

  lemma RemoveTheRest(a: seq<Row>, b: seq<Row>, rest: seq<Row>)
    requires multiset(a + rest) == multiset(b + rest)
    ensures multiset(a) == multiset(b)
  {
    forall row
      ensures multiset(a)[row] == multiset(b)[row]
    {
      assert multiset(a + rest)[row] == multiset(a)[row] + multiset(rest)[row];
      assert multiset(b + rest)[row] == multiset(b)[row] + multiset(rest)[row];
    }
  }

  lemma EarlierRowsCameBack(rows: seq<seq<Row>>, times: seq<int>, n: nat)
    requires 0 < n < |rows| == |times| && Grows(rows)
    requires CleanCutAt(rows, times, n)
    requires multiset(Restored(rows, times, n)) == multiset(rows[n])
    ensures multiset(Restored(rows, times, n - 1)) == multiset(rows[n - 1])
  {
    assert rows[n - 1] <= rows[n];
    DumpOfACleanCut(rows[n - 1], rows[n], times[n - 1]);
    var added := rows[n][|rows[n - 1]|..];
    assert rows[n] == rows[n - 1] + added;
    RemoveTheRest(Restored(rows, times, n - 1), rows[n - 1], added);
  }

  lemma NotTwice(xs: seq<Row>, ys: seq<Row>, all: seq<Row>, row: Row)
    requires multiset(xs + ys) == multiset(all) && Distinct(all) && row in xs
    ensures row !in ys
  {
    DistinctCounts(all, row);
    assert multiset(xs + ys)[row] == multiset(xs)[row] + multiset(ys)[row];
  }

  /** Every row of the capture is in the backups, once. */
  ghost predicate CameBack(rows: seq<seq<Row>>, times: seq<int>, n: nat)
    requires n < |rows| == |times|
  {
    Distinct(rows[n]) && multiset(Restored(rows, times, n)) == multiset(rows[n])
  }

  /** A row dated after a manifest that already holds it would come back twice. */
  lemma NoneIsDatedLate(rows: seq<seq<Row>>, times: seq<int>, n: nat, row: Row)
    requires 0 < n < |rows| == |times| && Forward(times) && CameBack(rows, times, n)
    requires row in rows[n - 1] && row in rows[n]
    ensures row.createdAt <= times[n - 1]
  {
    if row.createdAt > times[n - 1] {
      LateRowsAreCaptured(rows, times, n - 1, row);
      DumpMembers(rows[n], times[n - 1], row);
      NotTwice(Restored(rows, times, n - 1), DumpSince(rows[n], times[n - 1]), rows[n], row);
    }
  }

  /** A row added after a manifest but dated before it would not come back. */
  lemma NoneIsDatedEarly(rows: seq<seq<Row>>, times: seq<int>, n: nat, k: nat)
    requires 0 < n < |rows| == |times| && Grows(rows) && CameBack(rows, times, n)
    requires |rows[n - 1]| <= k < |rows[n]|
    ensures rows[n][k].createdAt > times[n - 1]
  {
    var row := rows[n][k];
    SameMembers(Restored(rows, times, n), rows[n], row);
    NotInAPrefix(rows[n - 1], rows[n], k);
    if row in Restored(rows, times, n - 1) {
      RestoredWasCaptured(rows, times, n - 1, row);
    }
    DumpMembers(rows[n], times[n - 1], row);
  }

  lemma LastCutIsClean(rows: seq<seq<Row>>, times: seq<int>, n: nat)
    requires 0 < n < |rows| == |times| && Grows(rows) && Forward(times) && CameBack(rows, times, n)
    ensures CleanCutAt(rows, times, n)
  {
    assert rows[n - 1] <= rows[n];
    forall row | row in rows[n - 1]
      ensures row.createdAt <= times[n - 1]
    {
      NoneIsDatedLate(rows, times, n, row);
    }
    forall k | |rows[n - 1]| <= k < |rows[n]|
      ensures rows[n][k].createdAt > times[n - 1]
    {
      NoneIsDatedEarly(rows, times, n, k);
    }
  }

  lemma StepBack(rows: seq<seq<Row>>, times: seq<int>, n: nat)
    requires 0 < n < |rows| == |times| && Grows(rows) && Forward(times) && CameBack(rows, times, n)
    ensures CleanCutAt(rows, times, n) && CameBack(rows, times, n - 1)
  {
    LastCutIsClean(rows, times, n);
    EarlierRowsCameBack(rows, times, n);
    PrefixIsDistinct(rows[n - 1], rows[n]);
  }

  lemma {:induction false} EveryCutIsClean(rows: seq<seq<Row>>, times: seq<int>, n: nat, i: nat)
    requires n < |rows| == |times| && Grows(rows) && Forward(times) && CameBack(rows, times, n)
    requires 1 <= i <= n
    ensures CleanCutAt(rows, times, i)
  {
    StepBack(rows, times, n);
    if i < n {
      EveryCutIsClean(rows, times, n - 1, i);
    }
  }

  lemma PrefixIsDistinct(before: seq<Row>, after: seq<Row>)
    requires before <= after && Distinct(after)
    ensures Distinct(before)
  {
    assert forall k :: 0 <= k < |before| ==> before[k] == after[k];
  }

  /**
   * The rows of a table come back, each exactly once, if and only if every cut is clean: no row
   * that a backup holds is dated after its manifest, and every row added later is.
   */
  lemma {:induction false} RowsComeBackExactlyWithCleanCuts(rows: seq<seq<Row>>, times: seq<int>, n: nat)
    requires n < |rows| == |times| && Grows(rows) && Forward(times) && Distinct(rows[n])
    ensures CameBack(rows, times, n) <==> CleanCuts(rows, times, n)
    ensures CleanCuts(rows, times, n) ==> Restored(rows, times, n) == rows[n]
  {
    if CleanCuts(rows, times, n) {
      CleanCutsRestoreEverything(rows, times, n);
    } else if CameBack(rows, times, n) {
      forall i | 1 <= i <= n
        ensures CleanCutAt(rows, times, i)
      {
        EveryCutIsClean(rows, times, n, i);
      }
    }
  }

  /** A row inserted before the manifest is dated but after the capture is lost. */
  lemma RowBetweenCaptureAndManifestIsLost(early: Row, late: Row, time: int)
    requires early.createdAt <= time && late.createdAt <= time
    ensures Restored([[early], [early, late]], [time, time], 1) == [early]
  {
    DumpOfTwo(early, late, time);
    var rows, times := [[early], [early, late]], [time, time];
    assert Restored(rows, times, 1) == Restored(rows, times, 0) + DumpSince(rows[1], times[0]);
    assert [early] + [] == [early];
  }

  /** A row that is dated after the manifest that already holds it comes back twice. */
  lemma RowDatedAfterItsManifestComesTwice(row: Row, time: int)
    requires row.createdAt > time
    ensures Restored([[row], [row]], [time, time], 1) == [row, row]
  {
    assert [row][..0] == [];
    assert DumpSince([row], time) == [row];
    var rows, times := [[row], [row]], [time, time];
    assert Restored(rows, times, 1) == Restored(rows, times, 0) + DumpSince(rows[1], times[0]);
    assert rows[0] + [row] == [row, row];
  }

  lemma {:induction false} DumpOfTwo(a: Row, b: Row, since: int)
    requires a.createdAt <= since && b.createdAt <= since
    ensures DumpSince([a, b], since) == []
  {
    assert [a, b][..1] == [a] && [a][..0] == [];
    assert DumpSince([a], since) == [];
  }
}
