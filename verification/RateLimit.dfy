/** The fixed-window rate limiter, and how many hits a sliding window can really see. */
module RateLimit {
  import opened OrderedMaps

  datatype Window = Window(windowStart: int, count: int)

  datatype Verdict = Verdict(allowed: bool, remaining: int)

  datatype Options = Options(limit: int, windowMs: int)

  predicate Stale(o: Options, entry: Option<Window>, now: int) {
    entry.None? || now - entry.value.windowStart >= o.windowMs
  }

  function Counted(o: Options, entry: Option<Window>, now: int): Window {
    if Stale(o, entry, now) then Window(now, 1) else entry.value.(count := entry.value.count + 1)
  }

  function Judged(o: Options, entry: Option<Window>, now: int): Verdict {
    if Stale(o, entry, now) then Verdict(true, o.limit - 1)
    else
      var count := entry.value.count + 1;
      Verdict(count <= o.limit, if o.limit - count > 0 then o.limit - count else 0)
  }

  function Lookup(windows: map<string, Window>, key: string): Option<Window> {
    if key in windows then Some(windows[key]) else None
  }

  // ---------------------------------------------------------------------------------------------
  // Runs
  // ---------------------------------------------------------------------------------------------

  datatype Hit = Hit(key: string, time: int)

  function WindowsAfter(o: Options, hits: seq<Hit>): map<string, Window> {
    if hits == [] then map[]
    else
      var before, h := WindowsAfter(o, hits[..|hits| - 1]), hits[|hits| - 1];
      before[h.key := Counted(o, Lookup(before, h.key), h.time)]
  }

  /** The entry of one key, as its own hits make it. */
  function EntryAfter(o: Options, hits: seq<Hit>, key: string): Option<Window> {
    if hits == [] then None
    else
      var before, h := EntryAfter(o, hits[..|hits| - 1], key), hits[|hits| - 1];
      if h.key == key then Some(Counted(o, before, h.time)) else before
  }

  /** The limiter's table holds, for every key, what the key's own hits make of it. */
  lemma {:induction false} TableHoldsEntries(o: Options, hits: seq<Hit>, key: string)
    ensures Lookup(WindowsAfter(o, hits), key) == EntryAfter(o, hits, key)
  {
    if hits != [] {
      TableHoldsEntries(o, hits[..|hits| - 1], key);
    }
  }

  /** The verdict on the `i`-th hit of a run. */
  function VerdictAt(o: Options, hits: seq<Hit>, i: nat): Verdict
    requires i < |hits|
  {
    Judged(o, EntryAfter(o, hits[..i], hits[i].key), hits[i].time)
  }

  ghost predicate ClockNeverGoesBack(hits: seq<Hit>) {
    forall i, j :: 0 <= i < j < |hits| ==> hits[i].time <= hits[j].time
  }

  // ---------------------------------------------------------------------------------------------
  // The limiter
  // ---------------------------------------------------------------------------------------------

  class InMemoryRateLimiter {
    const options: Options
    var windows: map<string, Window>
    ghost var history: seq<Hit>

    /** The table is what the hits so far make of it. */
    ghost predicate Valid()
      reads this
    {
      windows == WindowsAfter(options, history)
    }

    constructor (options: Options)
      ensures Valid() && this.options == options && history == []
    {
      this.options := options;
      windows := map[];
      history := [];
    }

    /** Records one hit for `key` at time `now` and says whether it is within the limit. */
    method Check(key: string, now: int) returns (verdict: Verdict)
      requires Valid()
      modifies this
      ensures Valid() && history == old(history) + [Hit(key, now)]
      ensures windows == old(windows)[key := windows[key]]
      ensures verdict == VerdictAt(options, history, |old(history)|)
    {
      TableHoldsEntries(options, history, key);
      assert (history + [Hit(key, now)])[..|history|] == history;
      history := history + [Hit(key, now)];
      if key !in windows || now - windows[key].windowStart >= options.windowMs {
        windows := windows[key := Window(now, 1)];
        return Verdict(true, options.limit - 1);
      }
      var entry := windows[key];
      entry := entry.(count := entry.count + 1);
      windows := windows[key := entry];
      var left := options.limit - entry.count;
      return Verdict(entry.count <= options.limit, if left > 0 then left else 0);
    }
  }

  // ---------------------------------------------------------------------------------------------
  // Any stretch of time
  // ---------------------------------------------------------------------------------------------

  /** How many hits on `key` in the time from `a` up to but not including `b` were allowed. */
  function AllowedIn(o: Options, hits: seq<Hit>, key: string, a: int, b: int): nat {
    if hits == [] then 0
    else
      var i := |hits| - 1;
      var here := hits[i].key == key && a <= hits[i].time < b && VerdictAt(o, hits, i).allowed;
      AllowedIn(o, hits[..i], key, a, b) + if here then 1 else 0
  }

  lemma {:induction false} OneMore(o: Options, hits: seq<Hit>, h: Hit, key: string, a: int, b: int)
    ensures EntryAfter(o, hits + [h], key) ==
            if h.key == key then Some(Counted(o, EntryAfter(o, hits, key), h.time)) else EntryAfter(o, hits, key)
    ensures AllowedIn(o, hits + [h], key, a, b) == AllowedIn(o, hits, key, a, b) +
            if h.key == key && a <= h.time < b && Judged(o, EntryAfter(o, hits, key), h.time).allowed then 1 else 0
  {
    assert (hits + [h])[..|hits|] == hits;
  }

  /** The first hit of a window always passes, so the effective limit is never below one. */
  function Effective(o: Options): int {
    if o.limit < 1 then 1 else o.limit
  }

  function AtMost(a: int, b: int): int { if a <= b then a else b }

  ghost predicate SlidingInvariant(o: Options, hits: seq<Hit>, key: string, a: int) {
    var n, m := AllowedIn(o, hits, key, a, a + o.windowMs), Effective(o);
    match EntryAfter(o, hits, key)
    case None => n == 0
    case Some(w) =>
      && w.count >= 1
      && hits != [] && w.windowStart <= hits[|hits| - 1].time
      && (hits[|hits| - 1].time < a ==> n == 0)
      && if w.windowStart < a then n <= AtMost(w.count, m) - 1
         else if w.windowStart < a + o.windowMs then n <= m - 1 + AtMost(w.count, m)
         else n <= 2 * m - 1
  }

  lemma SlidingStep(o: Options, hits: seq<Hit>, h: Hit, key: string, a: int)
    requires ClockNeverGoesBack(hits + [h])
    requires SlidingInvariant(o, hits, key, a)
    ensures SlidingInvariant(o, hits + [h], key, a)
  {
    var all := hits + [h];
    assert all[..|all| - 1] == hits;
    assert all[|hits|] == h;
    var before := EntryAfter(o, hits, key);
    assert EntryAfter(o, all, key) ==
           if h.key == key then Some(Counted(o, EntryAfter(o, hits, key), h.time)) else EntryAfter(o, hits, key);
    assert hits != [] ==> all[|hits| - 1].time <= all[|hits|].time;
  }

  /**
   * However the windows fall, any stretch of time as long as a window sees fewer than twice the
   * limit: at most 2 * limit - 1 allowed hits.
   */
  lemma {:induction false} SlidingBound(o: Options, hits: seq<Hit>, key: string, a: int)
    requires ClockNeverGoesBack(hits)
    ensures SlidingInvariant(o, hits, key, a)
    ensures AllowedIn(o, hits, key, a, a + o.windowMs) <= 2 * Effective(o) - 1
  {
    if hits != [] {
      var front, h := hits[..|hits| - 1], hits[|hits| - 1];
      SlidingBound(o, front, key, a);
      assert hits == front + [h];
      SlidingStep(o, front, h, key, a);
    }
  }

  // ---------------------------------------------------------------------------------------------
  // One window
  // ---------------------------------------------------------------------------------------------

  /** The `i`-th hit opens a window. */
  predicate Opens(o: Options, hits: seq<Hit>, i: nat)
    requires i < |hits|
  {
    Stale(o, EntryAfter(o, hits[..i], hits[i].key), hits[i].time)
  }

  /** How many hits on `key` there are among positions `i` to `j`. */
  function Rank(hits: seq<Hit>, key: string, i: nat, j: nat): nat
    requires i <= j < |hits|
    decreases j
  {
    (if i == j then 0 else Rank(hits, key, i, j - 1)) + if hits[j].key == key then 1 else 0
  }

  /** Within a window the entry counts the hits since the one that began it. */
  lemma {:induction false} WindowCounts(o: Options, hits: seq<Hit>, i: nat, j: nat)
    requires i <= j < |hits| && ClockNeverGoesBack(hits)
    requires Opens(o, hits, i) && (j > i ==> hits[j].time < hits[i].time + o.windowMs)
    ensures EntryAfter(o, hits[..j + 1], hits[i].key) ==
            Some(Window(hits[i].time, Rank(hits, hits[i].key, i, j)))
    decreases j
  {
    assert hits[..j + 1][..j] == hits[..j];
    if i < j {
      WindowCounts(o, hits, i, j - 1);
    }
  }

  /** Exactly the first `limit` hits of a window are allowed, and each says how many are left. */
  lemma {:induction false} FirstHitsOfAWindowPass(o: Options, hits: seq<Hit>, i: nat, j: nat)
    requires i <= j < |hits| && ClockNeverGoesBack(hits)
    requires Opens(o, hits, i) && hits[j].key == hits[i].key && (j > i ==> hits[j].time < hits[i].time + o.windowMs)
    ensures var rank := Rank(hits, hits[i].key, i, j);
            && VerdictAt(o, hits, j).allowed == (rank <= Effective(o))
            && (o.limit >= 1 ==> VerdictAt(o, hits, j).remaining == if rank < o.limit then o.limit - rank else 0)
  {
    if i < j {
      WindowCounts(o, hits, i, j - 1);
      RankIsPositive(hits, i, j - 1);
      var count := Rank(hits, hits[i].key, i, j - 1);
      assert VerdictAt(o, hits, j) == Judged(o, Some(Window(hits[i].time, count)), hits[j].time);
      assert Rank(hits, hits[i].key, i, j) == count + 1;
    } else {
      assert VerdictAt(o, hits, j) == Verdict(true, o.limit - 1);
      assert Rank(hits, hits[i].key, i, j) == 1;
    }
  }

  lemma {:induction false} RankIsPositive(hits: seq<Hit>, i: nat, j: nat)
    requires i <= j < |hits|
    ensures Rank(hits, hits[i].key, i, j) >= 1
    decreases j
  {
    if i < j {
      RankIsPositive(hits, i, j - 1);
    }
  }

  /** The hit at `i` is the last on its key, before `j`, that opened a window. */
  ghost predicate LastOpener(o: Options, hits: seq<Hit>, i: int, j: nat)
    requires j < |hits|
  {
    && 0 <= i < j && hits[i].key == hits[j].key && Opens(o, hits, i)
    && forall k :: i < k < j && hits[k].key == hits[j].key ==> !Opens(o, hits, k)
  }

  lemma {:induction false} EntryIsOfTheLastOpener(o: Options, hits: seq<Hit>, j: nat, n: nat)
    requires n <= j < |hits|
    ensures var entry := EntryAfter(o, hits[..n], hits[j].key);
            if entry.None? then forall k :: 0 <= k < n ==> hits[k].key != hits[j].key
            else exists i :: && 0 <= i < n && hits[i].key == hits[j].key && Opens(o, hits, i)
                             && entry.value.windowStart == hits[i].time
                             && forall k :: i < k < n && hits[k].key == hits[j].key ==> !Opens(o, hits, k)
  {
    if n > 0 {
      assert hits[..n][..n - 1] == hits[..n - 1];
      EntryIsOfTheLastOpener(o, hits, j, n - 1);
    }
  }

  /**
   * A hit opens a window exactly if it is the first on its key, or comes a whole window or more
   * after the last one that did; the hit that opens a window is allowed and leaves the rest of the limit.
   */
  lemma {:induction false} WindowsFollowEachOther(o: Options, hits: seq<Hit>, j: nat)
    requires j < |hits|
    ensures Opens(o, hits, j) <==> forall i :: LastOpener(o, hits, i, j) ==> hits[j].time - hits[i].time >= o.windowMs
    ensures Opens(o, hits, j) ==> VerdictAt(o, hits, j) == Verdict(true, o.limit - 1)
    ensures (forall i :: 0 <= i < j ==> hits[i].key != hits[j].key) ==> Opens(o, hits, j)
  {
    EntryIsOfTheLastOpener(o, hits, j, j);
    var entry := EntryAfter(o, hits[..j], hits[j].key);
    if entry.Some? {
      var i :| && 0 <= i < j && hits[i].key == hits[j].key && Opens(o, hits, i)
               && entry.value.windowStart == hits[i].time
               && forall k :: i < k < j && hits[k].key == hits[j].key ==> !Opens(o, hits, k);
      assert LastOpener(o, hits, i, j);
    }
  }

  // ---------------------------------------------------------------------------------------------
  // Other keys
  // ---------------------------------------------------------------------------------------------

  function Own(hits: seq<Hit>, key: string): seq<Hit> {
    if hits == [] then []
    else
      var before, h := Own(hits[..|hits| - 1], key), hits[|hits| - 1];
      if h.key == key then before + [h] else before
  }

  /** What happens to a key depends on its own hits alone. */
  lemma {:induction false} OtherKeysDoNotMatter(o: Options, hits: seq<Hit>, key: string)
    ensures EntryAfter(o, hits, key) == EntryAfter(o, Own(hits, key), key)
  {
    if hits != [] {
      OtherKeysDoNotMatter(o, hits[..|hits| - 1], key);
      var before, h := Own(hits[..|hits| - 1], key), hits[|hits| - 1];
      assert (before + [h])[..|before|] == before;
    }
  }

  // ---------------------------------------------------------------------------------------------
  // The bound is reached, and the limit must be positive
  // ---------------------------------------------------------------------------------------------

  /** `more` is `hits` with later ones, all at `time`, behind it. */
  ghost predicate Later(hits: seq<Hit>, more: seq<Hit>, time: int) {
    hits <= more && forall i :: |hits| <= i < |more| ==> more[i].time == time
  }

  ghost predicate InOrderUpTo(hits: seq<Hit>, time: int) {
    ClockNeverGoesBack(hits) && forall i :: 0 <= i < |hits| ==> hits[i].time <= time
  }

  lemma LaterStaysInOrder(hits: seq<Hit>, more: seq<Hit>, time: int)
    requires InOrderUpTo(hits, time) && Later(hits, more, time)
    ensures InOrderUpTo(more, time)
  {
    assert forall i :: 0 <= i < |hits| ==> more[i] == hits[i];
  }

  lemma {:induction false} Burst(
    o: Options, hits: seq<Hit>, w: Window, key: string, time: int, n: nat, a: int, b: int) returns (more: seq<Hit>)
    requires EntryAfter(o, hits, key) == Some(w) && a <= time < b
    requires time < w.windowStart + o.windowMs && w.count + n <= o.limit
    ensures Later(hits, more, time)
    ensures EntryAfter(o, more, key) == Some(w.(count := w.count + n))
    ensures AllowedIn(o, more, key, a, b) == AllowedIn(o, hits, key, a, b) + n
  {
    if n == 0 {
      more := hits;
    } else {
      var before := Burst(o, hits, w, key, time, n - 1, a, b);
      OneMore(o, before, Hit(key, time), key, a, b);
      more := before + [Hit(key, time)];
    }
  }

  /** A hit that opens a window at `t0`, then the rest of the window's limit at `t1`. */
  lemma FillAWindow(o: Options, hits: seq<Hit>, key: string, t0: int, t1: int, a: int, b: int)
    returns (more: seq<Hit>)
    requires o.limit >= 1 && Stale(o, EntryAfter(o, hits, key), t0)
    requires a <= t1 < b && t0 <= t1 < t0 + o.windowMs
    requires InOrderUpTo(hits, t0)
    ensures InOrderUpTo(more, t1)
    ensures EntryAfter(o, more, key) == Some(Window(t0, o.limit))
    ensures AllowedIn(o, more, key, a, b) ==
            AllowedIn(o, hits, key, a, b) + (if a <= t0 < b then 1 else 0) + o.limit - 1
  {
    OneMore(o, hits, Hit(key, t0), key, a, b);
    var begun := hits + [Hit(key, t0)];
    LaterStaysInOrder(hits, begun, t0);
    more := Burst(o, begun, Window(t0, 1), key, t1, o.limit - 1, a, b);
    LaterStaysInOrder(begun, more, t1);
  }

  /** 2 * limit - 1 is not just a bound: for every limit and window length some run reaches it. */
  lemma BoundIsReached(o: Options, key: string) returns (hits: seq<Hit>)
    requires o.limit >= 1 && o.windowMs >= 2
    ensures ClockNeverGoesBack(hits)
    ensures AllowedIn(o, hits, key, 1, 1 + o.windowMs) == 2 * Effective(o) - 1
  {
    var first := FillAWindow(o, [], key, 0, 1, 1, 1 + o.windowMs);
    hits := FillAWindow(o, first, key, o.windowMs, o.windowMs, 1, 1 + o.windowMs);
  }

  /** "At most `limit` per window" holds in every run exactly when the limit is at least one. */
  lemma LimitIsKeptExactlyWhenPositive(o: Options)
    ensures o.limit >= 1 <==>
            forall hits: seq<Hit>, i: nat, j: nat ::
              WithinWindow(o, hits, i, j) && VerdictAt(o, hits, j).allowed ==>
                Rank(hits, hits[i].key, i, j) <= o.limit
  {
    if o.limit >= 1 {
      forall hits: seq<Hit>, i: nat, j: nat | WithinWindow(o, hits, i, j) && VerdictAt(o, hits, j).allowed
        ensures Rank(hits, hits[i].key, i, j) <= o.limit
      {
        FirstHitsOfAWindowPass(o, hits, i, j);
      }
    } else {
      var hits := [Hit("", 0)];
      assert hits[..0] == [];
      assert WithinWindow(o, hits, 0, 0) && VerdictAt(o, hits, 0).allowed;
      assert Rank(hits, "", 0, 0) == 1;
    }
  }

  /** The failing case: with any limit below one the very first hit is allowed all the same. */
  lemma FirstHitIsAllowedAnyway(o: Options, h: Hit)
    requires o.limit < 1
    ensures VerdictAt(o, [h], 0).allowed && Rank([h], h.key, 0, 0) > o.limit
  {
    assert [h][..0] == [];
  }

  /** Hit `j` falls into the window that hit `i` began, on the same key. */
  ghost predicate WithinWindow(o: Options, hits: seq<Hit>, i: nat, j: nat) {
    && i <= j < |hits| && ClockNeverGoesBack(hits) && Opens(o, hits, i)
    && hits[j].key == hits[i].key && (j > i ==> hits[j].time < hits[i].time + o.windowMs)
  }
}
