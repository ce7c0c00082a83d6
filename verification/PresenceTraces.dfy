/** The presence session read off the list of its events: who is shown, what is said, and when. */
module PresenceTraces {
  import opened OrderedMaps
  import opened Presence
  import opened PresenceRuns

  // ---------------------------------------------------------------------------------------------
  // The states of a run
  // ---------------------------------------------------------------------------------------------

  lemma {:induction false} LegalParts(cfg: Config, s: State, events: seq<Event>, n: nat)
    requires Legal(cfg, s, events) && n <= |events|
    ensures Legal(cfg, s, events[..n])
    ensures Legal(cfg, Run(cfg, s, events[..n]), events[n..])
    ensures Run(cfg, Run(cfg, s, events[..n]), events[n..]) == Run(cfg, s, events)
    decreases n
  {
    if n > 0 {
      LegalParts(cfg, Next(cfg, s, events[0]), events[1..], n - 1);
      assert events[..n][1..] == events[1..][..n - 1];
      assert events[1..][n - 1..] == events[n..];
    }
  }

  /** The state after the first `n` events. */
  ghost function After(cfg: Config, s: State, events: seq<Event>, n: nat): State
    requires Legal(cfg, s, events) && n <= |events|
  {
    LegalParts(cfg, s, events, n);
    Run(cfg, s, events[..n])
  }

  lemma {:induction false} AfterNext(cfg: Config, s: State, events: seq<Event>, n: nat)
    requires Legal(cfg, s, events) && n < |events|
    ensures Enabled(After(cfg, s, events, n), events[n])
    ensures After(cfg, s, events, n + 1) == Next(cfg, After(cfg, s, events, n), events[n])
  {
    var before := After(cfg, s, events, n);
    LegalParts(cfg, s, events, n);
    LegalParts(cfg, s, events, n + 1);
    LegalParts(cfg, s, events[..n + 1], n);
    assert events[..n + 1][..n] == events[..n];
    assert events[..n + 1][n..] == [events[n]] && [events[n]][1..] == [];
    assert Run(cfg, before, [events[n]]) == Next(cfg, before, events[n]);
  }

  lemma {:induction false} AfterAll(cfg: Config, s: State, events: seq<Event>)
    requires Legal(cfg, s, events)
    ensures After(cfg, s, events, |events|) == Run(cfg, s, events)
  {
    assert events[..|events|] == events;
  }

  lemma {:induction false} GoodAfter(cfg: Config, now: int, events: seq<Event>, n: nat)
    requires Legal(cfg, Start(now), events) && n <= |events|
    ensures Good(cfg, After(cfg, Start(now), events, n))
  {
    StartIsGood(cfg, now);
    LegalParts(cfg, Start(now), events, n);
    GoodRun(cfg, Start(now), events[..n]);
  }

  /** Until it is closed the session has not been closed before either. */
  lemma {:induction false} OpenBefore(cfg: Config, now: int, events: seq<Event>, n: nat)
    requires Legal(cfg, Start(now), events) && n < |events| && !After(cfg, Start(now), events, n + 1).c.disposed
    ensures !After(cfg, Start(now), events, n).c.disposed && !events[n].CallClose?
  {
    GoodAfter(cfg, now, events, n);
    AfterNext(cfg, Start(now), events, n);
    DisposalStep(cfg, After(cfg, Start(now), events, n), events[n]);
  }

  // ---------------------------------------------------------------------------------------------
  // Who is shown
  // ---------------------------------------------------------------------------------------------

  /** A presence frame of the sender arrives, who is named and is not the user. */
  ghost predicate Speaks(cfg: Config, e: Event, sender: string) {
    && e.FrameArrives? && e.frame.PresenceFrame? && e.frame.senderId == Some(sender)
    && sender != "" && sender != cfg.selfUserId
  }

  /** Of the first `n` events the one at `k` is the last in which the sender speaks. */
  ghost predicate LastHeard(cfg: Config, events: seq<Event>, n: nat, sender: string, k: int)
    requires n <= |events|
  {
    0 <= k < n && Speaks(cfg, events[k], sender) && forall j :: k < j < n ==> !Speaks(cfg, events[j], sender)
  }

  /** What an active frame that arrives at this time shows of its sender. */
  ghost predicate ShowsFrame(r: Remote, frame: Frame, time: int)
    requires frame.PresenceFrame? && frame.senderId.Some?
  {
    && r.senderId == frame.senderId.value && r.lastSeenAt == time && r.cursor == frame.cursor
    && (frame.displayName == Some(r.displayName) || (frame.displayName.None? && r.displayName == ""))
    && (frame.selection == Some(r.selection) || (frame.selection.None? && r.selection == []))
  }

  /** The event takes what was last heard at `time` off the page: a disconnect, or a sweep past the limit. */
  ghost predicate TakesOff(cfg: Config, s: State, e: Event, time: int) {
    Disconnects(cfg, s, e) || (e.SweepDue? && s.b.now - time > 90000)
  }

  ghost predicate StillShown(cfg: Config, s: State, events: seq<Event>, n: nat, k: int)
    requires Legal(cfg, s, events) && 0 <= k < n <= |events|
  {
    forall j :: k < j < n ==>
      !TakesOff(cfg, After(cfg, s, events, j), events[j], After(cfg, s, events, k).b.now)
  }

  /** What one event does to what is shown of a sender. */
  lemma RemoteStep(cfg: Config, s: State, e: Event, sender: string)
    requires Enabled(s, e) && !s.c.disposed && !e.CallClose? && OnlyOthers(cfg, s)
    ensures var old', new' := s.store.remotes, Next(cfg, s, e).store.remotes;
            if Speaks(cfg, e, sender) then
              && (sender in new' <==> e.frame.status == Active)
              && (sender in new' ==> ShowsFrame(new'[sender], e.frame, s.b.now))
            else
              && (sender in new' <==> sender in old' && !TakesOff(cfg, s, e, old'[sender].lastSeenAt))
              && (sender in new' ==> new'[sender] == old'[sender])
  {
  }

  ghost predicate ShownBy(cfg: Config, now: int, events: seq<Event>, n: nat, sender: string, k: int)
    requires Legal(cfg, Start(now), events) && n <= |events|
  {
    && LastHeard(cfg, events, n, sender, k) && events[k].frame.status == Active
    && StillShown(cfg, Start(now), events, n, k)
  }

  lemma {:induction false} ShownAfter(cfg: Config, now: int, events: seq<Event>, n: nat, sender: string)
    requires Legal(cfg, Start(now), events) && n <= |events| && !After(cfg, Start(now), events, n).c.disposed
    ensures var remotes := After(cfg, Start(now), events, n).store.remotes;
            && (sender in remotes <==> exists k :: ShownBy(cfg, now, events, n, sender, k))
            && (forall k :: LastHeard(cfg, events, n, sender, k) && sender in remotes ==>
                  ShowsFrame(remotes[sender], events[k].frame, After(cfg, Start(now), events, k).b.now))
    decreases n
  {
    if n > 0 {
      var m, start := n - 1, Start(now);
      var s := After(cfg, start, events, m);
      GoodAfter(cfg, now, events, m);
      AfterNext(cfg, start, events, m);
      OpenBefore(cfg, now, events, m);
      ShownAfter(cfg, now, events, m, sender);
      RemoteStep(cfg, s, events[m], sender);
      if Speaks(cfg, events[m], sender) {
        JustHeard(cfg, now, events, m, n, sender);
      } else {
        NotHeard(cfg, now, events, m, n, sender);
      }
    }
  }

  lemma {:induction false} JustHeard(cfg: Config, now: int, events: seq<Event>, m: nat, n: nat, sender: string)
    requires Legal(cfg, Start(now), events) && m < n == m + 1 <= |events| && Speaks(cfg, events[m], sender)
    ensures forall k :: LastHeard(cfg, events, n, sender, k) <==> k == m
    ensures (exists k :: ShownBy(cfg, now, events, n, sender, k)) <==> events[m].frame.status == Active
  {
    assert LastHeard(cfg, events, n, sender, m);
    assert StillShown(cfg, Start(now), events, n, m);
    assert ShownBy(cfg, now, events, n, sender, m) <==> events[m].frame.status == Active;
  }

  lemma {:induction false} NotHeard(cfg: Config, now: int, events: seq<Event>, m: nat, n: nat, sender: string)
    requires Legal(cfg, Start(now), events) && m < n == m + 1 <= |events| && !Speaks(cfg, events[m], sender)
    ensures forall k :: LastHeard(cfg, events, n, sender, k) <==> LastHeard(cfg, events, m, sender, k)
    ensures forall k ::
              ShownBy(cfg, now, events, n, sender, k) <==>
              ShownBy(cfg, now, events, m, sender, k)
              && !TakesOff(cfg, After(cfg, Start(now), events, m), events[m],
                           After(cfg, Start(now), events, k).b.now)
  {
  }

  /**
   * Who is shown: until the session is closed, exactly those whose last presence frame was active
   * and is followed by no disconnect and no sweep past the stale limit; each with the name, cursor
   * and selection of that frame, and the time it arrived.
   */
  lemma {:induction false} ShownExactlyWhenHeard(cfg: Config, now: int, events: seq<Event>, sender: string)
    requires Legal(cfg, Start(now), events) && !Run(cfg, Start(now), events).c.disposed
    ensures var remotes := Run(cfg, Start(now), events).store.remotes;
            && (sender in remotes <==> exists k :: ShownBy(cfg, now, events, |events|, sender, k))
            && (forall k :: LastHeard(cfg, events, |events|, sender, k) && sender in remotes ==>
                  ShowsFrame(remotes[sender], events[k].frame, After(cfg, Start(now), events, k).b.now))
  {
    AfterAll(cfg, Start(now), events);
    ShownAfter(cfg, now, events, |events|, sender);
  }

  // ---------------------------------------------------------------------------------------------
  // What the connection is said to be
  // ---------------------------------------------------------------------------------------------

  /** The phase an event announces, if it announces one. */
  ghost function Announces(cfg: Config, s: State, e: Event): Option<Phase> {
    if e.CallConnect? || e.ReconnectDue? then Some(Connecting)
    else if e.SocketOpens? then Some(Connected)
    else if Disconnects(cfg, s, e) then Some(Disconnected)
    else None
  }

  lemma ConnectionStep(cfg: Config, s: State, e: Event)
    requires Enabled(s, e) && !s.c.disposed && !e.CallClose?
    ensures Next(cfg, s, e).store.connection ==
            match Announces(cfg, s, e) case Some(phase) => phase case None => s.store.connection
  {
  }

  /** Of the first `n` events the one at `k` is the last that announces a phase. */
  ghost predicate LastAnnounced(cfg: Config, now: int, events: seq<Event>, n: nat, k: int)
    requires Legal(cfg, Start(now), events) && n <= |events|
  {
    && 0 <= k < n && Announces(cfg, After(cfg, Start(now), events, k), events[k]).Some?
    && forall j :: k < j < n ==> Announces(cfg, After(cfg, Start(now), events, j), events[j]).None?
  }

  /** The store shows the phase that was announced last, and `Connecting` before any. */
  lemma {:induction false} ConnectionIsTheLastAnnounced(cfg: Config, now: int, events: seq<Event>, n: nat)
    requires Legal(cfg, Start(now), events) && n <= |events| && !After(cfg, Start(now), events, n).c.disposed
    ensures var phase := After(cfg, Start(now), events, n).store.connection;
            && (forall k :: LastAnnounced(cfg, now, events, n, k) ==>
                  Announces(cfg, After(cfg, Start(now), events, k), events[k]) == Some(phase))
            && ((forall k :: !LastAnnounced(cfg, now, events, n, k)) ==> phase == Connecting)
    decreases n
  {
    if n > 0 {
      var m, start := n - 1, Start(now);
      var s := After(cfg, start, events, m);
      AfterNext(cfg, start, events, m);
      OpenBefore(cfg, now, events, m);
      ConnectionIsTheLastAnnounced(cfg, now, events, m);
      ConnectionStep(cfg, s, events[m]);
      if Announces(cfg, s, events[m]).Some? {
        assert LastAnnounced(cfg, now, events, n, m);
      } else {
        forall k
          ensures LastAnnounced(cfg, now, events, n, k) <==> LastAnnounced(cfg, now, events, m, k)
        {
        }
      }
    }
  }

  // ---------------------------------------------------------------------------------------------
  // Final stops and reconnects
  // ---------------------------------------------------------------------------------------------

  /** The server turns the client away for good: the held socket closes with 4403 or 4413. */
  ghost predicate TurnsAway(s: State, e: Event) {
    !s.c.disposed && e.SocketCloses? && s.c.socket == Some(e.id) && (e.code == 4403 || e.code == 4413)
  }

  ghost predicate StopsAt(cfg: Config, now: int, events: seq<Event>, n: nat, k: int)
    requires Legal(cfg, Start(now), events) && n <= |events|
  {
    && 0 <= k < n && TurnsAway(After(cfg, Start(now), events, k), events[k])
    && forall j :: k < j < n ==> !events[j].CallConnect?
  }

  lemma StopStep(cfg: Config, s: State, e: Event)
    requires Enabled(s, e) && !s.c.disposed && !e.CallClose?
    ensures Next(cfg, s, e).t.stopped <==> TurnsAway(s, e) || (s.t.stopped && !e.CallConnect?)
  {
  }

  /** The session has stopped for good exactly if it was turned away and not connected again since. */
  lemma {:induction false} StoppedExactlyWhenTurnedAway(cfg: Config, now: int, events: seq<Event>, n: nat)
    requires Legal(cfg, Start(now), events) && n <= |events| && !After(cfg, Start(now), events, n).c.disposed
    ensures After(cfg, Start(now), events, n).t.stopped <==> exists k :: StopsAt(cfg, now, events, n, k)
    decreases n
  {
    if n > 0 {
      var m, start := n - 1, Start(now);
      var s := After(cfg, start, events, m);
      AfterNext(cfg, start, events, m);
      OpenBefore(cfg, now, events, m);
      StoppedExactlyWhenTurnedAway(cfg, now, events, m);
      StopStep(cfg, s, events[m]);
      if TurnsAway(s, events[m]) {
        assert StopsAt(cfg, now, events, n, m);
      } else {
        forall k
          ensures StopsAt(cfg, now, events, n, k) <==>
                  StopsAt(cfg, now, events, m, k) && !events[m].CallConnect?
        {
        }
      }
    }
  }

  /** The reconnect schedule: one second, then twice as long each time, up to thirty. */
  ghost function Backoff(tries: nat): int {
    if tries == 0 then 1000 else if 2 * Backoff(tries - 1) < 30000 then 2 * Backoff(tries - 1) else 30000
  }

  lemma {:induction false} BackoffIsTheDelay(tries: nat)
    ensures ReconnectDelayMs(tries) == Backoff(tries)
  {
    if tries > 0 {
      BackoffIsTheDelay(tries - 1);
      assert Pow2(tries) == 2 * Pow2(tries - 1);
    }
  }

  /** How often the session was disconnected, and not for good, since a socket last opened. */
  ghost function Tries(cfg: Config, now: int, events: seq<Event>, n: nat): nat
    requires Legal(cfg, Start(now), events) && n <= |events|
  {
    if n == 0 then 0
    else if events[n - 1].SocketOpens? then 0
    else
      var s := After(cfg, Start(now), events, n - 1);
      Tries(cfg, now, events, n - 1) + One(Disconnects(cfg, s, events[n - 1]) && !TurnsAway(s, events[n - 1]))
  }

  lemma RetryStep(cfg: Config, s: State, e: Event)
    requires Enabled(s, e) && !s.c.disposed && !e.CallClose?
    ensures var after := Next(cfg, s, e);
            if Disconnects(cfg, s, e) then
              if TurnsAway(s, e) then after.c.reconnect == None && after.c.retryAttempt == s.c.retryAttempt
              else
                && after.c.reconnect == Some(s.b.now + ReconnectDelayMs(s.c.retryAttempt))
                && after.c.retryAttempt == s.c.retryAttempt + 1
            else
              && after.c.reconnect == (if e.ReconnectDue? then None else s.c.reconnect)
              && after.c.retryAttempt == if e.SocketOpens? then 0 else s.c.retryAttempt
  {
  }

  lemma {:induction false} TriesAreCounted(cfg: Config, now: int, events: seq<Event>, n: nat)
    requires Legal(cfg, Start(now), events) && n <= |events| && !After(cfg, Start(now), events, n).c.disposed
    ensures After(cfg, Start(now), events, n).c.retryAttempt == Tries(cfg, now, events, n)
    decreases n
  {
    if n > 0 {
      var m := n - 1;
      AfterNext(cfg, Start(now), events, m);
      OpenBefore(cfg, now, events, m);
      TriesAreCounted(cfg, now, events, m);
      RetryStep(cfg, After(cfg, Start(now), events, m), events[m]);
    }
  }

  /**
   * Reconnecting: every disconnect that is not for good sets the timer, after one second the first
   * time since a socket opened, then after twice as long each time, up to thirty seconds; one that
   * is for good leaves none; and until then the timer stays as it is, or fires.
   */
  lemma {:induction false} ReconnectsAreTimed(cfg: Config, now: int, events: seq<Event>, n: nat)
    requires Legal(cfg, Start(now), events) && n < |events| && !After(cfg, Start(now), events, n + 1).c.disposed
    ensures var s, after := After(cfg, Start(now), events, n), After(cfg, Start(now), events, n + 1);
            after.c.reconnect ==
            if TurnsAway(s, events[n]) || events[n].ReconnectDue? then None
            else if Disconnects(cfg, s, events[n]) then Some(s.b.now + Backoff(Tries(cfg, now, events, n)))
            else s.c.reconnect
  {
    var s := After(cfg, Start(now), events, n);
    AfterNext(cfg, Start(now), events, n);
    OpenBefore(cfg, now, events, n);
    RetryStep(cfg, s, events[n]);
    TriesAreCounted(cfg, now, events, n);
    BackoffIsTheDelay(s.c.retryAttempt);
  }

  // ---------------------------------------------------------------------------------------------
  // What the trace records
  // ---------------------------------------------------------------------------------------------

  ghost function Connects(events: seq<Event>, n: nat): nat
    requires n <= |events|
  {
    if n == 0 then 0 else Connects(events, n - 1) + One(events[n - 1].CallConnect?)
  }

  ghost function OpenEvents(events: seq<Event>, n: nat): nat
    requires n <= |events|
  {
    if n == 0 then 0 else OpenEvents(events, n - 1) + One(events[n - 1].SocketOpens?)
  }

  /** The cursors the user sent, with their times. */
  ghost function MovesOf(cfg: Config, now: int, events: seq<Event>, n: nat): seq<Move>
    requires Legal(cfg, Start(now), events) && n <= |events|
  {
    if n == 0 then []
    else
      var e := events[n - 1];
      MovesOf(cfg, now, events, n - 1) +
      if e.CallSendCursor? then [Move(After(cfg, Start(now), events, n - 1).b.now, e.cursor)] else []
  }

  lemma TraceStep(cfg: Config, s: State, e: Event)
    requires Enabled(s, e) && !s.c.disposed && !e.CallClose?
    ensures var after := Next(cfg, s, e);
            && after.t.connects == s.t.connects + One(e.CallConnect?)
            && after.t.opens == s.t.opens + One(e.SocketOpens?)
            && after.t.catchUps == s.t.catchUps + One(e.SocketOpens? && s.c.everConnected)
            && after.t.moves == s.t.moves + if e.CallSendCursor? then [Move(s.b.now, e.cursor)] else []
  {
    assert s.t.moves + [] == s.t.moves;
  }

  /**
   * The trace the run theorems speak of is that of the events: it counts the connects and the opens,
   * lists the cursors with their times, and the callback for a reconnect ran at every open but the first.
   */
  lemma {:induction false} TraceIsOfTheEvents(cfg: Config, now: int, events: seq<Event>, n: nat)
    requires Legal(cfg, Start(now), events) && n <= |events| && !After(cfg, Start(now), events, n).c.disposed
    ensures var t := After(cfg, Start(now), events, n).t;
            && t.connects == Connects(events, n) && t.opens == OpenEvents(events, n)
            && t.moves == MovesOf(cfg, now, events, n)
            && t.catchUps == if OpenEvents(events, n) == 0 then 0 else OpenEvents(events, n) - 1
    decreases n
  {
    GoodAfter(cfg, now, events, n);
    if n > 0 {
      AfterNext(cfg, Start(now), events, n - 1);
      OpenBefore(cfg, now, events, n - 1);
      TraceIsOfTheEvents(cfg, now, events, n - 1);
      TraceStep(cfg, After(cfg, Start(now), events, n - 1), events[n - 1]);
    }
  }

  // ---------------------------------------------------------------------------------------------
  // What is sent
  // ---------------------------------------------------------------------------------------------

  /** What a step has to say, if the socket is open: the throttled cursor, a selection, or that the user is idle. */
  ghost function Says(s: State, e: Event): seq<Payload> {
    if !IsOpen(s) || s.c.disposed then []
    else
      match e
      case ThrottleDue => if s.c.pendingCursor.Some? then [CursorSent(s.c.pendingCursor.value)] else []
      case CallSendSelection(selection) => [SelectionSent(selection, s.c.localStatus)]
      case SweepDue => if GoesIdle(s, e) then [IdleSent] else []
      case _ => []
  }

  /** A sweep finds that the user has been still for a minute, and has not said so yet. */
  ghost predicate GoesIdle(s: State, e: Event) {
    e.SweepDue? && s.c.localStatus == Active && s.b.now - s.c.lastPointerMoveAt >= 60000
  }

  /** Exactly this is sent, right away and only through an open socket. */
  lemma StepSends(cfg: Config, s: State, e: Event)
    requires Good(cfg, s) && Enabled(s, e)
    ensures Next(cfg, s, e).b.outbox == s.b.outbox + Says(s, e)
  {
    match e
    case ThrottleDue =>
    case CallSendSelection(selection) =>
    case SweepDue =>
    case _ =>
  }

  // ---------------------------------------------------------------------------------------------
  // Idleness
  // ---------------------------------------------------------------------------------------------

  /** The user moves, or a socket opens: idleness is counted from here. */
  ghost predicate Stirs(e: Event) {
    e.CallSendCursor? || e.SocketOpens?
  }

  /** The time idleness is counted from after the first `n` events. */
  ghost function StillSince(cfg: Config, now: int, events: seq<Event>, n: nat): int
    requires Legal(cfg, Start(now), events) && n <= |events|
  {
    if n == 0 then 0
    else if Stirs(events[n - 1]) then After(cfg, Start(now), events, n - 1).b.now
    else StillSince(cfg, now, events, n - 1)
  }

  lemma StatusStep(cfg: Config, s: State, e: Event)
    requires Enabled(s, e) && !s.c.disposed && !e.CallClose?
    ensures var after := Next(cfg, s, e);
            && after.c.lastPointerMoveAt == (if Stirs(e) then s.b.now else s.c.lastPointerMoveAt)
            && after.c.localStatus == if Stirs(e) then Active else if GoesIdle(s, e) then Idle else s.c.localStatus
  {
  }

  /** The sweep at `k` finds the user still for a minute, and nothing has stirred since. */
  ghost predicate IdleSince(cfg: Config, now: int, events: seq<Event>, n: nat, k: int)
    requires Legal(cfg, Start(now), events) && n <= |events|
  {
    && 0 <= k < n && events[k].SweepDue?
    && After(cfg, Start(now), events, k).b.now - StillSince(cfg, now, events, k) >= 60000
    && forall j :: k < j < n ==> !Stirs(events[j])
  }

  lemma {:induction false} StatusAfter(cfg: Config, now: int, events: seq<Event>, n: nat)
    requires Legal(cfg, Start(now), events) && n <= |events| && !After(cfg, Start(now), events, n).c.disposed
    ensures var s := After(cfg, Start(now), events, n);
            && s.c.lastPointerMoveAt == StillSince(cfg, now, events, n)
            && (s.c.localStatus == Idle <==> exists k :: IdleSince(cfg, now, events, n, k))
    decreases n
  {
    if n > 0 {
      var m, start := n - 1, Start(now);
      var s := After(cfg, start, events, m);
      AfterNext(cfg, start, events, m);
      OpenBefore(cfg, now, events, m);
      StatusAfter(cfg, now, events, m);
      StatusStep(cfg, s, events[m]);
      if GoesIdle(s, events[m]) {
        assert IdleSince(cfg, now, events, n, m);
      } else {
        IdleStays(cfg, now, events, m, n);
      }
    }
  }

  lemma {:induction false} IdleStays(cfg: Config, now: int, events: seq<Event>, m: nat, n: nat)
    requires Legal(cfg, Start(now), events) && m < n == m + 1 <= |events|
    ensures forall k :: k != m ==>
              (IdleSince(cfg, now, events, n, k) <==> IdleSince(cfg, now, events, m, k) && !Stirs(events[m]))
  {
  }

  /**
   * Idleness is announced once per stretch: a step says so exactly if it is a sweep, the socket is
   * open, nothing has stirred for a minute, and no earlier sweep has found that since.
   */
  lemma {:induction false} IdleIsSaidOnce(cfg: Config, now: int, events: seq<Event>, n: nat)
    requires Legal(cfg, Start(now), events) && n < |events| && !After(cfg, Start(now), events, n).c.disposed
    ensures var s, after := After(cfg, Start(now), events, n), After(cfg, Start(now), events, n + 1);
            after.b.outbox == s.b.outbox + [IdleSent] <==>
            && events[n].SweepDue? && IsOpen(s) && s.b.now - StillSince(cfg, now, events, n) >= 60000
            && forall k :: !IdleSince(cfg, now, events, n, k)
  {
    var s := After(cfg, Start(now), events, n);
    GoodAfter(cfg, now, events, n);
    AfterNext(cfg, Start(now), events, n);
    StepSends(cfg, s, events[n]);
    StatusAfter(cfg, now, events, n);
    var says := Says(s, events[n]);
    assert (s.b.outbox + says)[|s.b.outbox|..] == says;
    assert (s.b.outbox + [IdleSent])[|s.b.outbox|..] == [IdleSent];
  }

  // ---------------------------------------------------------------------------------------------
  // Sweeps
  // ---------------------------------------------------------------------------------------------

  /** A pending sweep is due a full interval after the last one. */
  ghost predicate SweepWaits(cfg: Config, now: int, events: seq<Event>, n: nat, k: nat)
    requires Legal(cfg, Start(now), events) && k < n <= |events|
  {
    var s, last := After(cfg, Start(now), events, n), After(cfg, Start(now), events, k).b.now;
    && last <= s.b.now
    && (s.c.sweep.Some? ==> last + 15000 <= s.c.sweep.value)
  }

  lemma SweepStep(cfg: Config, s: State, e: Event)
    requires Enabled(s, e)
    ensures var after := Next(cfg, s, e);
            && s.b.now <= after.b.now
            && (after.c.sweep.Some? ==>
                  if s.c.sweep.Some? && !e.SweepDue? then after.c.sweep == s.c.sweep
                  else after.c.sweep == Some(s.b.now + 15000))
  {
  }

  lemma {:induction false} SweepsWait(cfg: Config, now: int, events: seq<Event>, n: nat, k: nat)
    requires Legal(cfg, Start(now), events) && k < n <= |events| && events[k].SweepDue?
    ensures SweepWaits(cfg, now, events, n, k)
    decreases n
  {
    var m := n - 1;
    AfterNext(cfg, Start(now), events, m);
    SweepStep(cfg, After(cfg, Start(now), events, m), events[m]);
    if k < m {
      SweepsWait(cfg, now, events, m, k);
    }
  }

  /** Two sweeps are at least a full interval apart, whatever happens in between. */
  lemma {:induction false} SweepsKeepTheirInterval(cfg: Config, now: int, events: seq<Event>, k: nat, n: nat)
    requires Legal(cfg, Start(now), events) && k < n < |events| && events[k].SweepDue? && events[n].SweepDue?
    ensures After(cfg, Start(now), events, k).b.now + 15000 <= After(cfg, Start(now), events, n).b.now
  {
    SweepsWait(cfg, now, events, n, k);
    AfterNext(cfg, Start(now), events, n);
  }
}
