/** What holds of the presence session in every run. */
module PresenceRuns {
  import opened OrderedMaps
  import opened Presence

  function One(b: bool): nat { if b then 1 else 0 }

  // ---------------------------------------------------------------------------------------------
  // Never stuck, never doubled
  // ---------------------------------------------------------------------------------------------

  /** The ways in which the session is getting somewhere, or has been told to stop. */
  function Threads(s: State): nat {
    s.b.tickets + One(s.c.socket.Some?) + One(s.c.reconnect.Some?) + One(s.t.stopped)
  }

  ghost predicate HoldsSocket(s: State) {
    s.c.socket.Some? ==> s.c.socket.value < |s.b.sockets| && !s.b.sockets[s.c.socket.value].Closed?
  }

  ghost predicate Alive(s: State) {
    HoldsSocket(s) && (!s.c.disposed ==> One(s.t.connects > 0) <= Threads(s) <= s.t.connects)
  }

  lemma HoldsSocketStep(cfg: Config, s: State, e: Event)
    requires HoldsSocket(s) && Enabled(s, e)
    ensures HoldsSocket(Next(cfg, s, e))
  {
  }

  /** Losing a thread of activity to `MarkDisconnected` gains exactly one: a timer, or the stop. */
  lemma DisconnectedIsAlive(s: State, code: Option<int>)
    requires !s.c.disposed
    ensures var after := MarkDisconnected(s, code);
            && after.c.socket == s.c.socket && after.b == s.b && after.t.connects == s.t.connects
            && after.c.disposed == s.c.disposed
            && One(after.c.reconnect.Some?) + One(after.t.stopped) >= 1
            && One(after.c.reconnect.Some?) + One(after.t.stopped) <=
                 One(s.c.reconnect.Some?) + One(s.t.stopped) + 1
  {
  }

  /** A ticket reply takes one request away and gains one thread, or puts a socket in its place. */
  lemma AliveTicket(cfg: Config, s: State, granted: bool)
    requires Alive(s) && s.b.tickets > 0
    ensures Alive(if granted then TicketGranted(cfg, s) else TicketRefused(s))
  {
    if !s.c.disposed {
      DisconnectedIsAlive(s.(b := s.b.(tickets := s.b.tickets - 1)), None);
    }
  }

  lemma AliveSocket(s: State, id: nat, w: Wire, code: int)
    requires Alive(s) && id < |s.b.sockets| && (s.c.socket == Some(id) && w.Closed? ==> !s.b.sockets[id].Closed?)
    ensures w.Closed? ==> Alive(OnClose(SetWire(s, id, Closed), id, code))
    ensures w.Open? ==> Alive(OnOpen(SetWire(s, id, Open)))
  {
    if s.c.socket == Some(id) && !s.c.disposed {
      DisconnectedIsAlive(SetWire(s, id, Closed).(c := s.c.(socket := None)), Some(code));
    }
  }

  /** The steps that involve neither a ticket reply nor a change of a socket. */
  lemma AliveElse(cfg: Config, s: State, e: Event)
    requires Alive(s) && Enabled(s, e)
    requires !e.TicketNo? && !e.TicketYes? && !e.SocketCloses? && !e.SocketOpens?
    ensures Alive(Next(cfg, s, e))
  {
    HoldsSocketStep(cfg, s, e);
  }

  lemma AliveStep(cfg: Config, s: State, e: Event)
    requires Alive(s) && Enabled(s, e)
    ensures Alive(Next(cfg, s, e))
  {
    match e
    case TicketNo => AliveTicket(cfg, s, false);
    case TicketYes => AliveTicket(cfg, s, true);
    case SocketCloses(id, code) => AliveSocket(s, id, Closed, code);
    case SocketOpens(id) => AliveSocket(s, id, Open, 0);
    case _ => AliveElse(cfg, s, e);
  }

  /** Nothing is under way: no ticket request, no socket, no reconnect timer. */
  predicate Idling(s: State) {
    s.b.tickets == 0 && s.c.socket.None? && s.c.reconnect.None?
  }

  /** No step but a call of `connect()` starts a second thread, and that one does unless all is idle. */
  lemma ThreadsStep(cfg: Config, s: State, e: Event)
    requires Alive(s) && Enabled(s, e) && !s.c.disposed && !Next(cfg, s, e).c.disposed && Threads(s) <= 1
    ensures Threads(Next(cfg, s, e)) <= 1 <==> (e.CallConnect? ==> Idling(s))
  {
    match e
    case TicketNo => DisconnectedIsAlive(s.(b := s.b.(tickets := s.b.tickets - 1)), None);
    case TicketYes => DisconnectedIsAlive(s.(b := s.b.(tickets := s.b.tickets - 1)), None);
    case SocketCloses(id, code) =>
      DisconnectedIsAlive(SetWire(s, id, Closed).(c := s.c.(socket := None)), Some(code));
    case _ =>
  }

  // ---------------------------------------------------------------------------------------------
  // Backoff and catch-up
  // ---------------------------------------------------------------------------------------------

  /** The delays since the last open are the capped doubling schedule, and opens are counted right. */
  ghost predicate BackedOff(s: State) {
    && |s.t.delays| == s.c.retryAttempt
    && (forall i :: 0 <= i < |s.t.delays| ==> s.t.delays[i] == ReconnectDelayMs(i))
    && s.c.everConnected == (s.t.opens > 0)
    && s.t.catchUps + One(s.t.opens > 0) == s.t.opens
  }

  /** A step leaves the schedule alone, takes its next delay, or starts it anew with an open. */
  lemma BackoffStep(cfg: Config, s: State, e: Event)
    requires Enabled(s, e)
    ensures var after := Next(cfg, s, e);
            if after.t.opens == s.t.opens then
              && after.c.everConnected == s.c.everConnected && after.t.catchUps == s.t.catchUps
              && if after.c.retryAttempt == s.c.retryAttempt then after.t.delays == s.t.delays
                 else after.c.retryAttempt == s.c.retryAttempt + 1
                      && after.t.delays == s.t.delays + [ReconnectDelayMs(s.c.retryAttempt)]
            else
              && after.t.opens == s.t.opens + 1 && after.c.everConnected
              && after.t.catchUps == s.t.catchUps + One(s.c.everConnected)
              && after.c.retryAttempt == 0 && after.t.delays == []
  {
  }

  lemma BackedOffStep(cfg: Config, s: State, e: Event)
    requires BackedOff(s) && Enabled(s, e)
    ensures BackedOff(Next(cfg, s, e))
  {
    BackoffStep(cfg, s, e);
  }

  lemma {:induction false} Pow2Grows(i: nat, j: nat)
    requires i <= j
    ensures 1 <= Pow2(i) <= Pow2(j)
    decreases j
  {
    if i < j {
      Pow2Grows(i, j - 1);
    } else if 0 < i {
      Pow2Grows(i - 1, j - 1);
    }
  }

  /** Between two opens no delay is shorter than an earlier one, and all lie in [1 s, 30 s]. */
  lemma DelaysGrowAndStayBounded(s: State, i: nat, j: nat)
    requires BackedOff(s) && i <= j < |s.t.delays|
    ensures 1000 <= s.t.delays[i] <= s.t.delays[j] <= 30000
  {
    Pow2Grows(i, j);
  }

  // ---------------------------------------------------------------------------------------------
  // The trailing throttle
  // ---------------------------------------------------------------------------------------------

  /** The part of the state a cursor passes through on its way out. */
  datatype Pipe = Pipe(now: int, throttle: Option<int>, pending: Option<Cursor>,
                       moves: seq<Move>, posts: seq<Post>, superseded: nat, dropped: nat)

  function PipeOf(s: State): Pipe {
    Pipe(s.b.now, s.c.throttle, s.c.pendingCursor, s.t.moves, s.t.posts, s.t.superseded, s.t.dropped)
  }

  function PipeMove(p: Pipe, cursor: Cursor): Pipe {
    p.(throttle := if p.throttle.Some? then p.throttle else Some(p.now + CURSOR_THROTTLE_MS),
       pending := Some(cursor),
       moves := p.moves + [Move(p.now, cursor)],
       superseded := p.superseded + One(p.pending.Some?))
  }

  function PipeClear(p: Pipe): Pipe {
    p.(throttle := None, pending := None, dropped := p.dropped + One(p.pending.Some?))
  }

  function PipeFire(p: Pipe, open: bool): Pipe {
    if open && p.pending.Some?
    then p.(throttle := None, pending := None, posts := p.posts + [Post(p.now, p.pending.value, |p.moves|)])
    else PipeClear(p)
  }

  ghost predicate PipeChange(p: Pipe, after: Pipe) {
    || after == p
    || after == PipeClear(p)
    || (exists cursor :: after == PipeMove(p, cursor))
    || (Due(p.throttle, p.now) && exists open :: after == PipeFire(p, open))
    || (after.now >= p.now && after == p.(now := after.now))
  }

  /** The steps that stop the throttle: `close()`, a ticket refused or of no use, the held socket gone. */
  predicate Disconnects(cfg: Config, s: State, e: Event) {
    match e
    case CallClose => true
    case TicketNo => !s.c.disposed
    case TicketYes => !s.c.disposed && !cfg.hasWebSocket
    case SocketCloses(id, _) => !s.c.disposed && s.c.socket == Some(id)
    case _ => false
  }

  lemma PipeStopped(cfg: Config, s: State, e: Event)
    requires Enabled(s, e) && Disconnects(cfg, s, e)
    ensures PipeOf(Next(cfg, s, e)) == PipeClear(PipeOf(s))
  {
  }

  lemma PipeKept(cfg: Config, s: State, e: Event)
    requires Enabled(s, e) && !Disconnects(cfg, s, e)
    requires !e.CallSendCursor? && !e.ThrottleDue? && !e.TimePasses?
    ensures PipeOf(Next(cfg, s, e)) == PipeOf(s)
  {
  }

  /** Whatever happens, the pipe takes a cursor, empties, or waits. */
  lemma PipeStep(cfg: Config, s: State, e: Event)
    requires Enabled(s, e)
    ensures PipeChange(PipeOf(s), PipeOf(Next(cfg, s, e)))
    ensures !e.TimePasses? ==> Next(cfg, s, e).b.now == s.b.now
  {
    if Disconnects(cfg, s, e) {
      PipeStopped(cfg, s, e);
    } else if e.CallSendCursor? {
      assert PipeOf(Next(cfg, s, e)) == if s.c.disposed then PipeOf(s) else PipeMove(PipeOf(s), e.cursor);
    } else if e.ThrottleDue? {
      assert PipeOf(Next(cfg, s, e)) == PipeFire(PipeOf(s), CanPublish(s));
    } else if !e.TimePasses? {
      PipeKept(cfg, s, e);
    }
  }

  /** The steps that lose the pending cursor: the throttle is stopped, or fires while no socket is open. */
  predicate Loses(cfg: Config, s: State, e: Event) {
    s.c.pendingCursor.Some? && (Disconnects(cfg, s, e) || (e.ThrottleDue? && !CanPublish(s)))
  }

  lemma LossStep(cfg: Config, s: State, e: Event)
    requires Enabled(s, e)
    ensures Next(cfg, s, e).t.dropped == s.t.dropped + One(Loses(cfg, s, e))
  {
    if Disconnects(cfg, s, e) {
      PipeStopped(cfg, s, e);
    } else if !e.CallSendCursor? && !e.ThrottleDue? && !e.TimePasses? {
      PipeKept(cfg, s, e);
    }
  }

  /** Every cursor was published, superseded or dropped, or is the one still pending. */
  ghost predicate Accounted(p: Pipe) {
    && |p.moves| == |p.posts| + p.superseded + p.dropped + One(p.pending.Some?)
    && (p.throttle.Some? <==> p.pending.Some?)
    && (p.pending.Some? ==> p.moves != [] && p.moves[|p.moves| - 1].cursor == p.pending.value)
  }

  /** Publications keep their distance, and a pending one will. */
  ghost predicate Spaced(p: Pipe) {
    && (forall k :: 0 <= k < |p.posts| - 1 ==> p.posts[k].time + 50 <= p.posts[k + 1].time)
    && (p.posts != [] ==> p.posts[|p.posts| - 1].time <= p.now)
    && (p.posts != [] && p.throttle.Some? ==>
          p.posts[|p.posts| - 1].time + 50 <= p.throttle.value)
  }

  ghost predicate Carries(moves: seq<Move>, post: Post) {
    0 < post.moves <= |moves| && post.cursor == moves[post.moves - 1].cursor
  }

  /** Each publication carries the latest move there was when it went out, and none goes out twice. */
  ghost predicate Latest(p: Pipe) {
    && (forall k :: 0 <= k < |p.posts| ==> Carries(p.moves, p.posts[k]))
    && (forall j, k :: 0 <= j < k < |p.posts| ==> p.posts[j].moves < p.posts[k].moves)
    && (forall k :: 0 <= k < |p.posts| ==> p.posts[k].moves + One(p.pending.Some?) <= |p.moves|)
  }

  /** No cursor waits longer than a window, plus what the browser's timers are late. */
  ghost predicate Prompt(p: Pipe, lateness: nat) {
    && (p.moves != [] ==> p.moves[|p.moves| - 1].time <= p.now)
    && (p.throttle.Some? ==>
          p.moves != [] && p.throttle.value <= p.moves[|p.moves| - 1].time + CURSOR_THROTTLE_MS
          && p.now <= p.throttle.value + lateness)
    && (forall k :: 0 <= k < |p.posts| ==>
          0 < p.posts[k].moves <= |p.moves|
          && p.posts[k].time <= p.moves[p.posts[k].moves - 1].time + CURSOR_THROTTLE_MS + lateness)
  }

  lemma ChangeKeepsAccounted(p: Pipe, after: Pipe)
    requires Accounted(p) && PipeChange(p, after)
    ensures Accounted(after)
  {
  }

  lemma ChangeKeepsSpaced(p: Pipe, after: Pipe)
    requires Spaced(p) && PipeChange(p, after)
    ensures Spaced(after)
  {
  }

  lemma ChangeKeepsLatest(p: Pipe, after: Pipe)
    requires Accounted(p) && Latest(p) && PipeChange(p, after)
    ensures Latest(after)
  {
    forall k | 0 <= k < |p.posts|
      ensures Carries(after.moves, p.posts[k])
    {
      assert Carries(p.moves, p.posts[k]);
    }
  }

  lemma ChangeKeepsPrompt(p: Pipe, after: Pipe, lateness: nat)
    requires Accounted(p) && Prompt(p, lateness) && PipeChange(p, after)
    requires after.now == p.now || OnTime(p.throttle, after.now, lateness)
    ensures Prompt(after, lateness)
  {
  }

  /** A timer never waits for longer than a window, so a running one is not set again. */
  ghost predicate Soon(p: Pipe) {
    && (p.throttle.Some? ==> p.throttle.value <= p.now + CURSOR_THROTTLE_MS)
    && (forall k :: 0 <= k < |p.moves| ==> p.moves[k].time <= p.now)
  }

  lemma ChangeKeepsSoon(p: Pipe, after: Pipe)
    requires Soon(p) && PipeChange(p, after)
    ensures Soon(after)
  {
  }

  /** Move number `k`, or a later one, has gone out by the given time. */
  ghost predicate GoneOut(posts: seq<Post>, k: nat, limit: int) {
    exists j :: 0 <= j < |posts| && posts[j].moves > k && posts[j].time <= limit
  }

  /** Move number `k`, or a later one, waits for a timer that is due in time, and it is not too late. */
  ghost predicate Waiting(p: Pipe, k: nat, due: int, lateness: nat) {
    && p.throttle.Some? && p.throttle.value <= due && p.now <= due + lateness
    && p.pending.Some? && k < |p.moves|
  }

  ghost predicate OnItsWay(p: Pipe, k: nat, due: int, lateness: nat) {
    GoneOut(p.posts, k, due + lateness) || Waiting(p, k, due, lateness)
  }

  lemma GoneOutStays(posts: seq<Post>, more: seq<Post>, k: nat, limit: int)
    requires posts <= more && GoneOut(posts, k, limit)
    ensures GoneOut(more, k, limit)
  {
    var j :| 0 <= j < |posts| && posts[j].moves > k && posts[j].time <= limit;
    assert more[j] == posts[j];
  }

  /** A change that loses no cursor leaves each of them on its way. */
  lemma ChangeKeepsOnItsWay(p: Pipe, after: Pipe, k: nat, due: int, lateness: nat)
    requires Accounted(p) && PipeChange(p, after) && after.dropped == p.dropped
    requires after.now == p.now || OnTime(p.throttle, after.now, lateness)
    requires OnItsWay(p, k, due, lateness)
    ensures OnItsWay(after, k, due, lateness)
  {
    if GoneOut(p.posts, k, due + lateness) {
      GoneOutStays(p.posts, after.posts, k, due + lateness);
    } else if after.throttle.None? {
      assert after == PipeFire(p, true);
      assert after.posts[|p.posts|] == Post(p.now, p.pending.value, |p.moves|);
    }
  }

  /** The cursors among the messages, in the order they went out. */
  function CursorsSent(outbox: seq<Payload>): seq<Cursor> {
    if outbox == [] then []
    else
      var n := |outbox| - 1;
      CursorsSent(outbox[..n]) + if outbox[n].CursorSent? then [outbox[n].cursor] else []
  }

  function CursorsOf(posts: seq<Post>): seq<Cursor> {
    seq(|posts|, i requires 0 <= i < |posts| => posts[i].cursor)
  }

  lemma {:induction false} SentNext(outbox: seq<Payload>, p: Payload)
    ensures CursorsSent(outbox + [p]) == CursorsSent(outbox) + if p.CursorSent? then [p.cursor] else []
  {
    assert (outbox + [p])[..|outbox|] == outbox;
  }

  /** A step sends at most one message, and a cursor exactly when it records a publication. */
  lemma SendStep(cfg: Config, s: State, e: Event)
    requires Enabled(s, e)
    ensures var after := Next(cfg, s, e);
            if e.ThrottleDue? && s.c.pendingCursor.Some? && CanPublish(s) then
              var cursor := s.c.pendingCursor.value;
              && after.b.outbox == s.b.outbox + [CursorSent(cursor)]
              && after.t.posts == s.t.posts + [Post(s.b.now, cursor, |s.t.moves|)]
            else
              && after.t.posts == s.t.posts
              && (after.b.outbox == s.b.outbox
                  || exists p: Payload :: !p.CursorSent? && after.b.outbox == s.b.outbox + [p])
  {
    match e
    case CallSendSelection(selection) =>
      assert !SelectionSent(selection, s.c.localStatus).CursorSent?;
    case SweepDue =>
      assert !IdleSent.CursorSent?;
    case _ =>
  }

  /** The cursor messages are the recorded publications, in their order. */
  ghost predicate Sent(s: State) {
    CursorsSent(s.b.outbox) == CursorsOf(s.t.posts)
  }

  lemma SentStep(cfg: Config, s: State, e: Event)
    requires Sent(s) && Enabled(s, e)
    ensures Sent(Next(cfg, s, e))
  {
    var after := Next(cfg, s, e);
    SendStep(cfg, s, e);
    if e.ThrottleDue? && s.c.pendingCursor.Some? && CanPublish(s) {
      SentNext(s.b.outbox, CursorSent(s.c.pendingCursor.value));
      assert CursorsOf(after.t.posts) == CursorsOf(s.t.posts) + [s.c.pendingCursor.value];
    } else if after.b.outbox != s.b.outbox {
      var p: Payload :| !p.CursorSent? && after.b.outbox == s.b.outbox + [p];
      SentNext(s.b.outbox, p);
    }
  }

  // ---------------------------------------------------------------------------------------------
  // Remote collaborators
  // ---------------------------------------------------------------------------------------------

  /** Only other, named users are shown, each under its own id. */
  ghost predicate OnlyOthers(cfg: Config, s: State) {
    forall k :: k in s.store.remotes ==>
      k != cfg.selfUserId && k != "" && s.store.remotes[k].senderId == k
  }

  lemma OnlyOthersStep(cfg: Config, s: State, e: Event)
    requires OnlyOthers(cfg, s) && Enabled(s, e)
    ensures OnlyOthers(cfg, Next(cfg, s, e))
  {
  }

  /** Every socket but the one that is held is closed. */
  ghost predicate OneSocket(s: State) {
    !s.c.disposed ==>
      forall id :: 0 <= id < |s.b.sockets| && !s.b.sockets[id].Closed? ==> s.c.socket == Some(id)
  }

  lemma OneSocketStep(cfg: Config, s: State, e: Event)
    requires Alive(s) && OneSocket(s) && Enabled(s, e) && (!s.c.disposed ==> Threads(s) <= 1)
    ensures OneSocket(Next(cfg, s, e))
  {
  }

  ghost predicate IsOpen(s: State) {
    s.c.socket.Some? && s.c.socket.value < |s.b.sockets| && s.b.sockets[s.c.socket.value].Open?
  }

  /** Remotes are shown only while a socket is held, and then a sweep is scheduled. */
  ghost predicate Swept(s: State) {
    && (IsOpen(s) ==> s.c.sweep.Some?)
    && (s.store.remotes != map[] ==> s.c.socket.Some? && s.c.sweep.Some?)
  }

  lemma SweptStep(cfg: Config, s: State, e: Event)
    requires Alive(s) && OneSocket(s) && Swept(s) && Enabled(s, e)
    requires s.c.disposed ==> Quiet(s)
    requires !s.c.disposed ==> Threads(s) <= 1
    ensures Swept(Next(cfg, s, e))
  {
  }

  /** What is shown was seen less than the stale limit before the last sweep was scheduled. */
  ghost predicate Fresh(s: State) {
    s.c.sweep.Some? ==>
      && s.c.sweep.value <= s.b.now + SWEEP_INTERVAL_MS
      && forall k :: k in s.store.remotes ==>
           s.store.remotes[k].lastSeenAt >= s.c.sweep.value - SWEEP_INTERVAL_MS - STALE_REMOTE_AFTER_MS
  }

  lemma FreshStep(cfg: Config, s: State, e: Event)
    requires Swept(s) && Fresh(s) && Enabled(s, e)
    requires s.c.disposed ==> Quiet(s)
    ensures Fresh(Next(cfg, s, e))
  {
  }

  // ---------------------------------------------------------------------------------------------
  // After close()
  // ---------------------------------------------------------------------------------------------

  ghost predicate Quiet(s: State) {
    && s.c.disposed && s.c.socket.None? && s.c.pendingCursor.None?
    && s.c.throttle.None? && s.c.sweep.None? && s.c.reconnect.None?
    && s.store == Store(Disconnected, map[])
  }

  /** Whatever the state, `close()` silences it, and lets go of an open socket. */
  lemma CloseIsQuiet(s: State)
    ensures Quiet(Close(s))
    ensures IsOpen(s) ==> Close(s).b.sockets[s.c.socket.value].Closing?
    ensures |Close(s).b.sockets| == |s.b.sockets| && Close(s).b.outbox == s.b.outbox
  {
  }

  lemma QuietStep(cfg: Config, s: State, e: Event)
    requires Quiet(s) && Enabled(s, e)
    ensures Quiet(Next(cfg, s, e))
    ensures |Next(cfg, s, e).b.sockets| == |s.b.sockets|
    ensures Next(cfg, s, e).b.outbox == s.b.outbox
    ensures Next(cfg, s, e).b.tickets <= s.b.tickets
  {
  }

  // ---------------------------------------------------------------------------------------------
  // Whole runs
  // ---------------------------------------------------------------------------------------------

  ghost predicate Good(cfg: Config, s: State) {
    && Alive(s) && BackedOff(s) && OnlyOthers(cfg, s)
    && Accounted(PipeOf(s)) && Spaced(PipeOf(s)) && Latest(PipeOf(s)) && Soon(PipeOf(s)) && Sent(s)
    && (s.c.disposed ==> Quiet(s))
  }

  lemma GoodStep(cfg: Config, s: State, e: Event)
    requires Good(cfg, s) && Enabled(s, e)
    ensures Good(cfg, Next(cfg, s, e))
  {
    var after := Next(cfg, s, e);
    AliveStep(cfg, s, e);
    BackedOffStep(cfg, s, e);
    OnlyOthersStep(cfg, s, e);
    PipeStep(cfg, s, e);
    ChangeKeepsAccounted(PipeOf(s), PipeOf(after));
    ChangeKeepsSpaced(PipeOf(s), PipeOf(after));
    ChangeKeepsLatest(PipeOf(s), PipeOf(after));
    ChangeKeepsSoon(PipeOf(s), PipeOf(after));
    SentStep(cfg, s, e);
    DisposalStep(cfg, s, e);
  }

  lemma DisposalStep(cfg: Config, s: State, e: Event)
    requires s.c.disposed ==> Quiet(s)
    requires Enabled(s, e)
    ensures Next(cfg, s, e).c.disposed ==> Quiet(Next(cfg, s, e))
    ensures Next(cfg, s, e).c.disposed <==> s.c.disposed || e.CallClose?
  {
    if s.c.disposed {
      QuietStep(cfg, s, e);
    } else if e.CallClose? {
      CloseIsQuiet(s);
    }
  }

  lemma {:induction false} GoodRun(cfg: Config, s: State, events: seq<Event>)
    requires Good(cfg, s) && Legal(cfg, s, events)
    ensures Good(cfg, Run(cfg, s, events))
    decreases |events|
  {
    if events != [] {
      GoodStep(cfg, s, events[0]);
      GoodRun(cfg, Next(cfg, s, events[0]), events[1..]);
    }
  }

  lemma StartIsGood(cfg: Config, now: int)
    ensures Good(cfg, Start(now))
  {
  }

  /** At every point of the run before a close there is at most one thread. */
  predicate NeverDoubled(cfg: Config, s: State, events: seq<Event>)
    requires Legal(cfg, s, events)
    decreases |events|
  {
    && (!s.c.disposed ==> Threads(s) <= 1)
    && (events == [] || NeverDoubled(cfg, Next(cfg, s, events[0]), events[1..]))
  }

  /** Every `connect()` of the run, up to a close, is called while nothing is under way. */
  predicate ConnectsWhenIdle(cfg: Config, s: State, events: seq<Event>)
    requires Legal(cfg, s, events)
    decreases |events|
  {
    events == [] ||
    ((!s.c.disposed && events[0].CallConnect? ==> Idling(s))
     && ConnectsWhenIdle(cfg, Next(cfg, s, events[0]), events[1..]))
  }

  lemma {:induction false} NeverDoubledFrom(cfg: Config, s: State, events: seq<Event>)
    requires Good(cfg, s) && Legal(cfg, s, events) && (!s.c.disposed ==> Threads(s) <= 1)
    ensures NeverDoubled(cfg, s, events) <==> ConnectsWhenIdle(cfg, s, events)
    decreases |events|
  {
    if events != [] {
      var after := Next(cfg, s, events[0]);
      GoodStep(cfg, s, events[0]);
      DisposalStep(cfg, s, events[0]);
      if !after.c.disposed {
        ThreadsStep(cfg, s, events[0]);
      }
      if !after.c.disposed && Threads(after) > 1 {
        assert !NeverDoubled(cfg, after, events[1..]);
      } else {
        NeverDoubledFrom(cfg, after, events[1..]);
      }
    }
  }

  /**
   * Exactly when a session is never doubled: in every run there is at most one ticket request,
   * held socket, reconnect timer or final stop at every point before a close, if and only if
   * `connect()` is only called while nothing is under way. (It may be called again after a stop.)
   */
  lemma {:induction false} NeverDoubledExactlyWhenConnectingIdle(cfg: Config, now: int, events: seq<Event>)
    requires Legal(cfg, Start(now), events)
    ensures NeverDoubled(cfg, Start(now), events) <==> ConnectsWhenIdle(cfg, Start(now), events)
  {
    StartIsGood(cfg, now);
    NeverDoubledFrom(cfg, Start(now), events);
  }

  lemma {:induction false} NeverDoubledAtTheEnd(cfg: Config, s: State, events: seq<Event>)
    requires Legal(cfg, s, events) && NeverDoubled(cfg, s, events)
    ensures !Run(cfg, s, events).c.disposed ==> Threads(Run(cfg, s, events)) <= 1
    decreases |events|
  {
    if events != [] {
      NeverDoubledAtTheEnd(cfg, Next(cfg, s, events[0]), events[1..]);
    }
  }

  /**
   * Never stuck: in every run, once connected and until closed, at least one thread is there, and
   * at most as many as there were connects. There is exactly one if every connect was called idle.
   */
  lemma {:induction false} NeverStuckNeverDoubled(cfg: Config, now: int, events: seq<Event>)
    requires Legal(cfg, Start(now), events)
    ensures var s := Run(cfg, Start(now), events);
            !s.c.disposed && s.t.connects > 0 ==>
              && 1 <= Threads(s) <= s.t.connects
              && (ConnectsWhenIdle(cfg, Start(now), events) ==> Threads(s) == 1)
  {
    StartIsGood(cfg, now);
    GoodRun(cfg, Start(now), events);
    NeverDoubledExactlyWhenConnectingIdle(cfg, now, events);
    if ConnectsWhenIdle(cfg, Start(now), events) {
      NeverDoubledAtTheEnd(cfg, Start(now), events);
    }
  }

  /** Putting an event in front of a run. */
  lemma {:induction false} RunFirst(cfg: Config, s: State, e: Event, events: seq<Event>)
    requires Enabled(s, e) && Legal(cfg, Next(cfg, s, e), events)
    ensures Legal(cfg, s, [e] + events)
    ensures Run(cfg, s, [e] + events) == Run(cfg, Next(cfg, s, e), events)
  {
    assert ([e] + events)[1..] == events;
  }

  lemma {:induction false} TwoTicketsMakeTwoSockets(cfg: Config, s: State)
    requires cfg.hasWebSocket && !s.c.disposed && s.b.tickets == 2 && s.b.sockets == []
    ensures var events := [TicketYes, TicketYes, SocketOpens(0), SocketOpens(1)];
            && Legal(cfg, s, events)
            && Run(cfg, s, events).b.sockets == [Open, Open]
            && Run(cfg, s, events).c.socket == Some(1)
  {
    var s1 := Next(cfg, s, TicketYes);
    var s2 := Next(cfg, s1, TicketYes);
    var s3 := Next(cfg, s2, SocketOpens(0));
    RunFirst(cfg, s3, SocketOpens(1), []);
    RunFirst(cfg, s2, SocketOpens(0), [SocketOpens(1)]);
    RunFirst(cfg, s1, TicketYes, [SocketOpens(0), SocketOpens(1)]);
    RunFirst(cfg, s, TicketYes, [TicketYes, SocketOpens(0), SocketOpens(1)]);
  }

  /** What doubling looks like: a second connect leaves an open socket behind that nobody holds. */
  lemma {:induction false} ConnectingTwiceDoubles(cfg: Config, now: int)
    requires cfg.hasWebSocket
    ensures var events := [CallConnect, CallConnect, TicketYes, TicketYes, SocketOpens(0), SocketOpens(1)];
            && Legal(cfg, Start(now), events)
            && Run(cfg, Start(now), events).b.sockets == [Open, Open]
            && Run(cfg, Start(now), events).c.socket == Some(1)
  {
    var s1 := Next(cfg, Start(now), CallConnect);
    var s2 := Next(cfg, s1, CallConnect);
    var rest := [TicketYes, TicketYes, SocketOpens(0), SocketOpens(1)];
    TwoTicketsMakeTwoSockets(cfg, s2);
    RunFirst(cfg, s1, CallConnect, rest);
    RunFirst(cfg, Start(now), CallConnect, [CallConnect] + rest);
  }

  /** The reconnect schedule and the catch-up count, in every run. */
  lemma {:induction false} ReconnectsBackOff(cfg: Config, now: int, events: seq<Event>)
    requires Legal(cfg, Start(now), events)
    ensures var t := Run(cfg, Start(now), events).t;
            && (forall i :: 0 <= i < |t.delays| ==> 1000 <= t.delays[i] <= 30000)
            && (t.delays != [] ==> t.delays[0] == 1000)
            && (forall i :: 0 < i < |t.delays| ==>
                  t.delays[i] == if 2 * t.delays[i - 1] < 30000 then 2 * t.delays[i - 1] else 30000)
            && (forall i, j :: 0 <= i <= j < |t.delays| ==> t.delays[i] <= t.delays[j])
            && t.catchUps == if t.opens == 0 then 0 else t.opens - 1
  {
    StartIsGood(cfg, now);
    GoodRun(cfg, Start(now), events);
    var s := Run(cfg, Start(now), events);
    forall i, j | 0 <= i <= j < |s.t.delays|
      ensures 1000 <= s.t.delays[i] <= s.t.delays[j] <= 30000
    {
      DelaysGrowAndStayBounded(s, i, j);
    }
  }

  /**
   * The throttle, in every run: publications are at least a window apart, each carries the latest
   * cursor there was, no cursor goes out twice, none is unaccounted for, and the cursor messages
   * are the publications.
   */
  lemma {:induction false} CursorsAreThrottled(cfg: Config, now: int, events: seq<Event>)
    requires Legal(cfg, Start(now), events)
    ensures var s := Run(cfg, Start(now), events);
            && Spaced(PipeOf(s)) && Latest(PipeOf(s)) && Accounted(PipeOf(s)) && Sent(s)
  {
    StartIsGood(cfg, now);
    GoodRun(cfg, Start(now), events);
  }

  /** No step of the run stops the throttle, or lets it fire into no open socket, while a cursor is pending. */
  predicate LossFree(cfg: Config, s: State, events: seq<Event>)
    requires Legal(cfg, s, events)
    decreases |events|
  {
    events == [] || (!Loses(cfg, s, events[0]) && LossFree(cfg, Next(cfg, s, events[0]), events[1..]))
  }

  lemma {:induction false} DroppedExactlyByLosses(cfg: Config, s: State, events: seq<Event>)
    requires Legal(cfg, s, events)
    ensures s.t.dropped <= Run(cfg, s, events).t.dropped
    ensures s.t.dropped == Run(cfg, s, events).t.dropped <==> LossFree(cfg, s, events)
    decreases |events|
  {
    if events != [] {
      LossStep(cfg, s, events[0]);
      DroppedExactlyByLosses(cfg, Next(cfg, s, events[0]), events[1..]);
    }
  }

  /**
   * Exactly when no cursor is lost: in every run each cursor is published, superseded or still
   * pending if and only if, while one is pending, the throttle is neither stopped nor fires without
   * an open socket.
   */
  lemma {:induction false} NothingIsLostExactlyInLossFreeRuns(cfg: Config, now: int, events: seq<Event>)
    requires Legal(cfg, Start(now), events)
    ensures var s := Run(cfg, Start(now), events);
            LossFree(cfg, Start(now), events) <==>
            |s.t.moves| == |s.t.posts| + s.t.superseded + One(s.c.pendingCursor.Some?)
  {
    CursorsAreThrottled(cfg, now, events);
    DroppedExactlyByLosses(cfg, Start(now), events);
  }

  /** Once closed, nothing happens any more, whatever is called and whatever still arrives. */
  lemma {:induction false} QuietForever(cfg: Config, s: State, events: seq<Event>)
    requires Quiet(s) && Legal(cfg, s, events)
    ensures var after := Run(cfg, s, events);
            && Quiet(after)
            && |after.b.sockets| == |s.b.sockets|
            && after.b.outbox == s.b.outbox
            && after.b.tickets <= s.b.tickets
    decreases |events|
  {
    if events != [] {
      QuietStep(cfg, s, events[0]);
      QuietForever(cfg, Next(cfg, s, events[0]), events[1..]);
    }
  }

  /** From any state at all: after `close()` no socket, no message, no timer, no remote. */
  lemma {:induction false} QuiescenceAfterClose(cfg: Config, s: State, events: seq<Event>)
    requires Legal(cfg, Close(s), events)
    ensures var after := Run(cfg, Close(s), events);
            && Quiet(after)
            && |after.b.sockets| == |s.b.sockets|
            && after.b.outbox == s.b.outbox
  {
    CloseIsQuiet(s);
    QuietForever(cfg, Close(s), events);
  }

  /** In every run a closed client is quiet. */
  lemma {:induction false} ClosedIsQuiet(cfg: Config, now: int, events: seq<Event>)
    requires Legal(cfg, Start(now), events)
    ensures Run(cfg, Start(now), events).c.disposed ==> Quiet(Run(cfg, Start(now), events))
  {
    StartIsGood(cfg, now);
    GoodRun(cfg, Start(now), events);
  }

  // ---------------------------------------------------------------------------------------------
  // Runs with timers that are never more than `lateness` late
  // ---------------------------------------------------------------------------------------------

  predicate Timely(cfg: Config, s: State, events: seq<Event>, lateness: nat)
    requires Legal(cfg, s, events)
    decreases |events|
  {
    events == [] ||
    ((events[0].TimePasses? ==>
        OnTime(s.c.throttle, events[0].to, lateness) && OnTime(s.c.sweep, events[0].to, lateness))
     && Timely(cfg, Next(cfg, s, events[0]), events[1..], lateness))
  }

  /** Every timer of the throttle and the sweep fires in time, and cursors move on promptly. */
  ghost predicate PromptSoFar(cfg: Config, s: State, lateness: nat) {
    Good(cfg, s) && Prompt(PipeOf(s), lateness)
  }

  ghost predicate FreshSoFar(s: State, lateness: nat) {
    OneSocket(s) && Swept(s) && Fresh(s) && OnTime(s.c.sweep, s.b.now, lateness)
  }

  lemma PromptStep(cfg: Config, s: State, e: Event, lateness: nat)
    requires PromptSoFar(cfg, s, lateness) && Enabled(s, e)
    requires e.TimePasses? ==> OnTime(s.c.throttle, e.to, lateness)
    ensures PromptSoFar(cfg, Next(cfg, s, e), lateness)
  {
    GoodStep(cfg, s, e);
    PipeStep(cfg, s, e);
    ChangeKeepsPrompt(PipeOf(s), PipeOf(Next(cfg, s, e)), lateness);
  }

  lemma FreshSoFarStep(cfg: Config, s: State, e: Event, lateness: nat)
    requires Good(cfg, s) && FreshSoFar(s, lateness) && Enabled(s, e) && (!s.c.disposed ==> Threads(s) <= 1)
    requires e.TimePasses? ==> OnTime(s.c.sweep, e.to, lateness)
    ensures FreshSoFar(Next(cfg, s, e), lateness)
  {
    OneSocketStep(cfg, s, e);
    SweptStep(cfg, s, e);
    FreshStep(cfg, s, e);
    SweepOnTimeStep(cfg, s, e, lateness);
  }

  lemma SweepOnTimeStep(cfg: Config, s: State, e: Event, lateness: nat)
    requires OnTime(s.c.sweep, s.b.now, lateness) && Enabled(s, e)
    requires e.TimePasses? ==> OnTime(s.c.sweep, e.to, lateness)
    ensures OnTime(Next(cfg, s, e).c.sweep, Next(cfg, s, e).b.now, lateness)
  {
  }

  lemma {:induction false} PromptRun(cfg: Config, s: State, events: seq<Event>, lateness: nat)
    requires PromptSoFar(cfg, s, lateness) && Legal(cfg, s, events) && Timely(cfg, s, events, lateness)
    ensures PromptSoFar(cfg, Run(cfg, s, events), lateness)
    decreases |events|
  {
    if events != [] {
      PromptStep(cfg, s, events[0], lateness);
      PromptRun(cfg, Next(cfg, s, events[0]), events[1..], lateness);
    }
  }

  lemma {:induction false} FreshRun(cfg: Config, s: State, events: seq<Event>, lateness: nat)
    requires Good(cfg, s) && FreshSoFar(s, lateness) && Legal(cfg, s, events) && Timely(cfg, s, events, lateness)
    requires NeverDoubled(cfg, s, events)
    ensures FreshSoFar(Run(cfg, s, events), lateness)
    decreases |events|
  {
    if events != [] {
      GoodStep(cfg, s, events[0]);
      FreshSoFarStep(cfg, s, events[0], lateness);
      FreshRun(cfg, Next(cfg, s, events[0]), events[1..], lateness);
    }
  }

  /**
   * With timers at most `lateness` late, whoever calls what: every published cursor was at most
   * one throttle window plus that old, and the pending one is no older.
   */
  lemma {:induction false} TimelyRunsArePrompt(cfg: Config, now: int, events: seq<Event>, lateness: nat)
    requires Legal(cfg, Start(now), events) && Timely(cfg, Start(now), events, lateness)
    ensures var s := Run(cfg, Start(now), events);
            && Prompt(PipeOf(s), lateness)
            && (s.c.pendingCursor.Some? ==>
                  s.t.moves != [] && s.b.now <= s.t.moves[|s.t.moves| - 1].time + CURSOR_THROTTLE_MS + lateness)
  {
    StartIsGood(cfg, now);
    PromptRun(cfg, Start(now), events, lateness);
  }

  /** Every cursor went out, or a later one did, within a window plus the lateness; or one still may. */
  ghost predicate AllOnTheirWay(p: Pipe, lateness: nat) {
    forall k :: 0 <= k < |p.moves| ==> OnItsWay(p, k, p.moves[k].time + CURSOR_THROTTLE_MS, lateness)
  }

  lemma ChangeKeepsAllOnTheirWay(p: Pipe, after: Pipe, lateness: nat)
    requires Accounted(p) && Soon(p) && PipeChange(p, after) && after.dropped == p.dropped
    requires after.now == p.now || OnTime(p.throttle, after.now, lateness)
    requires AllOnTheirWay(p, lateness)
    ensures AllOnTheirWay(after, lateness)
  {
    forall k | 0 <= k < |after.moves|
      ensures OnItsWay(after, k, after.moves[k].time + CURSOR_THROTTLE_MS, lateness)
    {
      if k < |p.moves| {
        assert after.moves[k] == p.moves[k];
        ChangeKeepsOnItsWay(p, after, k, p.moves[k].time + CURSOR_THROTTLE_MS, lateness);
      }
    }
  }

  lemma {:induction false} AllOnTheirWayRun(cfg: Config, s: State, events: seq<Event>, lateness: nat)
    requires Good(cfg, s) && AllOnTheirWay(PipeOf(s), lateness)
    requires Legal(cfg, s, events) && Timely(cfg, s, events, lateness) && LossFree(cfg, s, events)
    ensures AllOnTheirWay(PipeOf(Run(cfg, s, events)), lateness)
    decreases |events|
  {
    if events != [] {
      var after := Next(cfg, s, events[0]);
      GoodStep(cfg, s, events[0]);
      PipeStep(cfg, s, events[0]);
      LossStep(cfg, s, events[0]);
      ChangeKeepsAllOnTheirWay(PipeOf(s), PipeOf(after), lateness);
      AllOnTheirWayRun(cfg, after, events[1..], lateness);
    }
  }

  /**
   * The throttle is trailing and starves no cursor: where nothing is lost and timers are at most
   * `lateness` late, each cursor, or a later one, has gone out one window plus `lateness` after it
   * was moved, however often the cursor keeps moving.
   */
  lemma {:induction false} EveryCursorGoesOutInTime(cfg: Config, now: int, events: seq<Event>, lateness: nat,
                                                    k: nat)
    requires Legal(cfg, Start(now), events) && Timely(cfg, Start(now), events, lateness)
    requires LossFree(cfg, Start(now), events)
    requires k < |Run(cfg, Start(now), events).t.moves|
    ensures var s := Run(cfg, Start(now), events);
            var limit := s.t.moves[k].time + 50 + lateness;
            && OnItsWay(PipeOf(s), k, s.t.moves[k].time + 50, lateness)
            && (s.b.now > limit || s.c.pendingCursor.None? ==> GoneOut(s.t.posts, k, limit))
  {
    StartIsGood(cfg, now);
    GoodRun(cfg, Start(now), events);
    AllOnTheirWayRun(cfg, Start(now), events, lateness);
  }

  /** Nothing stops the throttle before it fires next, and it fires with the socket open. */
  predicate FiresOpen(cfg: Config, s: State, events: seq<Event>)
    requires Legal(cfg, s, events)
    decreases |events|
  {
    events == [] ||
    if events[0].ThrottleDue? then CanPublish(s)
    else !Disconnects(cfg, s, events[0]) && FiresOpen(cfg, Next(cfg, s, events[0]), events[1..])
  }

  lemma {:induction false} GoneOutForGood(cfg: Config, s: State, events: seq<Event>, k: nat, limit: int)
    requires Legal(cfg, s, events) && GoneOut(s.t.posts, k, limit)
    ensures GoneOut(Run(cfg, s, events).t.posts, k, limit)
    decreases |events|
  {
    if events != [] {
      PipeStep(cfg, s, events[0]);
      GoneOutStays(s.t.posts, Next(cfg, s, events[0]).t.posts, k, limit);
      GoneOutForGood(cfg, Next(cfg, s, events[0]), events[1..], k, limit);
    }
  }

  lemma {:induction false} WaitingGoesOut(cfg: Config, s: State, events: seq<Event>, k: nat, due: int, lateness: nat)
    requires Good(cfg, s) && Waiting(PipeOf(s), k, due, lateness)
    requires Legal(cfg, s, events) && Timely(cfg, s, events, lateness) && FiresOpen(cfg, s, events)
    ensures OnItsWay(PipeOf(Run(cfg, s, events)), k, due, lateness)
    decreases |events|
  {
    if events != [] {
      var after := Next(cfg, s, events[0]);
      GoodStep(cfg, s, events[0]);
      PipeStep(cfg, s, events[0]);
      LossStep(cfg, s, events[0]);
      ChangeKeepsOnItsWay(PipeOf(s), PipeOf(after), k, due, lateness);
      if GoneOut(after.t.posts, k, due + lateness) {
        GoneOutForGood(cfg, after, events[1..], k, due + lateness);
      } else {
        WaitingGoesOut(cfg, after, events[1..], k, due, lateness);
      }
    }
  }

  /**
   * The same for a single cursor at any point of any run: only what happens until the throttle
   * fires next matters, and only the timers from then on need to be in time.
   */
  lemma {:induction false} CursorGoesOutUnlessStopped(cfg: Config, now: int, before: seq<Event>, cursor: Cursor,
                                                      events: seq<Event>, lateness: nat)
    requires Legal(cfg, Start(now), before) && !Run(cfg, Start(now), before).c.disposed
    requires var moved := SendCursor(Run(cfg, Start(now), before), cursor);
             Legal(cfg, moved, events) && Timely(cfg, moved, events, lateness) && FiresOpen(cfg, moved, events)
    ensures var s := Run(cfg, Start(now), before);
            var after := Run(cfg, SendCursor(s, cursor), events);
            OnItsWay(PipeOf(after), |s.t.moves|, s.b.now + CURSOR_THROTTLE_MS, lateness)
  {
    var s := Run(cfg, Start(now), before);
    StartIsGood(cfg, now);
    GoodRun(cfg, Start(now), before);
    GoodStep(cfg, s, CallSendCursor(cursor));
    WaitingGoesOut(cfg, SendCursor(s, cursor), events, |s.t.moves|, s.b.now + CURSOR_THROTTLE_MS, lateness);
  }

  /** Otherwise the cursor that is pending when the throttle ends is lost. */
  lemma {:induction false} StoppedThrottleLosesACursor(cfg: Config, s: State, events: seq<Event>)
    requires s.c.pendingCursor.Some? && Legal(cfg, s, events) && !FiresOpen(cfg, s, events)
    ensures Run(cfg, s, events).t.dropped > s.t.dropped
    decreases |events|
  {
    var after := Next(cfg, s, events[0]);
    LossStep(cfg, s, events[0]);
    if Loses(cfg, s, events[0]) {
      DroppedExactlyByLosses(cfg, after, events[1..]);
    } else {
      PendingStays(cfg, s, events[0]);
      StoppedThrottleLosesACursor(cfg, after, events[1..]);
    }
  }

  lemma PendingStays(cfg: Config, s: State, e: Event)
    requires Enabled(s, e) && s.c.pendingCursor.Some? && !e.ThrottleDue? && !Disconnects(cfg, s, e)
    ensures Next(cfg, s, e).c.pendingCursor.Some?
  {
    if !e.CallSendCursor? && !e.TimePasses? {
      PipeKept(cfg, s, e);
    }
  }

  /** The held socket is open at every point of the run. */
  predicate StaysOpen(cfg: Config, s: State, events: seq<Event>)
    requires Legal(cfg, s, events)
    decreases |events|
  {
    CanPublish(s) && (events == [] || StaysOpen(cfg, Next(cfg, s, events[0]), events[1..]))
  }

  /** A client that is not doubled is disconnected only by losing its open socket. */
  lemma DisconnectedLosesItsSocket(cfg: Config, s: State, e: Event)
    requires Good(cfg, s) && Threads(s) <= 1 && Enabled(s, e) && Disconnects(cfg, s, e) && CanPublish(s)
    ensures !CanPublish(Next(cfg, s, e))
  {
  }

  lemma {:induction false} OpenSocketFiresOpen(cfg: Config, s: State, events: seq<Event>)
    requires Good(cfg, s) && Legal(cfg, s, events) && StaysOpen(cfg, s, events)
    requires Threads(s) <= 1 && ConnectsWhenIdle(cfg, s, events)
    ensures FiresOpen(cfg, s, events)
    decreases |events|
  {
    if events != [] && !events[0].ThrottleDue? {
      var after := Next(cfg, s, events[0]);
      GoodStep(cfg, s, events[0]);
      assert CanPublish(after);
      if Disconnects(cfg, s, events[0]) {
        DisconnectedLosesItsSocket(cfg, s, events[0]);
      }
      ThreadsStep(cfg, s, events[0]);
      OpenSocketFiresOpen(cfg, after, events[1..]);
    }
  }

  /**
   * While the socket is open every cursor, or a later one, goes out within a window plus the
   * lateness, provided every `connect()` was called while nothing was under way.
   */
  lemma {:induction false} CursorsGoOutWhileOpen(cfg: Config, now: int, before: seq<Event>, cursor: Cursor,
                                                 events: seq<Event>, lateness: nat)
    requires Legal(cfg, Start(now), before) && ConnectsWhenIdle(cfg, Start(now), before)
    requires var moved := SendCursor(Run(cfg, Start(now), before), cursor);
             && Legal(cfg, moved, events) && Timely(cfg, moved, events, lateness)
             && ConnectsWhenIdle(cfg, moved, events) && StaysOpen(cfg, moved, events)
    ensures var s := Run(cfg, Start(now), before);
            var after := Run(cfg, SendCursor(s, cursor), events);
            OnItsWay(PipeOf(after), |s.t.moves|, s.b.now + CURSOR_THROTTLE_MS, lateness)
  {
    var s := Run(cfg, Start(now), before);
    StartIsGood(cfg, now);
    GoodRun(cfg, Start(now), before);
    NeverDoubledExactlyWhenConnectingIdle(cfg, now, before);
    NeverDoubledAtTheEnd(cfg, Start(now), before);
    GoodStep(cfg, s, CallSendCursor(cursor));
    OpenSocketFiresOpen(cfg, SendCursor(s, cursor), events);
    CursorGoesOutUnlessStopped(cfg, now, before, cursor, events, lateness);
  }

  lemma {:induction false} SecondTicketRefused(cfg: Config, s: State, cursor: Cursor)
    requires CanPublish(s) && !s.c.disposed
    ensures var events := [CallConnect, CallSendCursor(cursor), TicketNo];
            && Legal(cfg, s, events)
            && var after := Run(cfg, s, events);
               && CanPublish(after) && |after.t.moves| == |s.t.moves| + 1
               && after.t.posts == s.t.posts && after.c.pendingCursor.None?
  {
    var s1 := Next(cfg, s, CallConnect);
    var s2 := Next(cfg, s1, CallSendCursor(cursor));
    RunFirst(cfg, s2, TicketNo, []);
    RunFirst(cfg, s1, CallSendCursor(cursor), [TicketNo]);
    RunFirst(cfg, s, CallConnect, [CallSendCursor(cursor), TicketNo]);
  }

  /** Why the proviso is needed: the refusal of a second ticket loses a cursor, though the socket stays open. */
  lemma {:induction false} RefusedTicketLosesACursor(cfg: Config, now: int, cursor: Cursor)
    requires cfg.hasWebSocket
    ensures var events := [CallConnect, TicketYes, SocketOpens(0), CallConnect, CallSendCursor(cursor), TicketNo];
            && Legal(cfg, Start(now), events)
            && var s := Run(cfg, Start(now), events);
               CanPublish(s) && |s.t.moves| == 1 && s.t.posts == [] && s.c.pendingCursor.None?
  {
    var s1 := Next(cfg, Start(now), CallConnect);
    var s2 := Next(cfg, s1, TicketYes);
    var s3 := Next(cfg, s2, SocketOpens(0));
    SecondTicketRefused(cfg, s3, cursor);
    var rest := [CallConnect, CallSendCursor(cursor), TicketNo];
    RunFirst(cfg, s2, SocketOpens(0), rest);
    var fromOpen := [SocketOpens(0), CallConnect, CallSendCursor(cursor), TicketNo];
    assert fromOpen == [SocketOpens(0)] + rest;
    RunFirst(cfg, s1, TicketYes, fromOpen);
    assert [TicketYes, SocketOpens(0), CallConnect, CallSendCursor(cursor), TicketNo] == [TicketYes] + fromOpen;
    RunFirst(cfg, Start(now), CallConnect, [TicketYes] + fromOpen);
  }

  /**
   * With connects called idle and timers at most `lateness` late, no remote is shown for longer
   * than the stale limit plus one sweep interval plus the lateness after it was last heard of.
   */
  lemma {:induction false} TimelyRunsAreFresh(cfg: Config, now: int, events: seq<Event>, lateness: nat)
    requires Legal(cfg, Start(now), events) && Timely(cfg, Start(now), events, lateness)
    requires ConnectsWhenIdle(cfg, Start(now), events)
    ensures var s := Run(cfg, Start(now), events);
            forall k :: k in s.store.remotes ==>
              s.b.now <= s.store.remotes[k].lastSeenAt + 90000 + 15000 + lateness
  {
    StartIsGood(cfg, now);
    NeverDoubledExactlyWhenConnectingIdle(cfg, now, events);
    FreshRun(cfg, Start(now), events, lateness);
  }
}
