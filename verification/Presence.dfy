/** The presence session as a state machine: what every callback does, step by step. */
module Presence {
  import opened OrderedMaps

  const CURSOR_THROTTLE_MS := 50
  const IDLE_AFTER_MS := 60000
  const STALE_REMOTE_AFTER_MS := 90000
  const SWEEP_INTERVAL_MS := 15000
  const NON_RETRYABLE_CLOSE_CODES: set<int> := {4403, 4413}

  function Pow2(n: nat): nat { if n == 0 then 1 else 2 * Pow2(n - 1) }

  function ReconnectDelayMs(attempt: nat): int {
    if 1000 * Pow2(attempt) <= 30000 then 1000 * Pow2(attempt) else 30000
  }

  datatype Phase = Connecting | Connected | Disconnected

  datatype Status = Active | Idle

  type Cursor = (real, real)

  datatype Remote = Remote(senderId: string, displayName: string, cursor: Option<Cursor>,
                           selection: seq<string>, lastSeenAt: int)

  /** The ready state of a socket. */
  datatype Wire = Opening | Open | Closing | Closed

  /** A payload that went out. */
  datatype Payload = CursorSent(cursor: Cursor) | SelectionSent(selection: seq<string>, status: Status) | IdleSent

  /** An inbound frame, as the parser sees it. */
  datatype Frame =
    | NotText | Malformed | OtherType
    | PresenceFrame(senderId: Option<string>, displayName: Option<string>, cursor: Option<Cursor>,
                    selection: Option<seq<string>>, status: Status)

  /** What the client keeps. A pending timer is the time it is due. */
  datatype Client = Client(
    socket: Option<nat>,
    disposed: bool,
    pendingCursor: Option<Cursor>,
    throttle: Option<int>,
    sweep: Option<int>,
    reconnect: Option<int>,
    lastPointerMoveAt: int,
    localStatus: Status,
    retryAttempt: nat,
    everConnected: bool)

  datatype Store = Store(connection: Phase, remotes: map<string, Remote>)

  /** The browser around the client: clock, ticket requests in flight, sockets, sent messages. */
  datatype Browser = Browser(now: int, tickets: nat, sockets: seq<Wire>, outbox: seq<Payload>)

  datatype Move = Move(time: int, cursor: Cursor)

  /** A cursor publication: when, what, and how many moves there had been by then. */
  datatype Post = Post(time: int, cursor: Cursor, moves: nat)

  /** What happened so far, for the statements about runs; nothing reads it back. */
  datatype Trace = Trace(
    connects: nat,
    stopped: bool,
    opens: nat,
    catchUps: nat,
    delays: seq<int>,
    moves: seq<Move>,
    posts: seq<Post>,
    superseded: nat,
    dropped: nat)

  datatype Config = Config(selfUserId: string, hasWebSocket: bool)

  datatype State = State(c: Client, store: Store, b: Browser, t: Trace)

  // ---------------------------------------------------------------------------------------------
  // The client's own steps
  // ---------------------------------------------------------------------------------------------

  predicate CanPublish(s: State) {
    s.c.socket.Some? && s.c.socket.value < |s.b.sockets| && s.b.sockets[s.c.socket.value].Open?
  }

  function Publish(s: State, p: Payload): State {
    if CanPublish(s) then s.(b := s.b.(outbox := s.b.outbox + [p])) else s
  }

  function SetConnection(s: State, phase: Phase): State {
    s.(store := s.store.(connection := phase))
  }

  function ClearRemotes(s: State): State {
    s.(store := s.store.(remotes := map[]))
  }

  function StopTimers(s: State): State {
    s.(c := s.c.(throttle := None, sweep := None, reconnect := None, pendingCursor := None),
       t := s.t.(dropped := s.t.dropped + if s.c.pendingCursor.Some? then 1 else 0))
  }

  function ScheduleReconnect(s: State): State {
    if s.c.disposed || s.c.reconnect.Some? then s
    else
      var delay := ReconnectDelayMs(s.c.retryAttempt);
      s.(c := s.c.(retryAttempt := s.c.retryAttempt + 1, reconnect := Some(s.b.now + delay)),
         t := s.t.(delays := s.t.delays + [delay]))
  }

  function ScheduleSweep(s: State): State {
    if s.c.disposed || s.c.sweep.Some? then s
    else s.(c := s.c.(sweep := Some(s.b.now + SWEEP_INTERVAL_MS)))
  }

  function MarkDisconnected(s: State, code: Option<int>): State {
    if s.c.disposed then s
    else
      var quiet := ClearRemotes(SetConnection(StopTimers(s), Disconnected));
      if code.Some? && code.value in NON_RETRYABLE_CLOSE_CODES
      then quiet.(t := quiet.t.(stopped := true))
      else ScheduleReconnect(quiet)
  }

  /** The first half of opening: ask for a ticket. */
  function RequestTicket(s: State): State {
    if s.c.disposed then s else s.(b := s.b.(tickets := s.b.tickets + 1))
  }

  function PruneRemotes(s: State, staleBefore: int): State {
    s.(store := s.store.(remotes :=
      map k | k in s.store.remotes && s.store.remotes[k].lastSeenAt >= staleBefore :: s.store.remotes[k]))
  }

  function Sweep(s: State): State {
    if s.c.disposed then s
    else
      var announced :=
        if s.c.localStatus.Active? && s.b.now - s.c.lastPointerMoveAt >= IDLE_AFTER_MS
        then Publish(s.(c := s.c.(localStatus := Idle)), IdleSent)
        else s;
      PruneRemotes(announced, s.b.now - STALE_REMOTE_AFTER_MS)
  }

  // ---------------------------------------------------------------------------------------------
  // Calls and callbacks
  // ---------------------------------------------------------------------------------------------

  function Connect(s: State): State {
    if s.c.disposed then s
    else
      var counted := s.(t := s.t.(connects := s.t.connects + 1, stopped := false));
      RequestTicket(SetConnection(counted, Connecting))
  }

  function WireAfterClose(w: Wire): Wire {
    if w.Closed? then Closed else Closing
  }

  function CloseSocket(s: State, id: Option<nat>): State {
    if id.Some? && id.value < |s.b.sockets|
    then s.(b := s.b.(sockets := s.b.sockets[id.value := WireAfterClose(s.b.sockets[id.value])]))
    else s
  }

  function Close(s: State): State {
    var stopped := StopTimers(s.(c := s.c.(disposed := true)));
    var closed := CloseSocket(stopped.(c := stopped.c.(socket := None)), s.c.socket);
    ClearRemotes(SetConnection(closed, Disconnected))
  }

  function SendCursor(s: State, cursor: Cursor): State {
    if s.c.disposed then s
    else
      s.(c := s.c.(pendingCursor := Some(cursor), lastPointerMoveAt := s.b.now, localStatus := Active,
                   throttle := if s.c.throttle.Some? then s.c.throttle else Some(s.b.now + CURSOR_THROTTLE_MS)),
         t := s.t.(moves := s.t.moves + [Move(s.b.now, cursor)],
                   superseded := s.t.superseded + if s.c.pendingCursor.Some? then 1 else 0))
  }

  function SendSelection(s: State, selection: seq<string>): State {
    if s.c.disposed then s else Publish(s, SelectionSent(selection, s.c.localStatus))
  }

  /** The throttle timer: whatever position is the latest goes out, if the socket is open. */
  function ThrottleFires(s: State): State {
    var fired := s.(c := s.c.(throttle := None, pendingCursor := None));
    if s.c.pendingCursor.None? then fired
    else
      var cursor := s.c.pendingCursor.value;
      var counted :=
        if CanPublish(fired) then fired.(t := s.t.(posts := s.t.posts + [Post(s.b.now, cursor, |s.t.moves|)]))
        else fired.(t := s.t.(dropped := s.t.dropped + 1));
      Publish(counted, CursorSent(cursor))
  }

  function SweepFires(s: State): State {
    ScheduleSweep(Sweep(s.(c := s.c.(sweep := None))))
  }

  function ReconnectFires(s: State): State {
    var fired := s.(c := s.c.(reconnect := None));
    if s.c.disposed then fired else RequestTicket(SetConnection(fired, Connecting))
  }

  /** The ticket request failed, in any way. */
  function TicketRefused(s: State): State
    requires s.b.tickets > 0
  {
    MarkDisconnected(s.(b := s.b.(tickets := s.b.tickets - 1)), None)
  }

  /** The second half of opening: a ticket has come, the socket is made. */
  function TicketGranted(cfg: Config, s: State): State
    requires s.b.tickets > 0
  {
    var answered := s.(b := s.b.(tickets := s.b.tickets - 1));
    if s.c.disposed then answered
    else if !cfg.hasWebSocket then MarkDisconnected(answered, None)
    else
      answered.(b := answered.b.(sockets := answered.b.sockets + [Opening]),
                c := answered.c.(socket := Some(|answered.b.sockets|)))
  }

  function OnOpen(s: State): State {
    if s.c.disposed then s
    else
      var up := SetConnection(s, Connected);
      var reset := up.(c := up.c.(retryAttempt := 0, lastPointerMoveAt := s.b.now, localStatus := Active),
                       t := up.t.(delays := []));
      var swept := ScheduleSweep(reset);
      swept.(c := swept.c.(everConnected := true),
             t := swept.t.(opens := swept.t.opens + 1,
                           catchUps := swept.t.catchUps + if s.c.everConnected then 1 else 0))
  }

  function OnClose(s: State, id: nat, code: int): State {
    if s.c.socket != Some(id) then s
    else MarkDisconnected(s.(c := s.c.(socket := None)), Some(code))
  }

  function OnMessage(cfg: Config, s: State, frame: Frame): State {
    if s.c.disposed || !frame.PresenceFrame? then s
    else if frame.senderId.None? || frame.senderId.value == "" then s
    else if frame.senderId.value == cfg.selfUserId then s
    else
      var sender := frame.senderId.value;
      if frame.status.Idle? then s.(store := s.store.(remotes := s.store.remotes - {sender}))
      else
        var entry := Remote(sender,
                            if frame.displayName.Some? then frame.displayName.value else "",
                            frame.cursor,
                            if frame.selection.Some? then frame.selection.value else [],
                            s.b.now);
        s.(store := s.store.(remotes := s.store.remotes[sender := entry]))
  }

  // ---------------------------------------------------------------------------------------------
  // Runs
  // ---------------------------------------------------------------------------------------------

  /** Everything that can happen next, chosen by the caller or the browser. */
  datatype Event =
    | CallConnect | CallClose | CallSendCursor(cursor: Cursor) | CallSendSelection(selection: seq<string>)
    | TicketNo | TicketYes
    | SocketOpens(id: nat) | SocketStartsClosing(id: nat) | SocketCloses(id: nat, code: int)
    | FrameArrives(id: nat, frame: Frame)
    | ThrottleDue | SweepDue | ReconnectDue
    | TimePasses(to: int)

  predicate Due(timer: Option<int>, now: int) {
    timer.Some? && timer.value <= now
  }

  /** No timer waits for more than `lateness` after it is due. */
  predicate OnTime(timer: Option<int>, now: int, lateness: nat) {
    timer.Some? ==> now <= timer.value + lateness
  }

  /**
   * What the browser may do. A socket opens once and closes once; frames come from open sockets;
   * a cleared timer does not fire, and none fires early.
   */
  predicate Enabled(s: State, e: Event) {
    match e
    case TicketNo => s.b.tickets > 0
    case TicketYes => s.b.tickets > 0
    case SocketOpens(id) => id < |s.b.sockets| && s.b.sockets[id].Opening?
    case SocketStartsClosing(id) => id < |s.b.sockets| && s.b.sockets[id].Open?
    case SocketCloses(id, _) => id < |s.b.sockets| && !s.b.sockets[id].Closed?
    case FrameArrives(id, _) => id < |s.b.sockets| && s.b.sockets[id].Open?
    case ThrottleDue => Due(s.c.throttle, s.b.now)
    case SweepDue => Due(s.c.sweep, s.b.now)
    case ReconnectDue => Due(s.c.reconnect, s.b.now)
    case TimePasses(to) => to >= s.b.now
    case _ => true
  }

  function SetWire(s: State, id: nat, w: Wire): State
    requires id < |s.b.sockets|
  {
    s.(b := s.b.(sockets := s.b.sockets[id := w]))
  }

  function Next(cfg: Config, s: State, e: Event): State
    requires Enabled(s, e)
  {
    match e
    case CallConnect => Connect(s)
    case CallClose => Close(s)
    case CallSendCursor(cursor) => SendCursor(s, cursor)
    case CallSendSelection(selection) => SendSelection(s, selection)
    case TicketNo => TicketRefused(s)
    case TicketYes => TicketGranted(cfg, s)
    case SocketOpens(id) => OnOpen(SetWire(s, id, Open))
    case SocketStartsClosing(id) => SetWire(s, id, Closing)
    case SocketCloses(id, code) => OnClose(SetWire(s, id, Closed), id, code)
    case FrameArrives(id, frame) => OnMessage(cfg, s, frame)
    case ThrottleDue => ThrottleFires(s)
    case SweepDue => SweepFires(s)
    case ReconnectDue => ReconnectFires(s)
    case TimePasses(to) => s.(b := s.b.(now := to))
  }

  function Start(now: int): State {
    State(Client(None, false, None, None, None, None, 0, Active, 0, false),
          Store(Connecting, map[]),
          Browser(now, 0, [], []),
          Trace(0, false, 0, 0, [], [], [], 0, 0))
  }

  /** The events of a run are possible one after the other. */
  predicate Legal(cfg: Config, s: State, events: seq<Event>)
    decreases |events|
  {
    events == [] || (Enabled(s, events[0]) && Legal(cfg, Next(cfg, s, events[0]), events[1..]))
  }

  function Run(cfg: Config, s: State, events: seq<Event>): State
    requires Legal(cfg, s, events)
    decreases |events|
  {
    if events == [] then s else Run(cfg, Next(cfg, s, events[0]), events[1..])
  }
}
