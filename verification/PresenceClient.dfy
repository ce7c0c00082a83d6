/** The presence client itself: an object whose methods and callbacks are the machine's steps. */
module PresenceClients {
  import opened OrderedMaps
  import opened Presence
  import opened PresenceRuns
  import opened PresenceTraces

  class PresenceStore {
    var connection: Phase
    var remotes: map<string, Remote>

    constructor ()
      ensures View() == Store(Connecting, map[])
    {
      connection, remotes := Connecting, map[];
    }

    function View(): Store
      reads this
    {
      Store(connection, remotes)
    }

    method SetConnection(phase: Phase)
      modifies this
      ensures View() == old(View()).(connection := phase)
    {
      connection := phase;
    }

    method UpsertRemote(entry: Remote)
      modifies this
      ensures View() == old(View()).(remotes := old(remotes)[entry.senderId := entry])
    {
      remotes := remotes[entry.senderId := entry];
    }

    method DropRemote(senderId: string)
      modifies this
      ensures View() == old(View()).(remotes := old(remotes) - {senderId})
    {
      if senderId !in remotes {
        assert remotes - {senderId} == remotes;
        return;
      }
      remotes := remotes - {senderId};
    }

    /** Removes every remote last seen strictly before `staleBefore`. */
    method PruneRemotes(staleBefore: int)
      modifies this
      ensures connection == old(connection)
      ensures forall k :: k in remotes <==> k in old(remotes) && old(remotes)[k].lastSeenAt >= staleBefore
      ensures forall k :: k in remotes ==> remotes[k] == old(remotes)[k]
    {
      var kept := map k | k in remotes && remotes[k].lastSeenAt >= staleBefore :: remotes[k];
      if |kept| == |remotes| {
        SameSizeSameMap(kept, remotes);
        return;
      }
      remotes := kept;
    }

    method ClearRemotes()
      modifies this
      ensures View() == old(View()).(remotes := map[])
    {
      remotes := map[];
    }
  }

  /** A restriction of a map that is as large as the map is the map. */
  lemma SameSizeSameMap<V>(kept: map<string, V>, all: map<string, V>)
    requires kept.Keys <= all.Keys && (forall k :: k in kept ==> kept[k] == all[k]) && |kept| == |all|
    ensures kept == all
  {
    assert |all.Keys - kept.Keys| == |all.Keys| - |kept.Keys|;
    assert all.Keys - kept.Keys == {};
  }

  /** The browser's side: its clock, the ticket requests in flight, the sockets, what was sent. */
  class Window {
    var now: int
    var tickets: nat
    var sockets: seq<Wire>
    var outbox: seq<Payload>

    constructor (now: int)
      ensures View() == Browser(now, 0, [], [])
    {
      this.now, tickets, sockets, outbox := now, 0, [], [];
    }

    function View(): Browser
      reads this
    {
      Browser(now, tickets, sockets, outbox)
    }
  }

  class PresenceClient {
    const cfg: Config
    const store: PresenceStore
    const window: Window

    var socket: Option<nat>
    var disposed: bool
    var pendingCursor: Option<Cursor>
    var throttleHandle: Option<int>
    var sweepHandle: Option<int>
    var reconnectHandle: Option<int>
    var lastPointerMoveAt: int
    var localStatus: Status
    var retryAttempt: nat
    var everConnected: bool

    ghost var trace: Trace

    constructor (cfg: Config, store: PresenceStore, window: Window)
      ensures this.cfg == cfg && this.store == store && this.window == window
      ensures View() == Start(window.now).(store := store.View(), b := window.View())
    {
      this.cfg, this.store, this.window := cfg, store, window;
      socket, disposed, pendingCursor := None, false, None;
      throttleHandle, sweepHandle, reconnectHandle := None, None, None;
      lastPointerMoveAt, localStatus, retryAttempt, everConnected := 0, Active, 0, false;
      trace := Start(0).t;
    }

    ghost function View(): State
      reads this, store, window
    {
      State(Client(socket, disposed, pendingCursor, throttleHandle, sweepHandle, reconnectHandle,
                   lastPointerMoveAt, localStatus, retryAttempt, everConnected),
            store.View(), window.View(), trace)
    }

    method Connect()
      modifies this, store, window
      ensures View() == Presence.Connect(old(View()))
    {
      if disposed { return; }
      trace := trace.(connects := trace.connects + 1, stopped := false);
      store.SetConnection(Connecting);
      OpenSocket();
    }

    method Close()
      modifies this, store, window
      ensures View() == Presence.Close(old(View()))
    {
      disposed := true;
      StopTimers();
      var open := socket;
      socket := None;
      if open.Some? && open.value < |window.sockets| {
        window.sockets := window.sockets[open.value := WireAfterClose(window.sockets[open.value])];
      }
      store.SetConnection(Disconnected);
      store.ClearRemotes();
    }

    method SendCursor(cursor: Cursor)
      modifies this
      ensures View() == Presence.SendCursor(old(View()), cursor)
    {
      if disposed { return; }
      trace := trace.(moves := trace.moves + [Move(window.now, cursor)],
                      superseded := trace.superseded + if pendingCursor.Some? then 1 else 0);
      pendingCursor := Some(cursor);
      lastPointerMoveAt := window.now;
      localStatus := Active;
      if throttleHandle.Some? { return; }
      throttleHandle := Some(window.now + CURSOR_THROTTLE_MS);
    }

    /** The callback of the throttle timer. */
    method OnThrottle()
      modifies this, window
      ensures View() == ThrottleFires(old(View()))
    {
      throttleHandle := None;
      var pending := pendingCursor;
      pendingCursor := None;
      if pending.Some? {
        if CanPublish(View()) {
          trace := trace.(posts := trace.posts + [Post(window.now, pending.value, |trace.moves|)]);
        } else {
          trace := trace.(dropped := trace.dropped + 1);
        }
        Publish(CursorSent(pending.value));
      }
    }

    method SendSelection(selection: seq<string>)
      modifies window
      ensures View() == Presence.SendSelection(old(View()), selection)
    {
      if disposed { return; }
      Publish(SelectionSent(selection, localStatus));
    }

    method StopTimers()
      modifies this
      ensures View() == Presence.StopTimers(old(View()))
    {
      trace := trace.(dropped := trace.dropped + if pendingCursor.Some? then 1 else 0);
      if throttleHandle.Some? { throttleHandle := None; }
      if sweepHandle.Some? { sweepHandle := None; }
      if reconnectHandle.Some? { reconnectHandle := None; }
      pendingCursor := None;
    }

    method ScheduleReconnect()
      modifies this
      ensures View() == Presence.ScheduleReconnect(old(View()))
    {
      if disposed || reconnectHandle.Some? { return; }
      var delay := ReconnectDelayMs(retryAttempt);
      retryAttempt := retryAttempt + 1;
      reconnectHandle := Some(window.now + delay);
      trace := trace.(delays := trace.delays + [delay]);
    }

    /** The callback of the reconnect timer. */
    method OnReconnect()
      modifies this, store, window
      ensures View() == ReconnectFires(old(View()))
    {
      reconnectHandle := None;
      if disposed { return; }
      store.SetConnection(Connecting);
      OpenSocket();
    }

    method ScheduleSweep()
      modifies this
      ensures View() == Presence.ScheduleSweep(old(View()))
    {
      if disposed || sweepHandle.Some? { return; }
      sweepHandle := Some(window.now + SWEEP_INTERVAL_MS);
    }

    /** The callback of the sweep timer. */
    method OnSweep()
      modifies this, store, window
      ensures View() == SweepFires(old(View()))
    {
      sweepHandle := None;
      Sweep();
      ScheduleSweep();
    }

    method Sweep()
      modifies this, store, window
      ensures View() == Presence.Sweep(old(View()))
    {
      if disposed { return; }
      var nowMs := window.now;
      if localStatus.Active? && nowMs - lastPointerMoveAt >= IDLE_AFTER_MS {
        localStatus := Idle;
        Publish(IdleSent);
      }
      ghost var before := View();
      store.PruneRemotes(nowMs - STALE_REMOTE_AFTER_MS);
      assert store.remotes == Presence.PruneRemotes(before, nowMs - STALE_REMOTE_AFTER_MS).store.remotes;
    }

    method Publish(payload: Payload)
      modifies window
      ensures View() == Presence.Publish(old(View()), payload)
    {
      if socket.None? || socket.value >= |window.sockets| || !window.sockets[socket.value].Open? { return; }
      window.outbox := window.outbox + [payload];
    }

    /** Opening, up to the request for a ticket. */
    method OpenSocket()
      modifies window
      ensures View() == RequestTicket(old(View()))
    {
      if disposed { return; }
      window.tickets := window.tickets + 1;
    }

    /** The reply to a ticket request: refused in any way, or granted. */
    method OnTicket(granted: bool)
      requires window.tickets > 0
      modifies this, store, window
      ensures View() == if granted then TicketGranted(cfg, old(View())) else TicketRefused(old(View()))
    {
      window.tickets := window.tickets - 1;
      if !granted {
        MarkDisconnected(None);
        return;
      }
      if disposed { return; }
      if !cfg.hasWebSocket {
        MarkDisconnected(None);
        return;
      }
      socket := Some(|window.sockets|);
      window.sockets := window.sockets + [Opening];
    }

    method OnOpen()
      modifies this, store
      ensures View() == Presence.OnOpen(old(View()))
    {
      if disposed { return; }
      store.SetConnection(Connected);
      retryAttempt := 0;
      trace := trace.(delays := []);
      lastPointerMoveAt := window.now;
      localStatus := Active;
      ScheduleSweep();
      if everConnected {
        trace := trace.(catchUps := trace.catchUps + 1);
      }
      everConnected := true;
      trace := trace.(opens := trace.opens + 1);
    }

    method OnClose(id: nat, code: int)
      modifies this, store
      ensures View() == Presence.OnClose(old(View()), id, code)
    {
      if socket != Some(id) { return; }
      socket := None;
      MarkDisconnected(Some(code));
    }

    method MarkDisconnected(code: Option<int>)
      modifies this, store
      ensures View() == Presence.MarkDisconnected(old(View()), code)
    {
      if disposed { return; }
      StopTimers();
      store.SetConnection(Disconnected);
      store.ClearRemotes();
      if code.Some? && code.value in NON_RETRYABLE_CLOSE_CODES {
        trace := trace.(stopped := true);
        return;
      }
      ScheduleReconnect();
    }

    method OnMessage(frame: Frame)
      modifies store
      ensures View() == Presence.OnMessage(cfg, old(View()), frame)
    {
      if disposed { return; }
      if !frame.PresenceFrame? { return; }
      if frame.senderId.None? || frame.senderId.value == "" { return; }
      var senderId := frame.senderId.value;
      if senderId == cfg.selfUserId { return; }
      if frame.status.Idle? {
        store.DropRemote(senderId);
        return;
      }
      store.UpsertRemote(Remote(senderId,
                                if frame.displayName.Some? then frame.displayName.value else "",
                                frame.cursor,
                                if frame.selection.Some? then frame.selection.value else [],
                                window.now));
    }
  }

  // ---------------------------------------------------------------------------------------------
  // Whole sessions
  // ---------------------------------------------------------------------------------------------

  /** One thing that happens to a client: a call, or the browser running one of its callbacks. */
  method Happen(client: PresenceClient, e: Event)
    requires Enabled(client.View(), e)
    modifies client, client.store, client.window
    ensures client.View() == Next(client.cfg, old(client.View()), e)
  {
    var window := client.window;
    match e
    case CallConnect => client.Connect();
    case CallClose => client.Close();
    case CallSendCursor(cursor) => client.SendCursor(cursor);
    case CallSendSelection(selection) => client.SendSelection(selection);
    case TicketNo => client.OnTicket(false);
    case TicketYes => client.OnTicket(true);
    case SocketOpens(id) =>
      window.sockets := window.sockets[id := Open];
      client.OnOpen();
    case SocketStartsClosing(id) => window.sockets := window.sockets[id := Closing];
    case SocketCloses(id, code) =>
      window.sockets := window.sockets[id := Closed];
      client.OnClose(id, code);
    case FrameArrives(id, frame) => client.OnMessage(frame);
    case ThrottleDue => client.OnThrottle();
    case SweepDue => client.OnSweep();
    case ReconnectDue => client.OnReconnect();
    case TimePasses(to) => window.now := to;
  }

  /** Any possible course of events takes the object through the run of the machine. */
  method Drive(client: PresenceClient, events: seq<Event>)
    requires Legal(client.cfg, client.View(), events)
    modifies client, client.store, client.window
    ensures client.View() == Run(client.cfg, old(client.View()), events)
  {
    for i := 0 to |events|
      invariant Legal(client.cfg, client.View(), events[i..])
      invariant Run(client.cfg, client.View(), events[i..]) == Run(client.cfg, old(client.View()), events)
    {
      assert events[i..][0] == events[i] && events[i..][1..] == events[i + 1..];
      Happen(client, events[i]);
    }
  }

  /** What a client has under way: requests, the socket it holds, a timer to reconnect. */
  ghost function UnderWay(client: PresenceClient): nat
    reads client, client.window
  {
    client.window.tickets + One(client.socket.Some?) + One(client.reconnectHandle.Some?)
  }

  /**
   * A whole session of a new client. Until it is closed it is never stuck: something is under way
   * once it was connected, or the server has turned it away for good; and if every connect was
   * called idle, it is one thing only. Its cursors keep their distance and are the latest ones,
   * they are what the window's messages carry, and none is lost exactly in loss-free sessions. It
   * shows exactly those whose last frame was active and still counts, as that frame describes them.
   */
  method Session(cfg: Config, now: int, events: seq<Event>) returns (client: PresenceClient)
    requires Legal(cfg, Start(now), events)
    ensures fresh(client) && client.cfg == cfg && client.View() == Run(cfg, Start(now), events)
    ensures !client.disposed && client.trace.connects > 0 ==>
              && (UnderWay(client) > 0 || client.trace.stopped)
              && (ConnectsWhenIdle(cfg, Start(now), events) ==>
                    UnderWay(client) == if client.trace.stopped then 0 else 1)
    ensures Spaced(PipeOf(client.View())) && Latest(PipeOf(client.View())) && Accounted(PipeOf(client.View()))
    ensures CursorsSent(client.window.outbox) == CursorsOf(client.trace.posts)
    ensures LossFree(cfg, Start(now), events) <==> client.trace.dropped == 0
    ensures client.disposed ==> Quiet(client.View())
    ensures !client.disposed ==>
              forall sender ::
                && (sender in client.store.remotes <==>
                      exists k :: ShownBy(cfg, now, events, |events|, sender, k))
                && forall k :: LastHeard(cfg, events, |events|, sender, k) && sender in client.store.remotes ==>
                     ShowsFrame(client.store.remotes[sender], events[k].frame,
                                PresenceTraces.After(cfg, Start(now), events, k).b.now)
  {
    var store := new PresenceStore();
    var window := new Window(now);
    client := new PresenceClient(cfg, store, window);
    Drive(client, events);
    NeverStuckNeverDoubled(cfg, now, events);
    CursorsAreThrottled(cfg, now, events);
    DroppedExactlyByLosses(cfg, Start(now), events);
    ClosedIsQuiet(cfg, now, events);
    if !client.disposed {
      forall sender {
        ShownExactlyWhenHeard(cfg, now, events, sender);
      }
    }
  }

  /** After `close()` an object of any history stays silent, whatever is called or still arrives. */
  method CloseAndDrive(client: PresenceClient, events: seq<Event>)
    requires Legal(client.cfg, Presence.Close(client.View()), events)
    modifies client, client.store, client.window
    ensures client.disposed && client.socket.None? && client.pendingCursor.None?
    ensures client.throttleHandle.None? && client.sweepHandle.None? && client.reconnectHandle.None?
    ensures client.store.connection == Disconnected && client.store.remotes == map[]
    ensures |client.window.sockets| == old(|client.window.sockets|)
    ensures client.window.outbox == old(client.window.outbox)
  {
    ghost var before := client.View();
    client.Close();
    Drive(client, events);
    QuiescenceAfterClose(client.cfg, before, events);
  }
}
