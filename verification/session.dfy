/** The socket event router of server.js, as written. One `ControlQueue` and one
    `BrowserController` are shared by every connection. A socket's browser-facing
    events are honoured only when the queue names that socket as the current
    holder; joining, leaving, the screen size and releasing control are not
    gated. */
module Session {
  import opened Wrappers
  import opened Seqs
  import ControlQueue
  import Browser
  import ClientView
  import Utils

  type Id = ControlQueue.Id

  /** The events one socket can send, including its connection and disconnection. */
  datatype ClientEvent =
    | Connect
    | Disconnect
    | ControlEvent(ev: Browser.InputEvent)
    | NavigateTo(url: string)
    | NavBack
    | NavForward
    | NavRefresh
    | ScreenSize(w: int, h: int)
    | ReleaseControl

  /** What the server sends: a `queue-update` to one client, or a broadcast to all. */
  datatype Out = ToClient(u: ControlQueue.Update) | ToAll(b: Browser.Broadcast)

  datatype Server = Server(queue: ControlQueue.Queue, browser: Browser.State)

  datatype Step = Step(s: Server, calls: seq<Browser.Call>, out: seq<Out>)

  function Init(): Server
  {
    Server(ControlQueue.Init(), Browser.Init())
  }

  function Updates(us: seq<ControlQueue.Update>): (r: seq<Out>)
    ensures |r| == |us| && forall i | 0 <= i < |r| :: r[i] == ToClient(us[i])
  {
    seq(|us|, i requires 0 <= i < |us| => ToClient(us[i]))
  }

  function Broadcasts(bs: seq<Browser.Broadcast>): (r: seq<Out>)
    ensures |r| == |bs| && forall i | 0 <= i < |r| :: r[i] == ToAll(bs[i])
  {
    seq(|bs|, i requires 0 <= i < |bs| => ToAll(bs[i]))
  }

  /** The events that are dropped unless the sender holds control. */
  predicate Gated(e: ClientEvent)
  {
    e.ControlEvent? || e.NavigateTo? || e.NavBack? || e.NavForward? || e.NavRefresh?
  }

  /** `queue.current() === socket.id`. */
  predicate Holds(q: ControlQueue.Queue, socket: Id)
  {
    ControlQueue.Current(q) == Some(socket)
  }

  /** One event from one socket. A connecting socket joins the queue and is sent
      the list; a disconnecting one leaves it. Input events join the browser's
      input chain, and so do the three buttons, but `navigate` runs at once.
      `screen-size` calls a method the controller does not have, so it changes
      nothing. `release-control` advances the cursor, whoever sends it. */
  function Handle(s: Server, socket: Id, e: ClientEvent, hostOf: string -> Option<string>): (r: Step)
    ensures Gated(e) && !Holds(s.queue, socket) ==> r == Step(s, [], [])
    ensures Gated(e) && Holds(s.queue, socket) ==> r == Drive(s, e, hostOf)
    ensures e == Connect ==> r == Connected(s, socket)
    ensures e == Disconnect ==> r == Disconnected(s, socket)
    ensures e.ScreenSize? ==> r == Step(s, [], [])
    ensures e == ReleaseControl ==> r == Released(s)
    ensures Gated(e) ==> r.s.queue == s.queue
    ensures !Gated(e) ==> r.s.browser == s.browser && r.calls == []
  {
    match e
    case Connect => Connected(s, socket)
    case Disconnect => Disconnected(s, socket)
    case ScreenSize(_, _) => Step(s, [], [])
    case ReleaseControl => Released(s)
    case _ =>
      if !Holds(s.queue, socket) then Step(s, [], [])
      else Drive(s, e, hostOf)
  }

  /** `connection`: the socket joins the queue, and is then sent the list. */
  function Connected(s: Server, socket: Id): (r: Step)
    ensures r.s.browser == s.browser && r.calls == []
    ensures socket in r.s.queue.clients
    ensures |r.out| > 0 && r.out[|r.out| - 1] == ToClient(ControlQueue.Update(socket, r.s.queue.clients))
    ensures socket !in s.queue.clients ==>
              && r.s.queue == ControlQueue.Queue(s.queue.clients + [socket], s.queue.index)
              && r.out == Updates(ControlQueue.Emit(r.s.queue.clients))
                          + [ToClient(ControlQueue.Update(socket, r.s.queue.clients))]
    ensures socket in s.queue.clients ==>
              r.s.queue == s.queue && r.out == [ToClient(ControlQueue.Update(socket, s.queue.clients))]
  {
    var a := ControlQueue.Add(s.queue, socket);
    assert socket !in s.queue.clients ==> a.q.clients == s.queue.clients + [socket];
    Step(s.(queue := a.q), [],
         Updates(a.out) + [ToClient(ControlQueue.Update(socket, ControlQueue.List(a.q)))])
  }

  /** `disconnect`: the socket leaves the queue. */
  function Disconnected(s: Server, socket: Id): (r: Step)
    ensures r.s.browser == s.browser && r.calls == []
    ensures socket !in s.queue.clients ==> r == Step(s, [], [])
    ensures socket in s.queue.clients ==>
              && |r.s.queue.clients| == |s.queue.clients| - 1
              && r.out == Updates(ControlQueue.Emit(r.s.queue.clients))
    ensures NoDup(s.queue.clients) ==>
              socket !in r.s.queue.clients && r.s.queue.clients == Without(s.queue.clients, socket)
    ensures r.s.queue == ControlQueue.Remove(s.queue, socket).q
  {
    var d := ControlQueue.Remove(s.queue, socket);
    Step(s.(queue := d.q), [], Updates(d.out))
  }

  /** `release-control`: the cursor moves on, whoever asked. */
  function Released(s: Server): (r: Step)
    ensures r.s.browser == s.browser && r.calls == []
    ensures r.s.queue.clients == s.queue.clients
    ensures r.out == Updates(ControlQueue.Emit(s.queue.clients))
    ensures s.queue.index.At? && |s.queue.clients| > 0 ==>
              r.s.queue.index == ControlQueue.At((s.queue.index.n + 1) % |s.queue.clients|)
    ensures s.queue.index == ControlQueue.NaN || |s.queue.clients| == 0 ==>
              r.s.queue.index == ControlQueue.NaN
  {
    var n := ControlQueue.Next(s.queue);
    Step(s.(queue := n.q), [], Updates(n.out))
  }

  /** The button action each navigation-bar event names. */
  function ButtonAction(e: ClientEvent): string
    requires e == NavBack || e == NavForward || e == NavRefresh
  {
    match e
    case NavBack => "back"
    case NavForward => "forward"
    case NavRefresh => "refresh"
  }

  /** A gated event from the holder. */
  function Drive(s: Server, e: ClientEvent, hostOf: string -> Option<string>): (r: Step)
    requires Gated(e)
    ensures r.s.queue == s.queue
    ensures e.NavigateTo? ==> r.s.browser.pending == s.browser.pending
    ensures e == NavBack || e == NavForward || e == NavRefresh ==>
              && r.s.browser.pending == s.browser.pending + [Browser.ButtonCmd(ButtonAction(e))]
              && r.s.browser.(pending := s.browser.pending) == s.browser
              && r.calls == [] && r.out == []
    ensures e.ControlEvent? ==>
              && (s.browser.page == Browser.Open ==> r.s.browser.pending == s.browser.pending + [Browser.InputCmd(e.ev)])
              && (s.browser.page != Browser.Open ==> r.s == s)
              && r.s.browser.(pending := s.browser.pending) == s.browser
              && r.calls == [] && r.out == []
    ensures e.NavigateTo? ==>
              var n := Browser.Navigate(s.browser, e.url, hostOf);
              && r.s.browser == n.s && r.calls == n.calls
              && |r.out| == |n.out| && forall k | 0 <= k < |r.out| :: r.out[k] == ToAll(n.out[k])
  {
    match e
    case ControlEvent(ev) => Step(s.(browser := Browser.HandleInput(s.browser, ev)), [], [])
    case NavigateTo(url) =>
      var n := Browser.Navigate(s.browser, url, hostOf);
      Step(s.(browser := n.s), n.calls, Broadcasts(n.out))
    case NavBack => Step(s.(browser := Browser.HandleButton(s.browser, "back")), [], [])
    case NavForward => Step(s.(browser := Browser.HandleButton(s.browser, "forward")), [], [])
    case NavRefresh => Step(s.(browser := Browser.HandleButton(s.browser, "refresh")), [], [])
  }

  /** Only the holder ever changes the browser or makes it call the engine. */
  lemma OnlyHolderDrives(s: Server, socket: Id, e: ClientEvent, hostOf: string -> Option<string>)
    ensures var r := Handle(s, socket, e, hostOf);
            r.s.browser != s.browser || r.calls != [] ==> Holds(s.queue, socket) && Gated(e)
  {
  }

  /** Everything that happens to the server: a socket event, or the browser side
      running a queued command, reporting a main-frame navigation, or getting or
      losing its page. */
  datatype Input =
    | FromSocket(socket: Id, e: ClientEvent)
    | ChainTurn(outcome: Browser.Outcome)
    | Frame(isMain: bool, url: Browser.Url)
    | PageOpened
    | PageClosed

  function Apply(s: Server, i: Input, hostOf: string -> Option<string>): Server
  {
    match i
    case FromSocket(socket, e) => Handle(s, socket, e, hostOf).s
    case ChainTurn(outcome) => s.(browser := Browser.Apply(s.browser, Browser.RunQueued(outcome), hostOf).s)
    case Frame(isMain, url) => s.(browser := Browser.Apply(s.browser, Browser.FrameNav(isMain, url), hostOf).s)
    case PageOpened => s.(browser := Browser.Apply(s.browser, Browser.PageOpened, hostOf).s)
    case PageClosed => s.(browser := Browser.Apply(s.browser, Browser.PageClosed, hostOf).s)
  }

  function Run(s: Server, inputs: seq<Input>, hostOf: string -> Option<string>): Server
    decreases |inputs|
  {
    if |inputs| == 0 then s else Run(Apply(s, inputs[0], hostOf), inputs[1..], hostOf)
  }

  /** The queue stays a duplicate-free list with a sensible cursor, neither
      browser stack holds `about:blank`, and no navigation is left in progress. */
  predicate Inv(s: Server)
  {
    ControlQueue.Valid(s.queue) && Browser.NoBlank(s.browser) && !s.browser.isNavigating
  }

  lemma ApplyKeepsInv(s: Server, i: Input, hostOf: string -> Option<string>)
    requires Inv(s)
    ensures Inv(Apply(s, i, hostOf))
  {
    match i
    case FromSocket(socket, e) => HandleKeepsInv(s, socket, e, hostOf);
    case ChainTurn(outcome) =>
      Browser.ApplyKeepsNoBlank(s.browser, Browser.RunQueued(outcome), hostOf);
      Browser.ApplyKeepsSettled(s.browser, Browser.RunQueued(outcome), hostOf);
    case Frame(isMain, url) => Browser.ApplyKeepsNoBlank(s.browser, Browser.FrameNav(isMain, url), hostOf);
    case PageOpened =>
    case PageClosed =>
  }

  lemma HandleKeepsInv(s: Server, socket: Id, e: ClientEvent, hostOf: string -> Option<string>)
    requires Inv(s)
    ensures Inv(Handle(s, socket, e, hostOf).s)
  {
    match e
    case Connect => ControlQueue.ApplyValid(s.queue, ControlQueue.Join(socket));
    case Disconnect => ControlQueue.ApplyValid(s.queue, ControlQueue.Leave(socket));
    case ReleaseControl => ControlQueue.ApplyValid(s.queue, ControlQueue.Release);
    case NavigateTo(url) => Browser.ApplyKeepsNoBlank(s.browser, Browser.NavigateTo(url), hostOf);
    case _ =>
  }

  lemma {:induction false} RunKeepsInv(s: Server, inputs: seq<Input>, hostOf: string -> Option<string>)
    requires Inv(s)
    ensures Inv(Run(s, inputs, hostOf))
    decreases |inputs|
  {
    if |inputs| > 0 {
      ApplyKeepsInv(s, inputs[0], hostOf);
      RunKeepsInv(Apply(s, inputs[0], hostOf), inputs[1..], hostOf);
    }
  }

  lemma InitInv()
    ensures Inv(Init())
  {
  }

  /** The order server.js sees: a socket's events come after its `connection`
      and before its `disconnect`, so every event but a connection comes from a
      listed socket. */
  predicate ListedRun(s: Server, inputs: seq<Input>, hostOf: string -> Option<string>)
    decreases |inputs|
  {
    |inputs| > 0 ==>
      && (inputs[0].FromSocket? && inputs[0].e != Connect ==> inputs[0].socket in s.queue.clients)
      && ListedRun(Apply(s, inputs[0], hostOf), inputs[1..], hostOf)
  }

  lemma ListedKeepsNumericCursor(s: Server, i: Input, hostOf: string -> Option<string>)
    requires s.queue.index.At?
    requires i.FromSocket? && i.e != Connect ==> i.socket in s.queue.clients
    ensures Apply(s, i, hostOf).queue.index.At?
  {
    if i.FromSocket? && i.e == ReleaseControl {
      assert |s.queue.clients| > 0;
    }
  }

  /** Driven in that order from a numeric cursor, the queue never reaches the NaN
      cursor: `next()` is only ever called while its sender is listed. */
  lemma {:induction false} ListedRunKeepsNumericCursor(s: Server, inputs: seq<Input>, hostOf: string -> Option<string>)
    requires s.queue.index.At? && ListedRun(s, inputs, hostOf)
    ensures Run(s, inputs, hostOf).queue.index.At?
    decreases |inputs|
  {
    if |inputs| > 0 {
      ListedKeepsNumericCursor(s, inputs[0], hostOf);
      ListedRunKeepsNumericCursor(Apply(s, inputs[0], hostOf), inputs[1..], hostOf);
    }
  }

  // ---------------------------------------------------------------- as-written defects

  /** While the cursor is past the head of the list, the client that the server
      lets act is told it is view-only and the client at the head, which its own
      page lets act, is ignored by the server: nobody passes both gates. */
  lemma NobodyPassesBothGates(q: ControlQueue.Queue, x: Id)
    requires ControlQueue.Valid(q) && q.index.At? && q.index.n > 0
    ensures !(Holds(q, x) && ClientView.HasControl(ControlQueue.List(q), Some(x)))
  {
  }

  /** With the cursor at the head the two views agree. */
  lemma GatesAgreeAtHead(q: ControlQueue.Queue, x: Id)
    requires q.index == ControlQueue.At(0) && x != ""
    ensures Holds(q, x) <==> ClientView.HasControl(ControlQueue.List(q), Some(x))
  {
  }

  /** Two sockets join and one of them releases: the server now takes b's events,
      but b's page says it is view-only, while a's page says it is in control and
      the server drops what a sends. */
  lemma ReleaseStrandsControl(a: Id, b: Id, hostOf: string -> Option<string>)
    requires a != b && a != "" && b != ""
    ensures var s := Run(Init(), [FromSocket(a, Connect), FromSocket(b, Connect), FromSocket(a, ReleaseControl)], hostOf);
            && s.queue.clients == [a, b]
            && Holds(s.queue, b)
            && !ClientView.UpdateQueue(ControlQueue.List(s.queue), Some(b)).hasControl
            && ClientView.UpdateQueue(ControlQueue.List(s.queue), Some(a)).hasControl
            && !Holds(s.queue, a)
  {
    var s1 := Apply(Init(), FromSocket(a, Connect), hostOf);
    assert s1.queue == ControlQueue.Queue([a], ControlQueue.At(0));
    var s2 := Apply(s1, FromSocket(b, Connect), hostOf);
    assert s2.queue == ControlQueue.Queue([a, b], ControlQueue.At(0));
    var s3 := Apply(s2, FromSocket(a, ReleaseControl), hostOf);
    assert s3.queue == ControlQueue.Queue([a, b], ControlQueue.At(1));
    assert Run(s2, [FromSocket(a, ReleaseControl)], hostOf) == s3;
  }

  /** `screen-size` never reaches the controller's client size. */
  lemma ScreenSizeIgnored(s: Server, socket: Id, w: int, h: int, hostOf: string -> Option<string>)
    ensures Handle(s, socket, ScreenSize(w, h), hostOf).s.browser.clientW == s.browser.clientW
    ensures Handle(s, socket, ScreenSize(w, h), hostOf).s.browser.clientH == s.browser.clientH
  {
  }

  /** While the input chain is still busy with earlier work, the holder presses
      Back and then submits an address. Back waits in the chain behind that work
      while the address is loaded at once, so the engine loads the address first
      and the earlier Back runs after it. (On an idle chain Back would start before
      the next socket event.) */
  lemma NavigateOvertakesQueuedButton(s: Server, x: Id, u: string, hostOf: string -> Option<string>)
    requires Holds(s.queue, x) && s.browser.page != Browser.NoPage
    requires |s.browser.pending| > 0
    requires hostOf(Utils.NormalizeUrl(u)) != Some(Browser.OwnHost)
    ensures var s1 := Handle(s, x, NavBack, hostOf).s;
            var r2 := Handle(s1, x, NavigateTo(u), hostOf);
            && r2.calls == [Browser.Goto(Utils.NormalizeUrl(u))]
            && r2.s.browser.pending == s.browser.pending + [Browser.ButtonCmd("back")]
  {
  }
}

/** The router as its design intends it: the holder is the head of the list, as
    the client believes; `navigate` waits its turn in the input chain like the
    buttons; and `screen-size` records the client's size. */
module FixedSession {
  import opened Wrappers
  import opened Seqs
  import ControlQueue
  import HeadQueue
  import Browser
  import ClientView
  import Session
  import Utils

  type Id = ControlQueue.Id
  type ClientEvent = Session.ClientEvent
  type Out = Session.Out

  datatype Server = Server(queue: HeadQueue.Queue, browser: Browser.State)

  datatype Step = Step(s: Server, calls: seq<Browser.Call>, out: seq<Out>)

  function Init(): Server
  {
    Server(HeadQueue.Init(), Browser.Init())
  }

  predicate Holds(q: HeadQueue.Queue, socket: Id)
  {
    HeadQueue.Current(q) == Some(socket)
  }

  /** The command a gated event puts in the input chain. */
  function Queued(e: ClientEvent): Browser.Command
    requires Session.Gated(e)
  {
    match e
    case ControlEvent(ev) => Browser.InputCmd(ev)
    case NavigateTo(url) => Browser.NavCmd(url)
    case NavBack => Browser.ButtonCmd("back")
    case NavForward => Browser.ButtonCmd("forward")
    case NavRefresh => Browser.ButtonCmd("refresh")
  }

  /** One event from one socket; no event calls the engine directly. */
  function Handle(s: Server, socket: Id, e: ClientEvent): (r: Step)
    ensures r.calls == []
    ensures Session.Gated(e) && !Holds(s.queue, socket) ==> r == Step(s, [], [])
    ensures Session.Gated(e) && Holds(s.queue, socket) && e.ControlEvent? && s.browser.page != Browser.Open ==>
              r == Step(s, [], [])
    ensures Session.Gated(e) && Holds(s.queue, socket) && !(e.ControlEvent? && s.browser.page != Browser.Open) ==>
              && r.s.queue == s.queue && r.out == []
              && r.s.browser.pending == s.browser.pending + [Queued(e)]
              && r.s.browser.(pending := s.browser.pending) == s.browser
    ensures e == Session.Connect ==> socket in r.s.queue.clients && r.s.queue == HeadQueue.Join(s.queue, socket).q
    ensures e == Session.Disconnect ==> r.s.queue == HeadQueue.Leave(s.queue, socket).q
    ensures e == Session.ReleaseControl ==> r.s.queue == HeadQueue.Advance(s.queue).q
    ensures !Session.Gated(e) && !e.ScreenSize? ==> r.s.browser == s.browser
    ensures NoDup(s.queue.clients) ==> NoDup(r.s.queue.clients)
  {
    match e
    case Connect =>
      var j := HeadQueue.Join(s.queue, socket);
      Step(s.(queue := j.q), [],
           Session.Updates(j.out) + [Session.ToClient(ControlQueue.Update(socket, j.q.clients))])
    case Disconnect =>
      var l := HeadQueue.Leave(s.queue, socket);
      Step(s.(queue := l.q), [], Session.Updates(l.out))
    case ScreenSize(w, h) => Step(s.(browser := Browser.SetClientRes(s.browser, w, h)), [], [])
    case ReleaseControl =>
      var n := HeadQueue.Advance(s.queue);
      Step(s.(queue := n.q), [], Session.Updates(n.out))
    case _ =>
      if !Holds(s.queue, socket) then Step(s, [], [])
      else
        var b := match e
          case ControlEvent(ev) => Browser.HandleInput(s.browser, ev)
          case NavigateTo(url) => s.browser.(pending := s.browser.pending + [Browser.NavCmd(url)])
          case NavBack => Browser.HandleButton(s.browser, "back")
          case NavForward => Browser.HandleButton(s.browser, "forward")
          case _ => Browser.HandleButton(s.browser, "refresh");
        Step(s.(browser := b), [], [])
  }

  /** The socket the server lets act is exactly the one whose page says it is in
      control. */
  lemma ClientViewAgrees(q: HeadQueue.Queue, x: Id)
    ensures Holds(q, x) <==> ClientView.HasControl(q.clients, Some(x))
  {
  }

  /** `screen-size` records the size. */
  lemma ScreenSizeRecorded(s: Server, socket: Id, w: int, h: int)
    ensures var t := Handle(s, socket, Session.ScreenSize(w, h)).s.browser;
            t.clientW == w && t.clientH == h
  {
  }

  /** Back and then an address: both wait in the input chain, in that order, and
      the chain's engine calls and broadcasts are those of running Back and then
      the navigation directly. */
  lemma HolderCommandsInOrder(s: Server, x: Id, u: string, outcomes: seq<Browser.Outcome>, hostOf: string -> Option<string>)
    requires Holds(s.queue, x) && |s.browser.pending| == 0 && |outcomes| >= 2
    ensures var s1 := Handle(s, x, Session.NavBack).s;
            var s2 := Handle(s1, x, Session.NavigateTo(u)).s;
            var d := Browser.Drain(s2.browser, outcomes, hostOf);
            var e := Browser.Exec(s2.browser, [Browser.ButtonCmd("back"), Browser.NavCmd(u)], outcomes, hostOf);
            && s2.browser == s.browser.(pending := [Browser.ButtonCmd("back"), Browser.NavCmd(u)])
            && d.ran == [Browser.ButtonCmd("back"), Browser.NavCmd(u)]
            && d.calls == e.calls && d.out == e.out
  {
    var s2 := Handle(Handle(s, x, Session.NavBack).s, x, Session.NavigateTo(u)).s;
    QueueBackThenAddress(s, x, u);
    DrainTwo(s2.browser, Browser.ButtonCmd("back"), Browser.NavCmd(u), outcomes, hostOf);
  }

  /** With a page open, a page to go back to and an address that is not this
      server's, the engine is asked for the previous page first and for the
      address second: the order the holder sent them in. */
  lemma HolderBackGotoComesFirst(s: Server, x: Id, u: string, outcomes: seq<Browser.Outcome>, hostOf: string -> Option<string>)
    requires Holds(s.queue, x) && |s.browser.pending| == 0 && |outcomes| >= 2
    requires s.browser.page != Browser.NoPage && |s.browser.history| >= 2
    requires hostOf(Utils.NormalizeUrl(u)) != Some(Browser.OwnHost)
    ensures var b2 := s.browser.(pending := [Browser.ButtonCmd("back"), Browser.NavCmd(u)]);
            && Handle(Handle(s, x, Session.NavBack).s, x, Session.NavigateTo(u)).s.browser == b2
            && Browser.Drain(b2, outcomes, hostOf).calls
                 == [Browser.Goto(b2.history[|b2.history| - 2]), Browser.Goto(Utils.NormalizeUrl(u))]
  {
    var b2 := s.browser.(pending := [Browser.ButtonCmd("back"), Browser.NavCmd(u)]);
    ChainBackThenAddress(b2, u, outcomes, hostOf);
    assert Browser.Drain(b2, outcomes, hostOf).calls
             == [Browser.Goto(b2.history[|b2.history| - 2]), Browser.Goto(Utils.NormalizeUrl(u))];
    QueueBackThenAddress(s, x, u);
  }

  /** The holder's Back and address join the empty chain, in that order. */
  lemma QueueBackThenAddress(s: Server, x: Id, u: string)
    requires Holds(s.queue, x) && |s.browser.pending| == 0
    ensures Handle(Handle(s, x, Session.NavBack).s, x, Session.NavigateTo(u)).s.browser
              == s.browser.(pending := [Browser.ButtonCmd("back"), Browser.NavCmd(u)])
  {
    var s1 := Handle(s, x, Session.NavBack).s;
    assert s1.browser == s.browser.(pending := [Browser.ButtonCmd("back")]) && s1.queue == s.queue;
  }

  lemma ChainBackThenAddress(b: Browser.State, u: string, outcomes: seq<Browser.Outcome>, hostOf: string -> Option<string>)
    requires b.pending == [Browser.ButtonCmd("back"), Browser.NavCmd(u)]
    requires |outcomes| >= 2 && b.page != Browser.NoPage && |b.history| >= 2
    requires hostOf(Utils.NormalizeUrl(u)) != Some(Browser.OwnHost)
    ensures Browser.Drain(b, outcomes, hostOf).calls
              == [Browser.Goto(b.history[|b.history| - 2]), Browser.Goto(Utils.NormalizeUrl(u))]
  {
    DrainTwo(b, Browser.ButtonCmd("back"), Browser.NavCmd(u), outcomes, hostOf);
    BackThenAddressCalls(b, u, outcomes, hostOf);
  }

  lemma BackThenAddressCalls(b: Browser.State, u: string, outcomes: seq<Browser.Outcome>, hostOf: string -> Option<string>)
    requires |outcomes| >= 2 && b.page != Browser.NoPage && |b.history| >= 2
    requires hostOf(Utils.NormalizeUrl(u)) != Some(Browser.OwnHost)
    ensures Browser.Exec(b, [Browser.ButtonCmd("back"), Browser.NavCmd(u)], outcomes, hostOf).calls
              == [Browser.Goto(b.history[|b.history| - 2]), Browser.Goto(Utils.NormalizeUrl(u))]
  {
    var a := Browser.Back(b);
    BackRunsBack(b, outcomes[0], hostOf);
    BackLoadsPrevious(b);
    var n := Browser.Navigate(a.s, u, hostOf);
    AddressRunsNavigate(a.s, u, outcomes[1], hostOf);
    assert n.calls == [Browser.Goto(Utils.NormalizeUrl(u))];
    ExecTwo(b, Browser.ButtonCmd("back"), Browser.NavCmd(u), outcomes, hostOf);
    assert a.calls + n.calls == [Browser.Goto(b.history[|b.history| - 2]), Browser.Goto(Utils.NormalizeUrl(u))];
  }

  lemma BackLoadsPrevious(b: Browser.State)
    requires b.page != Browser.NoPage && |b.history| >= 2
    ensures Browser.Back(b).calls == [Browser.Goto(b.history[|b.history| - 2])]
    ensures Browser.Back(b).s.page == b.page
  {
    var a := Browser.Back(b);
    assert a.s.history[|a.s.history| - 1] == b.history[|b.history| - 2];
  }

  lemma BackRunsBack(b: Browser.State, outcome: Browser.Outcome, hostOf: string -> Option<string>)
    ensures Browser.RunCommand(b, Browser.ButtonCmd("back"), outcome, hostOf) == Browser.Back(b)
  {
  }

  lemma AddressRunsNavigate(b: Browser.State, u: string, outcome: Browser.Outcome, hostOf: string -> Option<string>)
    ensures Browser.RunCommand(b, Browser.NavCmd(u), outcome, hostOf) == Browser.Navigate(b, u, hostOf)
  {
  }

  /** Two commands run directly: the first's calls, then the second's, run on
      the state the first left. */
  lemma ExecTwo(b: Browser.State, c1: Browser.Command, c2: Browser.Command, outcomes: seq<Browser.Outcome>,
                hostOf: string -> Option<string>)
    requires |outcomes| >= 2
    ensures var r1 := Browser.RunCommand(b, c1, outcomes[0], hostOf);
            var r2 := Browser.RunCommand(r1.s, c2, outcomes[1], hostOf);
            Browser.Exec(b, [c1, c2], outcomes, hostOf).calls == r1.calls + r2.calls
  {
    var r1 := Browser.RunCommand(b, c1, outcomes[0], hostOf);
    assert [c1, c2][1..] == [c2];
    assert Browser.Exec(r1.s, [c2], outcomes[1..], hostOf).calls
        == Browser.RunCommand(r1.s, c2, outcomes[1], hostOf).calls;
  }

  lemma DrainTwo(b: Browser.State, c1: Browser.Command, c2: Browser.Command, outcomes: seq<Browser.Outcome>,
                 hostOf: string -> Option<string>)
    requires b.pending == [c1, c2] && |outcomes| >= 2
    ensures var d := Browser.Drain(b, outcomes, hostOf);
            var e := Browser.Exec(b, [c1, c2], outcomes, hostOf);
            d.ran == [c1, c2] && d.calls == e.calls && d.out == e.out
  {
    Browser.DrainInOrder(b, outcomes, hostOf);
    assert b.pending[..2] == b.pending;
  }

  function Apply(s: Server, i: Session.Input, hostOf: string -> Option<string>): Server
  {
    match i
    case FromSocket(socket, e) => Handle(s, socket, e).s
    case ChainTurn(outcome) => s.(browser := Browser.Apply(s.browser, Browser.RunQueued(outcome), hostOf).s)
    case Frame(isMain, url) => s.(browser := Browser.Apply(s.browser, Browser.FrameNav(isMain, url), hostOf).s)
    case PageOpened => s.(browser := Browser.Apply(s.browser, Browser.PageOpened, hostOf).s)
    case PageClosed => s.(browser := Browser.Apply(s.browser, Browser.PageClosed, hostOf).s)
  }

  function Run(s: Server, inputs: seq<Session.Input>, hostOf: string -> Option<string>): Server
    decreases |inputs|
  {
    if |inputs| == 0 then s else Run(Apply(s, inputs[0], hostOf), inputs[1..], hostOf)
  }

  /** Whatever happens, the queue has no duplicates, a non-empty queue has a holder,
      and that holder is the one client whose page lets it act. */
  lemma {:induction false} HolderAlwaysAgrees(s: Server, inputs: seq<Session.Input>, x: Id, hostOf: string -> Option<string>)
    requires NoDup(s.queue.clients)
    ensures var t := Run(s, inputs, hostOf);
            && NoDup(t.queue.clients)
            && (|t.queue.clients| > 0 <==> HeadQueue.Current(t.queue).Some?)
            && (Holds(t.queue, x) <==> ClientView.HasControl(t.queue.clients, Some(x)))
    decreases |inputs|
  {
    if |inputs| > 0 {
      HolderAlwaysAgrees(Apply(s, inputs[0], hostOf), inputs[1..], x, hostOf);
    }
  }
}
