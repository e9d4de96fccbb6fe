/** The navigation and input state of `BrowserController` (lib/browser.js).

    The browser engine is not modelled: every engine call the controller makes is
    recorded as a `Call`, and whether a call throws is an `Outcome` parameter. What
    the controller broadcasts to every client is recorded as a `Broadcast`. The
    `inputQueue` promise chain becomes `pending`, a first-in first-out list of
    commands that `RunNext` takes from one at a time. */
module Browser {
  import opened Wrappers
  import Utils

  type Url = string

  const Blank: Url := "about:blank"
  const OwnHost := "localhost:3000"

  /** `this.page`: none before launch, a page, or a page that has been closed. */
  datatype Page = NoPage | Open | Closed

  /** An engine call the controller issued. */
  datatype Call =
    | Goto(url: Url)
    | Reload
    | MouseMove
    | MouseDown(button: string)
    | MouseUp(button: string)
    | Wheel(deltaY: int)
    | Focus(selector: string)
    | FocusActive
    | KeyType(key: string)
    | KeyDown(key: string)
    | KeyUp(key: string)

  /** `loading-start`, `loading-end` and `update-url` sent to every client. The URL
      that `update-url` carries is read from the engine and is not modelled. */
  datatype Broadcast = LoadingStart(msg: Option<string>) | LoadingEnd(msg: Option<string>) | UrlUpdate

  /** A `control-event` payload: its `type`, `action`, `button`, `key`, `selector`
      and `deltaY` fields (pointer coordinates are left out). */
  datatype InputEvent = InputEvent(
    kind: string, action: string, button: Option<string>, key: string,
    selector: Option<string>, deltaY: int)

  /** A command waiting in the input chain. `NavCmd` is never queued by the
      controller as written; the corrected session in `FixedSession` queues it. */
  datatype Command = ButtonCmd(action: string) | InputCmd(event: InputEvent) | NavCmd(input: string)

  /** Which engine call of a command throws, if any. */
  datatype Outcome = AllOk | FailAt(k: nat)

  datatype State = State(
    page: Page,
    width: int, height: int,
    clientW: int, clientH: int,
    isNavigating: bool,
    mouseDown: map<string, bool>,
    history: seq<Url>,
    forwardStack: seq<Url>,
    pending: seq<Command>)

  datatype Step = Step(s: State, calls: seq<Call>, out: seq<Broadcast>)

  /** The constructor with its default 1280 x 720 viewport, before launch. */
  function Init(): State
  {
    State(NoPage, 1280, 720, 1280, 720, false,
          map["left" := false, "right" := false, "middle" := false], [], [], [])
  }

  /** Neither stack holds `about:blank`. */
  predicate NoBlank(s: State)
  {
    Blank !in s.history && Blank !in s.forwardStack
  }

  // ---------------------------------------------------------------- navigation

  /** `navigate(input)`. With no page nothing happens. A normalised URL whose host
      is this server's own is refused with a `loading-end` message and nothing else
      changes. Otherwise the forward stack is cleared and one `goto` of the
      normalised URL is issued; its failure is caught, so `isNavigating` is false
      again at the end in every case. `hostOf` is the host of the WHATWG URL parse,
      None when parsing throws (which skips the check). */
  function Navigate(s: State, input: string, hostOf: string -> Option<string>): (r: Step)
    ensures r.s.history == s.history
    ensures s.page == NoPage ==> r == Step(s, [], [])
    ensures s.page != NoPage && hostOf(Utils.NormalizeUrl(input)) == Some(OwnHost) ==>
              r.s == s && r.calls == [] && r.out == [LoadingEnd(Some("Navigation blocked: own server URL"))]
    ensures r.calls != [] <==> s.page != NoPage && hostOf(Utils.NormalizeUrl(input)) != Some(OwnHost)
    ensures r.calls != [] ==>
              && r.calls == [Goto(Utils.NormalizeUrl(input))]
              && r.s.forwardStack == []
              && !r.s.isNavigating
              && r.s.(forwardStack := s.forwardStack, isNavigating := s.isNavigating) == s
              && |r.out| == 3 && r.out[0].LoadingStart? && r.out[0].msg.Some?
              && r.out[1] == LoadingEnd(None) && r.out[2] == UrlUpdate
  {
    if s.page == NoPage then Step(s, [], [])
    else
      var url := Utils.NormalizeUrl(input);
      if hostOf(url) == Some(OwnHost) then
        Step(s, [], [LoadingEnd(Some("Navigation blocked: own server URL"))])
      else
        Step(s.(forwardStack := [], isNavigating := false), [Goto(url)],
             [LoadingStart(Some("Navigating…")), LoadingEnd(None), UrlUpdate])
  }

  /** `back()`. With no page or at most one history entry nothing happens.
      Otherwise the last entry moves onto the forward stack and the entry before it
      is loaded; the stacks have changed before the engine call, so they stay
      changed whether or not it fails. */
  function Back(s: State): (r: Step)
    ensures |r.s.history| + |r.s.forwardStack| == |s.history| + |s.forwardStack|
    ensures s.page == NoPage || |s.history| <= 1 ==> r == Step(s, [], [])
    ensures s.page != NoPage && |s.history| > 1 ==>
              && r.s.history == s.history[..|s.history| - 1]
              && r.s.forwardStack == s.forwardStack + [s.history[|s.history| - 1]]
              && r.calls == [Goto(r.s.history[|r.s.history| - 1])]
              && !r.s.isNavigating
              && r.s.(history := s.history, forwardStack := s.forwardStack, isNavigating := s.isNavigating) == s
              && |r.out| == 3 && r.out[0].LoadingStart? && r.out[0].msg.Some?
              && r.out[1] == LoadingEnd(None) && r.out[2] == UrlUpdate
  {
    if s.page == NoPage || |s.history| <= 1 then Step(s, [], [])
    else
      var current := s.history[|s.history| - 1];
      var history := s.history[..|s.history| - 1];
      var previous := history[|history| - 1];
      Step(s.(history := history, forwardStack := s.forwardStack + [current], isNavigating := false),
           [Goto(previous)],
           [LoadingStart(Some("Going back…")), LoadingEnd(None), UrlUpdate])
  }

  /** `forward()`. With no page or an empty forward stack nothing happens.
      Otherwise the top of the forward stack is appended to the history and loaded. */
  function Forward(s: State): (r: Step)
    ensures |r.s.history| + |r.s.forwardStack| == |s.history| + |s.forwardStack|
    ensures s.page == NoPage || |s.forwardStack| == 0 ==> r == Step(s, [], [])
    ensures s.page != NoPage && |s.forwardStack| > 0 ==>
              && r.s.forwardStack == s.forwardStack[..|s.forwardStack| - 1]
              && r.s.history == s.history + [s.forwardStack[|s.forwardStack| - 1]]
              && r.calls == [Goto(s.forwardStack[|s.forwardStack| - 1])]
              && !r.s.isNavigating
              && r.s.(history := s.history, forwardStack := s.forwardStack, isNavigating := s.isNavigating) == s
              && |r.out| == 3 && r.out[0].LoadingStart? && r.out[0].msg.Some?
              && r.out[1] == LoadingEnd(None) && r.out[2] == UrlUpdate
  {
    if s.page == NoPage || |s.forwardStack| == 0 then Step(s, [], [])
    else
      var next := s.forwardStack[|s.forwardStack| - 1];
      Step(s.(history := s.history + [next], forwardStack := s.forwardStack[..|s.forwardStack| - 1],
              isNavigating := false),
           [Goto(next)],
           [LoadingStart(Some("Going forward…")), LoadingEnd(None), UrlUpdate])
  }

  /** `refresh()`: a reload, which touches neither stack. */
  function Refresh(s: State): (r: Step)
    ensures r.s.history == s.history && r.s.forwardStack == s.forwardStack
    ensures s.page == NoPage ==> r == Step(s, [], [])
    ensures s.page != NoPage ==> r.calls == [Reload] && r.s == s.(isNavigating := false)
    ensures s.page != NoPage ==>
              && |r.out| == 3 && r.out[0].LoadingStart? && r.out[0].msg.Some?
              && r.out[1] == LoadingEnd(None) && r.out[2] == UrlUpdate
  {
    if s.page == NoPage then Step(s, [], [])
    else
      Step(s.(isNavigating := false), [Reload],
           [LoadingStart(Some("Refreshing…")), LoadingEnd(None), UrlUpdate])
  }

  /** A client's `loading` flag after it receives these broadcasts, in order:
      `loading-start` sets it and `loading-end` clears it (public/js/socket.js and
      `setLoading` in public/js/ui.js); `update-url` leaves it alone. */
  function LoadingAfter(loading: bool, out: seq<Broadcast>): bool
    decreases |out|
  {
    if |out| == 0 then loading
    else
      var next := match out[0]
        case LoadingStart(_) => true
        case LoadingEnd(_) => false
        case UrlUpdate => loading;
      LoadingAfter(next, out[1..])
  }

  /** The four navigations, each of which awaits one engine call. */
  datatype NavOp = Go(input: string) | GoBack | GoForward | GoRefresh

  function RunNav(s: State, op: NavOp, hostOf: string -> Option<string>): Step
  {
    match op
    case Go(input) => Navigate(s, input, hostOf)
    case GoBack => Back(s)
    case GoForward => Forward(s)
    case GoRefresh => Refresh(s)
  }

  /** Every navigation that issues an engine call shows the client's loading
      screen while the call is pending and takes it down at the end, so the
      client's `ensureControl` gate opens again; the refused navigation only takes
      it down; one that does nothing broadcasts nothing. */
  lemma NavigationClearsLoading(s: State, op: NavOp, loading: bool, hostOf: string -> Option<string>)
    ensures var r := RunNav(s, op, hostOf);
            && (r.out != [] ==> !LoadingAfter(loading, r.out))
            && (r.calls != [] ==> LoadingAfter(loading, r.out[..1]))
            && (r.out == [] ==> r == Step(s, [], []))
  {
    var r := RunNav(s, op, hostOf);
    if r.calls != [] {
      assert r.out[1..][1..][1..] == [];
    } else if r.out != [] {
      assert r.out[1..] == [];
    }
  }

  /** The state while a navigation's engine call is pending (None when the
      navigation returns without one): `isNavigating` is set and the stacks have
      already been updated. */
  function InFlight(s: State, op: NavOp, hostOf: string -> Option<string>): Option<State>
  {
    match op
    case Go(input) =>
      if s.page == NoPage || hostOf(Utils.NormalizeUrl(input)) == Some(OwnHost) then None
      else Some(s.(isNavigating := true, forwardStack := []))
    case GoBack =>
      if s.page == NoPage || |s.history| <= 1 then None
      else
        var h := s.history;
        Some(s.(isNavigating := true, history := h[..|h| - 1], forwardStack := s.forwardStack + [h[|h| - 1]]))
    case GoForward =>
      if s.page == NoPage || |s.forwardStack| == 0 then None
      else
        var f := s.forwardStack;
        Some(s.(isNavigating := true, history := s.history + [f[|f| - 1]], forwardStack := f[..|f| - 1]))
    case GoRefresh =>
      if s.page == NoPage then None else Some(s.(isNavigating := true))
  }

  /** Every navigation that issues an engine call holds `isNavigating` while the
      call is pending and clears it when it finishes, whether the call succeeded or
      failed; one that issues none changes no stack and no flag. */
  lemma NavigationSettles(s: State, op: NavOp, hostOf: string -> Option<string>)
    ensures var r := RunNav(s, op, hostOf);
            && (InFlight(s, op, hostOf).Some? <==> r.calls != [])
            && (InFlight(s, op, hostOf).Some? ==>
                  InFlight(s, op, hostOf).value.isNavigating
                  && r.s == InFlight(s, op, hostOf).value.(isNavigating := false))
            && (InFlight(s, op, hostOf).None? ==> r.s == s)
  {
  }

  /** Going back and then forward again restores both stacks. */
  lemma BackThenForward(s: State)
    requires s.page != NoPage && |s.history| > 1
    ensures var t := Forward(Back(s).s).s;
            t.history == s.history && t.forwardStack == s.forwardStack
  {
    var b := Back(s).s;
    assert b.forwardStack[..|b.forwardStack| - 1] == s.forwardStack;
    assert b.history + [s.history[|s.history| - 1]] == s.history;
  }

  /** Going forward and then back again restores both stacks. */
  lemma ForwardThenBack(s: State)
    requires s.page != NoPage && |s.forwardStack| > 0 && |s.history| > 0
    ensures var t := Back(Forward(s).s).s;
            t.history == s.history && t.forwardStack == s.forwardStack
  {
    var f := Forward(s).s;
    assert f.history[..|f.history| - 1] == s.history;
    assert f.forwardStack + [s.forwardStack[|s.forwardStack| - 1]] == s.forwardStack;
  }

  /** `_onFrameNavigated(frame)`. Frames other than the main frame are ignored.
      For the main frame the URL is appended to the history unless it is
      `about:blank` or already the last entry; `loading-start` and `update-url`
      are sent either way. */
  function FrameNavigated(s: State, isMain: bool, url: Url): (r: Step)
    ensures !isMain ==> r == Step(s, [], [])
    ensures r.s.(history := s.history) == s
    ensures r.s.history == s.history || r.s.history == s.history + [url]
    ensures isMain ==>
              (|r.s.history| == |s.history| + 1 <==>
               url != Blank && (|s.history| == 0 || s.history[|s.history| - 1] != url))
    ensures isMain && url != Blank ==> |r.s.history| > 0 && r.s.history[|r.s.history| - 1] == url
    ensures isMain ==> r.calls == [] && r.out == [LoadingStart(None), UrlUpdate]
  {
    if !isMain then Step(s, [], [])
    else
      var h := s.history;
      var history := if url != Blank && (|h| == 0 || h[|h| - 1] != url) then h + [url] else h;
      Step(s.(history := history), [], [LoadingStart(None), UrlUpdate])
  }

  /** The history can hold the same URL twice in a row, because a main-frame
      navigation does not clear the forward stack: after going back from b, a link
      to b appends b again, and going forward appends the b on the forward stack. */
  lemma ForwardCanRepeatTop(s: State, a: Url, b: Url)
    requires s.page != NoPage && s.history == [a, b] && s.forwardStack == [] && a != b && b != Blank
    ensures var t := Forward(FrameNavigated(Back(s).s, true, b).s).s;
            t.history == [a, b, b]
  {
    var s1 := Back(s).s;
    assert s1.history == [a] && s1.forwardStack == [b];
    var s2 := FrameNavigated(s1, true, b).s;
    assert s2.history == [a, b];
  }

  // ---------------------------------------------------------------- mouse

  /** The names an ordinary JavaScript object inherits from `Object.prototype`;
      reading one of them from `mouseDown` gives a truthy value. */
  predicate IsInherited(name: string)
  {
    || name == "constructor" || name == "hasOwnProperty" || name == "isPrototypeOf"
    || name == "propertyIsEnumerable" || name == "toLocaleString" || name == "toString"
    || name == "valueOf" || name == "__defineGetter__" || name == "__defineSetter__"
    || name == "__lookupGetter__" || name == "__lookupSetter__" || name == "__proto__"
  }

  /** `this.mouseDown[button]` read as a boolean. */
  predicate IsDown(m: map<string, bool>, button: string)
  {
    if button == "__proto__" then true
    else if button in m then m[button]
    else IsInherited(button)
  }

  /** `this.mouseDown[button] = v`. Assigning a boolean to `__proto__` is ignored. */
  function SetDown(m: map<string, bool>, button: string, v: bool): (r: map<string, bool>)
    ensures button != "__proto__" ==> IsDown(r, button) == v
    ensures forall other | other != button :: IsDown(r, other) == IsDown(m, other)
  {
    if button == "__proto__" then m else m[button := v]
  }

  /** `event.button || "left"`. */
  function ButtonName(button: Option<string>): string
  {
    if button.None? || button.value == "" then "left" else button.value
  }

  /** `_handleMouse(event)`: move the pointer (a failure ends the command), then
      press the button only if it is not already down, or release it only if it
      is down. The recorded state follows the engine call only when that call
      succeeds. */
  function HandleMouse(s: State, ev: InputEvent, outcome: Outcome): (r: Step)
    ensures r.s.(mouseDown := s.mouseDown) == s && r.out == []
    ensures 1 <= |r.calls| <= 2 && r.calls[0] == MouseMove
    ensures outcome == FailAt(0) || outcome == FailAt(1) ==> r.s.mouseDown == s.mouseDown
    ensures var b := ButtonName(ev.button);
            && (MouseDown(b) in r.calls <==>
                  outcome != FailAt(0) && ev.action == "down" && !IsDown(s.mouseDown, b))
            && (MouseUp(b) in r.calls <==>
                  outcome != FailAt(0) && ev.action == "up" && IsDown(s.mouseDown, b))
            && (outcome != FailAt(1) && MouseDown(b) in r.calls ==> IsDown(r.s.mouseDown, b))
            && (outcome != FailAt(1) && MouseUp(b) in r.calls && b != "__proto__" ==>
                  !IsDown(r.s.mouseDown, b))
            && (forall other | other != b :: IsDown(r.s.mouseDown, other) == IsDown(s.mouseDown, other))
            && (|r.calls| == 1 ==> IsDown(r.s.mouseDown, b) == IsDown(s.mouseDown, b))
            && (|r.calls| == 2 ==> r.calls[1] == MouseDown(b) || r.calls[1] == MouseUp(b))
  {
    var b := ButtonName(ev.button);
    if outcome == FailAt(0) then Step(s, [MouseMove], [])
    else if ev.action == "down" && !IsDown(s.mouseDown, b) then
      var m := if outcome == FailAt(1) then s.mouseDown else SetDown(s.mouseDown, b, true);
      Step(s.(mouseDown := m), [MouseMove, MouseDown(b)], [])
    else if ev.action == "up" && IsDown(s.mouseDown, b) then
      var m := if outcome == FailAt(1) then s.mouseDown else SetDown(s.mouseDown, b, false);
      Step(s.(mouseDown := m), [MouseMove, MouseUp(b)], [])
    else Step(s, [MouseMove], [])
  }

  /** Two presses of the same button in a row reach the engine as one. */
  lemma DoubleDownIssuesOneDown(s: State, ev: InputEvent)
    requires ev.action == "down"
    ensures var b := ButtonName(ev.button);
            var second := HandleMouse(HandleMouse(s, ev, AllOk).s, ev, AllOk);
            MouseDown(b) !in second.calls
  {
  }

  // ---------------------------------------------------------------- keyboard

  /** `_handleKeyboard(event, selector)`: focus the selector when one is given (a
      failure there is ignored) or else the active element (a failure ends the
      command), then type, press or release the key for the actions `type`,
      `down` and `up`. The controller's state is untouched. */
  function HandleKeyboard(s: State, ev: InputEvent, outcome: Outcome): (r: Step)
    ensures r.s == s && r.out == []
    ensures 1 <= |r.calls| <= 2
    ensures r.calls[0] == (if ev.selector.Some? && ev.selector.value != "" then Focus(ev.selector.value) else FocusActive)
    ensures |r.calls| == 2 <==>
              (ev.action == "type" || ev.action == "down" || ev.action == "up")
              && !(r.calls[0] == FocusActive && outcome == FailAt(0))
    ensures |r.calls| == 2 ==>
              r.calls[1] == (if ev.action == "type" then KeyType(ev.key)
                             else if ev.action == "down" then KeyDown(ev.key) else KeyUp(ev.key))
  {
    var focus := if ev.selector.Some? && ev.selector.value != "" then Focus(ev.selector.value) else FocusActive;
    if focus == FocusActive && outcome == FailAt(0) then Step(s, [focus], [])
    else if ev.action == "type" then Step(s, [focus, KeyType(ev.key)], [])
    else if ev.action == "down" then Step(s, [focus, KeyDown(ev.key)], [])
    else if ev.action == "up" then Step(s, [focus, KeyUp(ev.key)], [])
    else Step(s, [focus], [])
  }

  /** The browser client names key events `keydown` and `keyup`
      (public/js/control.js), which the controller does not act on: only the focus
      call reaches the engine. */
  lemma ClientKeyActionsIgnored(s: State, ev: InputEvent, outcome: Outcome)
    requires ev.kind == "keyboard" && (ev.action == "keydown" || ev.action == "keyup")
    ensures |HandleKeyboard(s, ev, outcome).calls| == 1
  {
  }

  // ---------------------------------------------------------------- the input chain

  /** `handleButton(action)`: the action joins the chain, whatever it is. */
  function HandleButton(s: State, action: string): (r: State)
    ensures r.pending == s.pending + [ButtonCmd(action)]
    ensures r.(pending := s.pending) == s
  {
    s.(pending := s.pending + [ButtonCmd(action)])
  }

  /** `handleInput(event)`: with no page or a closed page the event is dropped;
      otherwise it joins the chain. */
  function HandleInput(s: State, ev: InputEvent): (r: State)
    ensures s.page != Open ==> r == s
    ensures s.page == Open ==> r.pending == s.pending + [InputCmd(ev)]
    ensures r.(pending := s.pending) == s
  {
    if s.page != Open then s else s.(pending := s.pending + [InputCmd(ev)])
  }

  /** One command of the chain, once its turn comes. Unknown button actions and
      unknown input types do nothing. */
  function RunCommand(s: State, c: Command, outcome: Outcome, hostOf: string -> Option<string>): (r: Step)
    ensures r.s.pending == s.pending
  {
    match c
    case ButtonCmd(action) =>
      if action == "back" then Back(s)
      else if action == "forward" then Forward(s)
      else if action == "refresh" then Refresh(s)
      else Step(s, [], [])
    case InputCmd(ev) =>
      if ev.kind == "mouse" then HandleMouse(s, ev, outcome)
      else if ev.kind == "keyboard" then HandleKeyboard(s, ev, outcome)
      else if ev.kind == "wheel" then Step(s, [Wheel(ev.deltaY)], [])
      else Step(s, [], [])
    case NavCmd(input) => Navigate(s, input, hostOf)
  }

  /** A button action other than back, forward and refresh does nothing. */
  lemma UnknownButtonNoEffect(s: State, action: string, outcome: Outcome, hostOf: string -> Option<string>)
    requires action != "back" && action != "forward" && action != "refresh"
    ensures RunCommand(s, ButtonCmd(action), outcome, hostOf) == Step(s, [], [])
  {
  }

  /** An input event whose type is not mouse, keyboard or wheel does nothing. */
  lemma UnknownInputNoEffect(s: State, ev: InputEvent, outcome: Outcome, hostOf: string -> Option<string>)
    requires ev.kind != "mouse" && ev.kind != "keyboard" && ev.kind != "wheel"
    ensures RunCommand(s, InputCmd(ev), outcome, hostOf) == Step(s, [], [])
  {
  }

  /** The head of the chain runs; whatever its outcome, it leaves the chain, so a
      failing command never holds up the ones behind it. */
  /** No command reads or changes the chain: running one on a state with another
      chain does the same and keeps that chain. */
  lemma RunCommandIgnoresPending(s: State, p: seq<Command>, c: Command, outcome: Outcome,
                                 hostOf: string -> Option<string>)
    ensures var r := RunCommand(s, c, outcome, hostOf);
            RunCommand(s.(pending := p), c, outcome, hostOf) == Step(r.s.(pending := p), r.calls, r.out)
  {
    match c
    case ButtonCmd(action) => ButtonIgnoresPending(s, p, action);
    case InputCmd(ev) => InputIgnoresPending(s, p, ev, outcome, hostOf);
    case NavCmd(input) =>
  }

  lemma ButtonIgnoresPending(s: State, p: seq<Command>, action: string)
    ensures var b := if action == "back" then Back(s) else if action == "forward" then Forward(s)
                     else if action == "refresh" then Refresh(s) else Step(s, [], []);
            var t := s.(pending := p);
            (if action == "back" then Back(t) else if action == "forward" then Forward(t)
             else if action == "refresh" then Refresh(t) else Step(t, [], []))
            == Step(b.s.(pending := p), b.calls, b.out)
  {
    var t := s.(pending := p);
    if action == "back" {
      assert Back(t) == var b := Back(s); Step(b.s.(pending := p), b.calls, b.out);
    } else if action == "forward" {
      assert Forward(t) == var f := Forward(s); Step(f.s.(pending := p), f.calls, f.out);
    }
  }

  lemma InputIgnoresPending(s: State, p: seq<Command>, ev: InputEvent, outcome: Outcome,
                            hostOf: string -> Option<string>)
    ensures var t := s.(pending := p);
            var i := RunCommand(s, InputCmd(ev), outcome, hostOf);
            RunCommand(t, InputCmd(ev), outcome, hostOf) == Step(i.s.(pending := p), i.calls, i.out)
  {
    if ev.kind == "mouse" {
      var t := s.(pending := p);
      assert HandleMouse(t, ev, outcome) == var m := HandleMouse(s, ev, outcome); Step(m.s.(pending := p), m.calls, m.out);
    }
  }

  function RunNext(s: State, outcome: Outcome, hostOf: string -> Option<string>): (r: Step)
    ensures |s.pending| == 0 ==> r == Step(s, [], [])
    ensures |s.pending| > 0 ==>
              var c := RunCommand(s, s.pending[0], outcome, hostOf);
              r == Step(c.s.(pending := s.pending[1..]), c.calls, c.out)
  {
    if |s.pending| == 0 then Step(s, [], [])
    else
      RunCommandIgnoresPending(s, s.pending[1..], s.pending[0], outcome, hostOf);
      RunCommand(s.(pending := s.pending[1..]), s.pending[0], outcome, hostOf)
  }

  /** Running commands directly on the controller, one after another, each on the
      state the one before left, with no chain involved: the engine calls and the
      broadcasts of all of them, in order. */
  function Exec(s: State, cmds: seq<Command>, outcomes: seq<Outcome>, hostOf: string -> Option<string>): (r: Step)
    requires |outcomes| >= |cmds|
    ensures r.s.pending == s.pending
    decreases |cmds|
  {
    if |cmds| == 0 then Step(s, [], [])
    else
      var a := RunCommand(s, cmds[0], outcomes[0], hostOf);
      var b := Exec(a.s, cmds[1..], outcomes[1..], hostOf);
      Step(b.s, a.calls + b.calls, a.out + b.out)
  }

  lemma {:induction false} ExecIgnoresPending(s: State, p: seq<Command>, cmds: seq<Command>, outcomes: seq<Outcome>,
                                              hostOf: string -> Option<string>)
    requires |outcomes| >= |cmds|
    ensures var e := Exec(s, cmds, outcomes, hostOf);
            Exec(s.(pending := p), cmds, outcomes, hostOf) == Step(e.s.(pending := p), e.calls, e.out)
    decreases |cmds|
  {
    if |cmds| > 0 {
      var a := RunCommand(s, cmds[0], outcomes[0], hostOf);
      RunCommandIgnoresPending(s, p, cmds[0], outcomes[0], hostOf);
      ExecIgnoresPending(a.s, p, cmds[1..], outcomes[1..], hostOf);
    }
  }

  /** What a run of the chain did: the final state, the commands run in order,
      and the engine calls and broadcasts they made. */
  datatype Drained = Drained(s: State, ran: seq<Command>, calls: seq<Call>, out: seq<Broadcast>)

  /** Lets the chain run once per outcome, stopping when it is empty. */
  function Drain(s: State, outcomes: seq<Outcome>, hostOf: string -> Option<string>): Drained
    decreases |outcomes|
  {
    if |outcomes| == 0 || |s.pending| == 0 then Drained(s, [], [], [])
    else
      var a := RunNext(s, outcomes[0], hostOf);
      var d := Drain(a.s, outcomes[1..], hostOf);
      Drained(d.s, [s.pending[0]] + d.ran, a.calls + d.calls, a.out + d.out)
  }

  /** Commands run in the order they were submitted, one per turn of the chain,
      whatever each one's outcome: the chain's engine calls and broadcasts are
      those of running the submitted commands directly, in that order. */
  lemma {:induction false} DrainInOrder(s: State, outcomes: seq<Outcome>, hostOf: string -> Option<string>)
    ensures var n := if |outcomes| < |s.pending| then |outcomes| else |s.pending|;
            var d := Drain(s, outcomes, hostOf);
            var e := Exec(s, s.pending[..n], outcomes, hostOf);
            && d.ran == s.pending[..n]
            && d.calls == e.calls && d.out == e.out
            && d.s == e.s.(pending := s.pending[n..])
    decreases |outcomes|
  {
    if |outcomes| > 0 && |s.pending| > 0 {
      var n := if |outcomes| < |s.pending| then |outcomes| else |s.pending|;
      var c := RunCommand(s, s.pending[0], outcomes[0], hostOf);
      var t := c.s.(pending := s.pending[1..]);
      var d := Drain(t, outcomes[1..], hostOf);
      assert Drain(s, outcomes, hostOf) == Drained(d.s, [s.pending[0]] + d.ran, c.calls + d.calls, c.out + d.out);
      var rest := s.pending[1..][..n - 1];
      DrainInOrder(t, outcomes[1..], hostOf);
      assert s.pending[..n][1..] == rest && s.pending[..n][0] == s.pending[0];
      ExecIgnoresPending(c.s, s.pending[1..], rest, outcomes[1..], hostOf);
      var e' := Exec(c.s, rest, outcomes[1..], hostOf);
      assert Exec(s, s.pending[..n], outcomes, hostOf) == Step(e'.s, c.calls + e'.calls, c.out + e'.out);
      assert [s.pending[0]] + rest == s.pending[..n];
      assert s.pending[1..][n - 1..] == s.pending[n..];
    }
  }

  /** `setClientRes(w, h)`: records the size of the client's screen element. */
  function SetClientRes(s: State, w: int, h: int): (r: State)
    ensures r.clientW == w && r.clientH == h
    ensures r.(clientW := s.clientW, clientH := s.clientH) == s
  {
    s.(clientW := w, clientH := h)
  }

  // ---------------------------------------------------------------- invariants

  /** Everything that can happen to the controller, one event at a time. */
  datatype Event =
    | NavigateTo(input: string)
    | Button(action: string)
    | Input(ev: InputEvent)
    | RunQueued(outcome: Outcome)
    | FrameNav(isMain: bool, url: Url)
    | PageOpened
    | PageClosed

  function Apply(s: State, e: Event, hostOf: string -> Option<string>): Step
  {
    match e
    case NavigateTo(input) => Navigate(s, input, hostOf)
    case Button(action) => Step(HandleButton(s, action), [], [])
    case Input(ev) => Step(HandleInput(s, ev), [], [])
    case RunQueued(outcome) => RunNext(s, outcome, hostOf)
    case FrameNav(isMain, url) => if s.page == NoPage then Step(s, [], []) else FrameNavigated(s, isMain, url)
    case PageOpened => Step(s.(page := Open), [], [])
    case PageClosed => Step(s.(page := if s.page == NoPage then NoPage else Closed), [], [])
  }

  /** `about:blank` never enters either stack. */
  lemma ApplyKeepsNoBlank(s: State, e: Event, hostOf: string -> Option<string>)
    requires NoBlank(s)
    ensures NoBlank(Apply(s, e, hostOf).s)
  {
    if e.RunQueued? && |s.pending| > 0 {
      RunKeepsNoBlank(s.(pending := s.pending[1..]), s.pending[0], e.outcome, hostOf);
    }
  }

  lemma RunKeepsNoBlank(s: State, c: Command, outcome: Outcome, hostOf: string -> Option<string>)
    requires NoBlank(s)
    ensures NoBlank(RunCommand(s, c, outcome, hostOf).s)
  {
    if c.ButtonCmd? && c.action == "back" {
      BackKeepsNoBlank(s);
    } else if c.ButtonCmd? && c.action == "forward" {
      ForwardKeepsNoBlank(s);
    }
  }

  lemma BackKeepsNoBlank(s: State)
    requires NoBlank(s)
    ensures NoBlank(Back(s).s)
  {
    if s.page != NoPage && |s.history| > 1 {
      var h := s.history;
      assert h[|h| - 1] in h;
      assert forall u | u in h[..|h| - 1] :: u in h;
    }
  }

  lemma ForwardKeepsNoBlank(s: State)
    requires NoBlank(s)
    ensures NoBlank(Forward(s).s)
  {
    if s.page != NoPage && |s.forwardStack| > 0 {
      var f := s.forwardStack;
      assert f[|f| - 1] in f;
      assert forall u | u in f[..|f| - 1] :: u in f;
    }
  }

  /** Every event leaves the controller with `isNavigating` false. */
  lemma ApplyKeepsSettled(s: State, e: Event, hostOf: string -> Option<string>)
    requires !s.isNavigating
    ensures !Apply(s, e, hostOf).s.isNavigating
  {
  }
}
