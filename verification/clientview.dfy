/** What a browser client shows after a `queue-update` and whether it lets its
    user act (public/js/ui.js). The client takes the head of the list it is sent
    as the holder, and compares it with its own socket id, which is undefined
    while the socket is not connected. */
module ClientView {
  import opened Wrappers
  import opened Seqs
  import ControlQueue
  import Browser

  type Id = ControlQueue.Id

  /** The banner under the screen: hidden for the holder, otherwise one of the
      four texts `updateQueue` chooses between. */
  datatype Banner = Hidden | NotInQueue | YoureNext | AlmostThere | Place(place: nat)

  datatype View = View(hasControl: bool, banner: Banner)

  /** `socketId === queue[0]`: on an empty list both sides can be undefined. */
  function HasControl(queue: seq<Id>, socketId: Option<Id>): bool
  {
    if |queue| == 0 then socketId.None? else socketId == Some(queue[0])
  }

  /** `queue.indexOf(socketId)`. */
  function Position(queue: seq<Id>, socketId: Option<Id>): (r: int)
    ensures -1 <= r < |queue|
    ensures r == -1 <==> socketId.None? || socketId.value !in queue
    ensures r >= 0 ==> queue[r] == socketId.value
  {
    if socketId.None? then -1 else IndexOf(queue, socketId.value)
  }

  /** `updateQueue(queue, socketId)`. The banner is hidden exactly for the
      holder. The "you're next" text is for position 0, but a client at position 0
      is the holder, so that text is never shown. */
  function UpdateQueue(queue: seq<Id>, socketId: Option<Id>): (r: View)
    ensures r.hasControl <==> r.banner == Hidden
    ensures r.banner != YoureNext
    ensures r.banner == NotInQueue <==>
              !r.hasControl && (socketId.None? || socketId.value !in queue)
    ensures r.banner == AlmostThere <==>
              socketId.Some? && |queue| > 1 && queue[1] == socketId.value && queue[0] != socketId.value
    ensures r.banner.Place? ==>
              && socketId.Some? && 3 <= r.banner.place <= |queue|
              && queue[r.banner.place - 1] == socketId.value
              && socketId.value !in queue[..r.banner.place - 1]
    ensures socketId.Some? ==> (r.hasControl <==> |queue| > 0 && queue[0] == socketId.value)
    ensures socketId.None? ==> (r.hasControl <==> |queue| == 0)
    ensures Position(queue, socketId) >= 2 ==> r.banner == Place(Position(queue, socketId) + 1)
  {
    var hasControl := HasControl(queue, socketId);
    var pos := Position(queue, socketId);
    if hasControl then View(true, Hidden)
    else if pos == -1 then View(false, NotInQueue)
    else if pos == 0 then View(false, YoureNext)
    else if pos == 1 then View(false, AlmostThere)
    else View(false, Place(pos + 1))
  }

  /** `ensureControl()`, with the client's `hasControl` and `loading` flags: only
      the holder may act, and not while the screen is loading. */
  function EnsureControl(hasControl: bool, loading: bool): bool
  {
    hasControl && !loading
  }

  /** A connected client passes its own gate exactly when it is first in the
      list it was last sent and nothing is loading. */
  lemma GateMeansFirst(queue: seq<Id>, id: Id, loading: bool)
    ensures EnsureControl(UpdateQueue(queue, Some(id)).hasControl, loading) <==>
              !loading && Position(queue, Some(id)) == 0
  {
  }

  // ---------------------------------------------------------------- key events

  /** `sendKey` (public/js/control.js) sends the DOM event's own type,
      `keydown` or `keyup`, as the action, and `sendClipboardText` sends pasted
      text as a `keydown` too; the controller ignores both. The action it acts on
      is `down` for a press and `up` for a release, the names the mouse events
      already use, and `type` for pasted text: a `keydown` whose key is text
      (`isChar`) longer than one character. */
  function KeyAction(eventType: string, key: string, isChar: bool): (r: string)
    ensures eventType == "keydown" ==> (r == "type" <==> isChar && |key| > 1)
    ensures eventType == "keydown" ==> r == "type" || r == "down"
    ensures eventType == "keyup" ==> r == "up"
    ensures eventType != "keydown" && eventType != "keyup" ==> r == eventType
  {
    if eventType == "keydown" then (if isChar && |key| > 1 then "type" else "down")
    else if eventType == "keyup" then "up"
    else eventType
  }

  /** With the corrected action, pasted text reaches the engine as one typing
      call, a press as a key-down and a release as a key-up, unless focusing the
      active element fails. */
  lemma KeysReachEngine(s: Browser.State, ev: Browser.InputEvent, eventType: string, isChar: bool, outcome: Browser.Outcome)
    requires eventType == "keydown" || eventType == "keyup"
    requires ev.kind == "keyboard" && ev.action == KeyAction(eventType, ev.key, isChar)
    requires (ev.selector.Some? && ev.selector.value != "") || outcome != Browser.FailAt(0)
    ensures var calls := Browser.HandleKeyboard(s, ev, outcome).calls;
            |calls| == 2 &&
            calls[1] == (if eventType == "keyup" then Browser.KeyUp(ev.key)
                         else if isChar && |ev.key| > 1 then Browser.KeyType(ev.key)
                         else Browser.KeyDown(ev.key))
  {
  }

  // ---------------------------------------------------------------- banner text

  function DigitChar(k: nat): (c: char)
    requires k < 10
    ensures '0' <= c <= '9'
  {
    (48 + k) as char
  }

  function DigitValue(c: char): nat
  {
    if '0' <= c <= '9' then (c as int - 48) as nat else 0
  }

  /** A number as a template literal writes it: decimal, no leading zeros. */
  function Decimal(n: nat): (r: string)
    ensures |r| > 0
    decreases n
  {
    if n < 10 then [DigitChar(n)] else Decimal(n / 10) + [DigitChar(n % 10)]
  }

  /** Reads a decimal numeral back. */
  function ParseDecimal(s: string): nat
    decreases |s|
  {
    if |s| == 0 then 0 else 10 * ParseDecimal(s[..|s| - 1]) + DigitValue(s[|s| - 1])
  }

  lemma {:induction false} DecimalRoundTrip(n: nat)
    ensures ParseDecimal(Decimal(n)) == n
    decreases n
  {
    if n >= 10 {
      var d := Decimal(n / 10);
      DecimalRoundTrip(n / 10);
      assert (d + [DigitChar(n % 10)])[..|d|] == d;
    }
  }

  const PlacePrefix := "Your position in queue: #"

  /** The banner's text; None when the banner is hidden. */
  function BannerText(b: Banner): Option<string>
  {
    match b
    case Hidden => None
    case NotInQueue => Some("You are not in the queue")
    case YoureNext => Some("You’re next! Waiting for your turn…")
    case AlmostThere => Some("Almost there! Your position: #2")
    case Place(n) => Some(PlacePrefix + Decimal(n))
  }

  /** The number a client reads in the general banner is its one-based place in
      the list. */
  lemma PlaceTextNamesPlace(queue: seq<Id>, id: Id)
    requires UpdateQueue(queue, Some(id)).banner.Place?
    ensures var t := BannerText(UpdateQueue(queue, Some(id)).banner).value;
            |t| > |PlacePrefix| && t[..|PlacePrefix|] == PlacePrefix
            && ParseDecimal(t[|PlacePrefix|..]) == IndexOf(queue, id) + 1
  {
    var n := UpdateQueue(queue, Some(id)).banner.place;
    DecimalRoundTrip(n);
    assert (PlacePrefix + Decimal(n))[|PlacePrefix|..] == Decimal(n);
  }
}
