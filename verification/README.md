# puppet-browser session layer, modelled in Dafny

puppet-browser shares one headless browser among many web clients. Clients queue
for control. The server lets only the current holder send input and navigation.
The holder is the queue entry that the queue's cursor names. Each client's page
assumes instead that the holder is the head of the list. Everyone watches the
screenshot stream.

This project models the logic that decides who may act and what an action does:

- **`ControlQueue`** (`queue.dfy`): the server's queue class as written. It keeps
  the list of socket ids, a separate numeric cursor, and the `queue-update`
  messages it emits. The cursor can become `NaN`.
- **`HeadQueue`** (`headqueue.dfy`): the same queue with the holder always the
  head of the list. This is the corrected behaviour the findings below point to.
- **`Utils`** (`utils.dfy`): `normalizeUrl`. It uses ECMAScript `trim`, the
  host-name regular expression read literally, and `encodeURIComponent` with its
  UTF-8 `%XX` escapes. A percent-decoder is the partner that proves the
  encoding loses nothing.
- **`Browser`** (`browser.dfy`): `BrowserController`'s state. This covers the
  history and forward stacks, the `isNavigating` flag, the pressed-button map
  and the input chain (`inputQueue`), which runs commands one at a time in
  submission order. Engine calls are recorded, not performed. Whether a call
  throws is a parameter.
- **`ClientView`** (`clientview.dfy`): the web client's reaction to a
  `queue-update`, which is its own idea of who holds control, the banner text
  and the gate in front of every user action.
- **`Session`** and **`FixedSession`** (`session.dfy`): the socket event router
  of `server.js` as written, and the same router with the defects in the
  findings corrected.

Nothing in the model performs I/O. Everything is modelled as explicit
parameters:

- The WHATWG URL host of a normalised address is the parameter `hostOf`. It
  returns None when parsing throws.
- Which engine call fails is an `Outcome`.
- The URL of a main-frame navigation is an argument of the frame event.

The model follows the code wherever the design description of the system says
otherwise:

- The history may hold the same URL twice in a row. Going back and then
  following a link to the page just left keeps the forward stack. Going
  forward then appends that page again (`Browser.ForwardCanRepeatTop`).
- A navigation does not release pressed buttons. `Browser.Navigate` leaves
  `mouseDown` untouched.
- The holder is the cursor entry, not the head. This mismatch is recorded under
  Findings.

## Model

| member | source | states |
|---|---|---|
| Seqs.IndexOf | lib/queue.js:16 | `indexOf`: -1 exactly when the id is absent, otherwise the position of its first occurrence |
| Seqs.RemoveFirstIsWithout | lib/queue.js:16-18 | on a duplicate-free list, splicing out the first occurrence deletes exactly that id and keeps the others in order |
| ControlQueue.Emit | lib/queue.js:37-41 | every listed client, in list order, is sent the whole list |
| ControlQueue.Add | lib/queue.js:8-13 | an absent id is appended at the back and the change is emitted; a present id changes nothing and emits nothing; no duplicates arise; the cursor is untouched |
| ControlQueue.Remove | lib/queue.js:15-22 | the first occurrence is spliced out and the change is emitted; the cursor is reset to 0 only when it has run off the end; a NaN cursor stays NaN; an absent id changes nothing |
| ControlQueue.Current | lib/queue.js:24-26 | a holder exists exactly when the cursor is a number inside the list and that entry is a non-empty id, and then it is that entry |
| ControlQueue.Next | lib/queue.js:28-31 | the list is kept and always emitted; the cursor advances by one and wraps to 0 at the end; on an empty list it becomes NaN |
| ControlQueue.ApplyValid | lib/queue.js:8-31 | join, leave and release keep the list duplicate-free with a numeric cursor that is 0 or inside the list |
| ControlQueue.RunValid | lib/queue.js:8-31 | the same over any sequence of joins, leaves and releases |
| ControlQueue.ValidHasHolder | lib/queue.js:24-26 | a valid non-empty queue with a numeric cursor and non-empty ids has a holder |
| ControlQueue.NextTimesWithin | lib/queue.js:28-31 | k releases move the cursor from n to n + k while that stays inside the list |
| ControlQueue.NextTimesAdd | lib/queue.js:28-31 | a releases followed by b releases are a + b releases |
| ControlQueue.EveryClientGetsATurn | lib/queue.js:28-31 | round robin: from any cursor inside the list, each listed client holds control after fewer than length-of-list releases |
| ControlQueue.PoisonedCursorNeverRecovers | lib/queue.js:28-29 | once the cursor is NaN, no join, leave or release makes it a number again, and nobody holds control |
| ControlQueue.EmptyReleaseStrandsNextJoiner | lib/queue.js:28-31 | a release on the empty queue makes the cursor NaN, so the client that joins next never holds control |
| ControlQueue.RemoveBeforeCursorShiftsHolder | lib/queue.js:15-22 | removing an entry in front of the cursor keeps the cursor, so control passes to a client other than the holder (except in one two-client case) |
| ControlQueue.RemoveBeforeCursorExample | lib/queue.js:15-22 | with a, b, c queued and b holding, a leaving hands control to c |
| HeadQueue.Current | lib/queue.js:24-26 | the holder is the head; there is one exactly when the queue is non-empty |
| HeadQueue.Join | lib/queue.js:8-13 | joining keeps the list behaviour of `add`: an unlisted id is appended at the back and the new list is emitted, a listed id changes nothing; it never takes control from an existing holder and gives it to the first joiner of an empty queue |
| HeadQueue.Leave | lib/queue.js:15-22 | leaving splices out the id; the holder changes only when the holder itself leaves, and then the next entry takes over at once |
| HeadQueue.Advance | lib/queue.js:28-31 | releasing rotates the list by one: every entry but the head moves up one place and the head goes to the back, so control passes to the second entry; the same ids, no duplicates, and the new list is emitted; an empty queue stays empty |
| HeadQueue.RunKeepsNoDup | lib/queue.js:8-31 | over any joins, leaves and releases the list stays duplicate-free |
| HeadQueue.EmptyReleaseThenJoinHolds | lib/queue.js:28-31 | a release on the empty queue followed by a join gives the joiner control |
| Utils.Trim | lib/utils.js:5 | the result has no white space at either end, is empty exactly when the input is all white space, and is the input minus white-space padding |
| Utils.TrimPadded | lib/utils.js:5 | trimming white-space padding from around clean text gives that text back |
| Utils.HostLikeIffPattern | lib/utils.js:8 | the last-dot reading of the host test accepts exactly the texts the regular expression `^[\w.-]+\.[a-z]{2,}$` (case-insensitive) accepts |
| Utils.HexRoundTrip | lib/utils.js:9 | the hex digit written for a nibble reads back as that nibble |
| Utils.EncodeUriComponentIsEncoded | lib/utils.js:9 | `encodeURIComponent` output consists only of unreserved characters and `%` |
| Utils.DecodeEncode | lib/utils.js:9 | percent-decoding the output of `encodeURIComponent` gives the input back |
| Utils.UnreservedEncodesToItself | lib/utils.js:9 | text made only of unreserved characters is not changed by the encoder |
| Utils.NormalizeUrl | lib/utils.js:4-10 | every result starts with `http://` or `https://` (any case) and has no white space at either end |
| Utils.WithHttps | lib/utils.js:8 | a bare host becomes `https://` followed by exactly that host |
| Utils.SearchFor | lib/utils.js:9 | a query becomes the search prefix followed by text that decodes back to the query |
| Utils.BlankGoesHome | lib/utils.js:6 | empty or all-white-space input goes to the home page |
| Utils.SchemeKept | lib/utils.js:7 | input carrying an http(s) scheme comes back with only its padding removed |
| Utils.HostGetsHttps | lib/utils.js:8 | scheme-less input matching the host pattern gets `https://` put in front |
| Utils.OtherTextSearched | lib/utils.js:9 | any other non-blank input becomes a search whose query decodes back to the trimmed input |
| Utils.NormalizeIdempotent | lib/utils.js:4-10 | normalising a normalised URL changes nothing |
| Browser.Navigate | lib/browser.js:77-107 | no page: nothing; own server's host: refused with a `loading-end` message and no change; otherwise one goto of the normalised address, the forward stack cleared, history untouched, `isNavigating` false at the end; the broadcasts are `loading-start` with a message, then `loading-end` with none, then `update-url` |
| Browser.Back | lib/browser.js:130-148 | no page or at most one entry: nothing; otherwise the last history entry moves onto the forward stack and the new last entry is loaded; the total stack size is kept; the broadcasts are `loading-start` with a message, then `loading-end` with none, then `update-url` |
| Browser.Forward | lib/browser.js:150-167 | no page or empty forward stack: nothing; otherwise the top of the forward stack moves onto the history and is loaded; the total stack size is kept; the broadcasts are `loading-start` with a message, then `loading-end` with none, then `update-url` |
| Browser.Refresh | lib/browser.js:169-183 | with a page, one reload and no change to either stack; the broadcasts are `loading-start` with a message, then `loading-end` with none, then `update-url`; without one, nothing |
| Browser.NavigationClearsLoading | lib/browser.js:77-183 | a client's `loading` flag, which its control gate checks, is set while a navigation's engine call is pending and cleared at the end; a refused navigation only clears it; a navigation that does nothing broadcasts nothing |
| Browser.NavigationSettles | lib/browser.js:77-183 | a navigation that calls the engine holds `isNavigating` while the call is pending and ends with it cleared; one that does not changes nothing |
| Browser.BackThenForward | lib/browser.js:130-167 | back and then forward restores both stacks |
| Browser.ForwardThenBack | lib/browser.js:130-167 | forward and then back restores both stacks |
| Browser.FrameNavigated | lib/browser.js:185-197 | only main-frame navigations count; the URL is appended exactly when it is not `about:blank` and not already last; afterwards a non-blank URL is the last entry |
| Browser.ForwardCanRepeatTop | lib/browser.js:150-197 | back, a link to the page just left, then forward leaves the same URL twice in a row |
| Browser.SetDown | lib/browser.js:273 | recording a button sets its reading and no other button's; the `__proto__` key cannot be recorded |
| Browser.HandleMouse | lib/browser.js:258-278 | the pointer always moves first; a press reaches the engine exactly when the button is not down, a release exactly when it is down; the recorded state follows a successful call and no other button changes; when the move or the press/release call throws, the recorded state is left as it was; the only engine calls are the move and at most one press or release of that button |
| Browser.DoubleDownIssuesOneDown | lib/browser.js:270-273 | two presses of the same button in a row reach the engine as one |
| Browser.HandleKeyboard | lib/browser.js:280-299 | focus goes to the selector if one is given, otherwise to the active element; a key call follows exactly for the actions `type`, `down` and `up`, unless focusing the active element failed |
| Browser.ClientKeyActionsIgnored | lib/browser.js:292-298 | the `keydown` and `keyup` actions that the web client sends produce no key call |
| ClientView.KeyAction | public/js/control.js:42-110 | the corrected client of the control.js:47 finding: instead of the DOM type `keydown`/`keyup` that the page sends, a press is sent as the action `down` and a release as `up`, and pasted text (a `keydown` whose `isChar` key is longer than one character) as `type` |
| ClientView.KeysReachEngine | lib/browser.js:292-298 | with those actions, pasted text reaches the engine as one typing call, a press as a key-down and a release as a key-up, unless focusing the active element fails |
| Browser.HandleButton | lib/browser.js:109-128 | any button action joins the back of the input chain and nothing else changes |
| Browser.HandleInput | lib/browser.js:238-263 | with no page or a closed page the event is dropped; otherwise it joins the back of the input chain |
| Browser.UnknownButtonNoEffect | lib/browser.js:109-128 | a button action other than back, forward and refresh does nothing |
| Browser.UnknownInputNoEffect | lib/browser.js:241-262 | an input type other than mouse, keyboard and wheel does nothing |
| Browser.RunNext | lib/browser.js:241-262 | the oldest command runs, with the engine calls and broadcasts it makes when run on the controller directly, and leaves the chain whatever its outcome |
| Browser.RunCommandIgnoresPending | lib/browser.js:109-128 | no command reads or changes the chain: with another chain it makes the same calls and broadcasts and keeps that chain |
| Browser.DrainInOrder | lib/browser.js:241-262 | commands run in submission order, one per turn, and a failing command never holds up later ones: the chain's engine calls, broadcasts and final state are those of running the submitted commands directly (`Exec`), in that order |
| Browser.SetClientRes | lib/browser.js:301-305 | the client size is recorded and nothing else changes |
| Browser.ApplyKeepsNoBlank | lib/browser.js:185-197 | `about:blank` never enters the history or the forward stack |
| Browser.ApplyKeepsSettled | lib/browser.js:77-183 | no event leaves a navigation in progress |
| ClientView.Position | public/js/ui.js:21 | -1 exactly when the client is not listed (or has no id), otherwise its first position |
| ClientView.UpdateQueue | public/js/ui.js:16-49 | a connected client shows control exactly when its id is the head of the list, and a client without an id exactly when the list is empty; the banner is hidden exactly when it shows control; the "you're next" text is never shown; "almost there" means second in line; "not in queue" means not listed; a client at position 2 or later is shown its one-based place |
| ClientView.GateMeansFirst | public/js/ui.js:70-77 | a connected client lets its user act exactly when it is first in the list it was sent and nothing is loading |
| ClientView.DecimalRoundTrip | public/js/ui.js:41 | the place written into the banner reads back as the same number |
| ClientView.PlaceTextNamesPlace | public/js/ui.js:40-42 | the general banner text is the fixed prefix followed by the client's one-based place |
| Session.Handle | server.js:21-64 | routing: input, `navigate` and the three buttons from anyone but the holder change nothing, and from the holder go to `Drive`; `connection`, `disconnect` and `release-control` go to `Connected`, `Disconnected` and `Released` whoever sends them; `screen-size` changes nothing; only gated events touch the browser and only ungated ones the queue |
| Session.Connected | server.js:22-25 | an unlisted socket is appended with the cursor kept, every listed client is sent the new list, and then the joiner is sent it; a listed socket changes nothing and is sent the list |
| Session.Disconnected | server.js:27-30 | the socket leaves the list and the rest are sent the shorter list; an unlisted socket changes nothing; the browser is untouched |
| Session.Released | server.js:61-63 | whoever sends it, the list is kept and re-sent and the cursor moves to (n + 1) mod the list length; on an empty list or a NaN cursor it is NaN |
| Session.Drive | server.js:32-55 | from the holder, an input event joins the chain when a page is open, a button joins the chain as `back`, `forward` or `refresh`, and an address is navigated to at once without touching the chain, its broadcasts sent to every client; with no open page an input event changes nothing; the queue is untouched |
| Session.ListedRunKeepsNumericCursor | server.js:21-64 | when every event but a connection comes from a listed socket, as socket.io delivers them, the cursor never becomes NaN |
| Session.OnlyHolderDrives | server.js:32-55 | only the current holder ever changes the browser or makes it call the engine |
| Session.HandleKeepsInv | server.js:21-64 | every socket event keeps the queue valid, `about:blank` out of the stacks and no navigation in progress |
| Session.RunKeepsInv | server.js:21-64 | the same over any interleaving of socket events and browser-side events |
| Session.NobodyPassesBothGates | lib/queue.js:24-31 | once the cursor has moved past the head, no client is both the server's holder and shown control by its own page |
| Session.GatesAgreeAtHead | lib/queue.js:24-26 | while the cursor is at the head, the server's holder is exactly the client shown control |
| Session.ReleaseStrandsControl | server.js:61-63 | after a and b join and a release arrives, the server takes b's events while b's page shows it as view-only, and a's page shows control while the server drops a's events |
| Session.ScreenSizeIgnored | server.js:57-59 | a `screen-size` event never reaches the controller's client size |
| Session.NavigateOvertakesQueuedButton | server.js:37-45 | when the chain still holds earlier work and the holder presses Back and then submits an address, the address is loaded while Back still waits in the chain |
| FixedSession.Handle | server.js:21-64 | no event calls the engine directly; gated events from anyone but the holder change nothing; the holder's input (page open), address or button joins the back of the chain as the matching command and nothing else changes; joining, leaving and releasing are the head-queue `Join`, `Leave` and `Advance`; the queue stays duplicate-free |
| FixedSession.ClientViewAgrees | public/js/ui.js:16-19 | the client the server lets act is exactly the one whose page shows control |
| FixedSession.ScreenSizeRecorded | server.js:57-59 | `screen-size` records the client size |
| FixedSession.HolderCommandsInOrder | server.js:37-45 | Back and then an address both wait in the chain, and the chain's engine calls and broadcasts are those of running Back and then the navigation, in that order |
| FixedSession.HolderBackGotoComesFirst | server.js:37-45 | with a page open, a page to go back to and an address that is not this server's, the engine is asked for the previous page first and for the address second |
| FixedSession.HolderAlwaysAgrees | server.js:21-64 | over any events the queue stays duplicate-free, a non-empty queue has a holder, and the holder is the client whose page shows control |

## Left out

- Launching Chrome, the stealth plugin, user-agent spoofing and locating the
  Chrome executable (`launch`, `applyChromeSpoofs`, `resolveChromePath`) are
  left out. They are process and engine set-up with no decision logic that
  the model could state.
- The screenshot streaming loop and the restart after a page closes are left
  out. They are timers around engine calls. A page closing is the
  `PageClosed` event.
- Adopting a newly opened tab (`_onTargetCreated`) is left out. It is an engine
  object swap. Its effect on the controller is the `PageOpened` event.
- What key presses and focus do inside the page is left out. The model
  records which engine calls are made.
- Pointer coordinate scaling is left out. It is floating-point arithmetic and
  affects no state.
- Interleaving at `await` points is not modelled. Each navigation and each
  command is atomic. In the code, a `navigate` that runs outside the chain can
  interleave with a queued Back at the engine call.
- The URL sent with `update-url` is not modelled. It is the engine's current
  page URL, so `UrlUpdate` carries no payload.
- WHATWG URL parsing is not modelled. Its host is the `hostOf` parameter.
- socket.io delivery, the page DOM, alerts and the loading overlay are not
  modelled. `ClientView` keeps only the flags and texts they show.
- Non-BMP text is modelled as Unicode scalar values. JavaScript strings are
  UTF-16, so the model has no lone surrogates, and the `URIError` that
  `encodeURIComponent` throws for them is not modelled.
- Session.ScreenSizeIgnored: the `TypeError` that the missing method throws
  inside the socket handler is modelled as the event having no effect. Nothing
  catches it, so the likely result is an uncaught exception that ends the
  Node process; that is not modelled.
- A `navigate` payload that is not a string is not modelled: `NavigateTo`
  carries a string. In the code, `input.trim()` (lib/utils.js:5) then throws
  inside the async `navigate`, which server.js:39 does not await or catch. The
  result is an unhandled promise rejection, which ends the process on Node 15
  and later.
- Other malformed payloads are not modelled either. Every field of an input
  event has the type the web client sends. A `screen-size` payload without
  `w` and `h` is not modelled.
- The wheel's `deltaY` is a JavaScript number, usually fractional, and is
  modelled as an integer. It is passed to the engine unchanged, so no
  arithmetic depends on it.
- When queued commands start is not modelled. A command leaves the chain only
  at a `ChainTurn` event. In the code, a command added to an idle chain starts
  in a microtask, before the next socket event. The model also admits
  schedules where an idle chain waits across socket events.
- `Session` accepts events from sockets that are not listed. socket.io never
  delivers those. `Session.ListedRun` states the delivery order, and
  `Session.ListedRunKeepsNumericCursor` uses it.
- Utils.NormalizeUrl: its contract states the shape of every result. The exact
  result for each of the four cases is in `BlankGoesHome`, `SchemeKept`,
  `HostGetsHttps` and `OtherTextSearched`.

## Findings

| source | as written | input that shows it | evidently intended | confidence | as-written member | corrected member |
|---|---|---|---|---|---|---|
| lib/queue.js:19 | `remove` leaves the cursor in place when an entry in front of it leaves | a, b, c queued; a sends `release-control`, so b holds; a disconnects; c now holds control. The cursor leaves 0 only through `release-control`, which the shipped page never sends, but any socket can | only the holder leaving changes the holder | high; not executed | ControlQueue.RemoveBeforeCursorExample | HeadQueue.Leave |
| lib/queue.js:29 | `next` on an empty list computes `(index + 1) % 0`, which is NaN, and nothing resets it | on the class itself: `next()` with nobody queued, then `add(x)`; nobody ever holds control. This is a latent defect of the class. server.js never reaches it, because the sender of `release-control` is listed from its connection until its own disconnect (`Session.ListedRunKeepsNumericCursor`) | the next joiner gets control | medium (latent); not executed | ControlQueue.EmptyReleaseStrandsNextJoiner | HeadQueue.EmptyReleaseThenJoinHolds |
| public/js/ui.js:17-18 | the page treats the head of the list as the holder, while the server treats the cursor entry as the holder | a and b connect and a sends `release-control` (the shipped page never sends it, but any socket can); the server takes only b's events, b's page is view-only, and a's page offers control the server ignores | page and server name the same holder | high; not executed | Session.ReleaseStrandsControl | FixedSession.HolderAlwaysAgrees |
| server.js:58 | `screen-size` calls `setClientResolution`, which the controller does not define; its method is `setClientRes` | any `screen-size` event, which public/js/resize.js sends as soon as the screen element is observed and on every resize; the call throws a `TypeError` inside the socket.io listener, and nothing there catches it, so the likely result is an uncaught exception that ends the Node process, not a silent no-op; the client size is never recorded and stays 1280 x 720 | the client size is recorded | high; not executed | Session.ScreenSizeIgnored | FixedSession.ScreenSizeRecorded |
| server.js:39 | `navigate` runs at once, while the buttons and input wait in the input chain | while the chain is still busy with earlier work, e.g. a previous Back still waiting for its page to load, the holder presses Back and then submits an address; the address loads first and Back runs after it. On an idle chain Back starts before the next socket event | the holder's commands reach the engine in the order sent | medium; not executed | Session.NavigateOvertakesQueuedButton | FixedSession.HolderBackGotoComesFirst |
| public/js/control.js:47 | `sendKey` sends the DOM event type, `keydown` or `keyup`, as the action; the controller acts only on `type`, `down` and `up` (lib/browser.js:292-298) | the holder presses any key on the screen, or pastes text; only the focus call reaches the engine, and no key is pressed and no text typed | a press and a release reach the engine as a key-down and a key-up, and pasted text is typed | high; not executed | Browser.ClientKeyActionsIgnored | ClientView.KeysReachEngine |
