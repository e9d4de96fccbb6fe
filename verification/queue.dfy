/** `ControlQueue` of lib/queue.js, as written: the connected socket ids in arrival
    order, and a separate numeric cursor `index` naming the one that holds control.
    Every change that the class announces is an `emit()`, which sends the whole list
    to each listed client; here that is the `out` part of a `Step`. */
module ControlQueue {
  import opened Wrappers
  import opened Seqs

  /** A socket.io connection id. */
  type Id = string

  /** The JavaScript number held in `index`. It starts at 0; `next()` on an empty
      list computes `(index + 1) % 0`, which is NaN, and no operation of the class
      ever turns NaN back into a number. */
  datatype Cursor = At(n: nat) | NaN

  datatype Queue = Queue(clients: seq<Id>, index: Cursor)

  /** One `queue-update` message: the list of ids sent to the client `to`. */
  datatype Update = Update(to: Id, ids: seq<Id>)

  /** The queue after an operation and the messages that operation emitted. */
  datatype Step = Step(q: Queue, out: seq<Update>)

  /** The constructor: no clients, cursor 0. */
  function Init(): Queue
  {
    Queue([], At(0))
  }

  /** `emit()`: every listed client is sent the whole list, in list order. */
  function Emit(clients: seq<Id>): (r: seq<Update>)
    ensures |r| == |clients|
    ensures forall i | 0 <= i < |r| :: r[i].to == clients[i] && r[i].ids == clients
  {
    seq(|clients|, i requires 0 <= i < |clients| => Update(clients[i], clients))
  }

  /** `add(id)`: a new id joins at the back and the change is emitted; an id already
      present changes nothing and emits nothing. */
  function Add(q: Queue, id: Id): (r: Step)
    ensures id in r.q.clients
    ensures r.q.index == q.index
    ensures id in q.clients <==> r == Step(q, [])
    ensures id !in q.clients ==> |r.q.clients| == |q.clients| + 1
                                 && r.q.clients[..|q.clients|] == q.clients
                                 && r.q.clients[|q.clients|] == id
                                 && r.out == Emit(r.q.clients)
    ensures NoDup(q.clients) ==> NoDup(r.q.clients)
  {
    if id in q.clients then Step(q, [])
    else
      var c := q.clients + [id];
      assert c[..|q.clients|] == q.clients;
      Step(Queue(c, q.index), Emit(c))
  }

  /** `remove(id)`: splice out the first occurrence and emit; the cursor is reset to 0
      only when it has run past the end of the shorter list, and is otherwise left
      alone, even when an entry before it was removed. An absent id changes nothing
      and emits nothing. */
  function Remove(q: Queue, id: Id): (r: Step)
    ensures id !in q.clients <==> r == Step(q, [])
    ensures id in q.clients ==> |r.q.clients| == |q.clients| - 1 && r.out == Emit(r.q.clients)
    ensures id in q.clients && q.index.At? ==>
              (r.q.index == q.index && q.index.n < |r.q.clients|)
              || (r.q.index == At(0) && q.index.n >= |r.q.clients|)
    ensures q.index == NaN ==> r.q.index == NaN
    ensures NoDup(q.clients) ==> NoDup(r.q.clients) && id !in r.q.clients
    ensures NoDup(q.clients) ==> r.q.clients == Without(q.clients, id)
  {
    var i := IndexOf(q.clients, id);
    if i < 0 then
      WithoutAbsent(q.clients, id);
      Step(q, [])
    else
      var c := RemoveAt(q.clients, i);
      var index := if q.index.At? && q.index.n >= |c| then At(0) else q.index;
      if NoDup(q.clients) then
        RemoveFirstIsWithout(q.clients, id);
        RemoveAtNoDup(q.clients, i);
        Step(Queue(c, index), Emit(c))
      else
        Step(Queue(c, index), Emit(c))
  }

  /** `current()`: `clients[index] || null`. Out of range, a NaN cursor or an empty
      string id (falsy in JavaScript) all read as no holder. */
  function Current(q: Queue): (r: Option<Id>)
    ensures r.Some? <==> q.index.At? && q.index.n < |q.clients| && q.clients[q.index.n] != ""
    ensures r.Some? ==> r.value == q.clients[q.index.n] && r.value in q.clients
    ensures |q.clients| == 0 ==> r == None
  {
    match q.index
    case NaN => None
    case At(n) => if n < |q.clients| && q.clients[n] != "" then Some(q.clients[n]) else None
  }

  /** `next()`: advance the cursor modulo the list length and always emit; the list
      itself never changes. On an empty list the modulus is 0 and the cursor turns
      into NaN. */
  function Next(q: Queue): (r: Step)
    ensures r.q.clients == q.clients
    ensures r.out == Emit(q.clients)
    ensures |q.clients| == 0 || q.index == NaN ==> r.q.index == NaN
    ensures |q.clients| > 0 && q.index.At? ==> r.q.index.At? && r.q.index.n < |q.clients|
    ensures |q.clients| > 0 && q.index.At? && q.index.n < |q.clients| ==>
              r.q.index == At(if q.index.n + 1 < |q.clients| then q.index.n + 1 else 0)
  {
    match q.index
    case NaN => Step(q, Emit(q.clients))
    case At(n) =>
      if |q.clients| == 0 then Step(Queue(q.clients, NaN), Emit(q.clients))
      else Step(Queue(q.clients, At((n + 1) % |q.clients|)), Emit(q.clients))
  }

  /** `list()`: the ids in queue order. */
  function List(q: Queue): seq<Id>
  {
    q.clients
  }

  /** The states the class can reach: no duplicates, and a numeric cursor is either
      inside the list or 0. */
  predicate Valid(q: Queue)
  {
    && NoDup(q.clients)
    && (q.index.At? ==> q.index.n == 0 || q.index.n < |q.clients|)
  }

  /** The three mutators, as driven by server.js. */
  datatype Op = Join(id: Id) | Leave(id: Id) | Release

  function Apply(q: Queue, op: Op): Queue
  {
    match op
    case Join(id) => Add(q, id).q
    case Leave(id) => Remove(q, id).q
    case Release => Next(q).q
  }

  function Run(q: Queue, ops: seq<Op>): Queue
    decreases |ops|
  {
    if |ops| == 0 then q else Run(Apply(q, ops[0]), ops[1..])
  }

  /** Every operation keeps the queue duplicate-free with its cursor in range. */
  lemma ApplyValid(q: Queue, op: Op)
    requires Valid(q)
    ensures Valid(Apply(q, op))
  {
  }

  lemma {:induction false} RunValid(q: Queue, ops: seq<Op>)
    requires Valid(q)
    ensures Valid(Run(q, ops))
    decreases |ops|
  {
    if |ops| > 0 {
      ApplyValid(q, ops[0]);
      RunValid(Apply(q, ops[0]), ops[1..]);
    }
  }

  /** In a valid queue whose cursor is a number, some listed client holds control
      (socket ids are never empty). */
  lemma ValidHasHolder(q: Queue)
    requires Valid(q)
    requires q.index.At?
    requires |q.clients| > 0
    requires forall i | 0 <= i < |q.clients| :: q.clients[i] != ""
    ensures Current(q).Some?
  {
  }

  /** `next()` is round-robin: k calls from cursor n move it to n + k while that
      stays inside the list, and from the last entry one call wraps to the head. */
  function NextTimes(q: Queue, k: nat): Queue
    decreases k
  {
    if k == 0 then q else NextTimes(Next(q).q, k - 1)
  }

  lemma {:induction false} NextTimesAdd(q: Queue, a: nat, b: nat)
    ensures NextTimes(q, a + b) == NextTimes(NextTimes(q, a), b)
    decreases a
  {
    if a > 0 {
      NextTimesAdd(Next(q).q, a - 1, b);
    }
  }

  lemma {:induction false} NextTimesWithin(q: Queue, k: nat)
    requires q.index.At? && q.index.n + k < |q.clients|
    ensures NextTimes(q, k) == Queue(q.clients, At(q.index.n + k))
    decreases k
  {
    if k > 0 {
      NextTimesWithin(Next(q).q, k - 1);
    }
  }

  /** How many `next()` calls it takes the cursor to get from n to j in a list of m. */
  function Turns(n: nat, j: nat, m: nat): nat
    requires n < m
  {
    if n <= j then j - n else (m - 1 - n) + (1 + j)
  }

  /** From the last entry, one more `next()` and then j more reach entry j. */
  lemma WrapThenAdvance(clients: seq<Id>, j: nat)
    requires j < |clients|
    ensures NextTimes(Queue(clients, At(|clients| - 1)), 1 + j) == Queue(clients, At(j))
  {
    var atLast := Queue(clients, At(|clients| - 1));
    var atHead := Queue(clients, At(0));
    assert Next(atLast).q == atHead;
    assert NextTimes(atLast, 1) == atHead;
    NextTimesWithin(atHead, j);
    NextTimesAdd(atLast, 1, j);
  }

  lemma TurnsReach(q: Queue, j: nat)
    requires q.index.At? && q.index.n < |q.clients|
    requires j < |q.clients|
    ensures NextTimes(q, Turns(q.index.n, j, |q.clients|)) == Queue(q.clients, At(j))
  {
    if q.index.n <= j {
      NextTimesWithin(q, j - q.index.n);
    } else {
      TurnsReachWrapping(q.clients, q.index.n, j, Turns(q.index.n, j, |q.clients|));
    }
  }

  /** Reaching an entry before the cursor goes through the last entry and wraps. */
  lemma TurnsReachWrapping(clients: seq<Id>, n: nat, j: nat, k: nat)
    requires j < n < |clients| && k == (|clients| - 1 - n) + (1 + j)
    ensures NextTimes(Queue(clients, At(n)), k) == Queue(clients, At(j))
  {
    ReachLast(clients, n);
    WrapThenAdvance(clients, j);
    NextTimesAdd(Queue(clients, At(n)), |clients| - 1 - n, 1 + j);
  }

  lemma ReachLast(clients: seq<Id>, n: nat)
    requires n < |clients|
    ensures NextTimes(Queue(clients, At(n)), |clients| - 1 - n) == Queue(clients, At(|clients| - 1))
  {
    NextTimesWithin(Queue(clients, At(n)), |clients| - 1 - n);
  }

  /** Round robin: starting from any numeric cursor inside the list, every listed
      client holds control after fewer than |clients| further `next()` calls. */
  lemma EveryClientGetsATurn(q: Queue, j: nat)
    requires q.index.At? && q.index.n < |q.clients|
    requires j < |q.clients| && q.clients[j] != ""
    ensures Turns(q.index.n, j, |q.clients|) < |q.clients|
    ensures Current(NextTimes(q, Turns(q.index.n, j, |q.clients|))) == Some(q.clients[j])
  {
    TurnsReach(q, j);
  }

  /** Once the cursor is NaN it stays NaN whatever joins, leaves or releases follow,
      so nobody ever holds control again. */
  lemma {:induction false} PoisonedCursorNeverRecovers(q: Queue, ops: seq<Op>)
    requires q.index == NaN
    ensures Run(q, ops).index == NaN
    ensures Current(Run(q, ops)) == None
    decreases |ops|
  {
    if |ops| > 0 {
      PoisonedCursorNeverRecovers(Apply(q, ops[0]), ops[1..]);
    }
  }

  /** `release-control` on an empty queue followed by a join: the first client to
      arrive afterwards never gets control. */
  lemma EmptyReleaseStrandsNextJoiner()
    ensures Next(Init()).q.index == NaN
    ensures Current(Run(Init(), [Release, Join("a")])) == None
  {
    PoisonedCursorNeverRecovers(Next(Init()).q, [Join("a")]);
  }

  /** Removing an entry in front of the cursor leaves the cursor where it was, so the
      holder silently becomes the entry after the old holder (or the head, when the
      old holder was last). Only in the two-client case where the head leaves does
      the holder stay the same. */
  lemma RemoveBeforeCursorShiftsHolder(q: Queue, i: nat)
    requires NoDup(q.clients)
    requires q.index.At? && i < q.index.n < |q.clients|
    requires q.clients[q.index.n] != ""
    ensures var r := Remove(q, q.clients[i]).q;
            && r.index == (if q.index.n < |q.clients| - 1 then q.index else At(0))
            && (Current(r) == Some(q.clients[q.index.n]) <==> i == 0 && q.index.n == 1 && |q.clients| == 2)
  {
    var n := q.index.n;
    var x := q.clients[i];
    assert IndexOf(q.clients, x) == i;
    var r := Remove(q, x).q;
    assert r.clients == RemoveAt(q.clients, i);
    if n < |q.clients| - 1 {
      assert r.clients[n] == q.clients[n + 1];
    } else if i == 0 {
      assert r.clients[0] == q.clients[1];
    } else {
      assert r.clients[0] == q.clients[0];
    }
  }

  /** The concrete case: with clients a, b, c and b holding control, a leaving hands
      control to c although b never released it. */
  lemma RemoveBeforeCursorExample(a: Id, b: Id, c: Id)
    requires a != b && b != c && a != c
    requires b != "" && c != ""
    ensures Current(Queue([a, b, c], At(1))) == Some(b)
    ensures Current(Remove(Queue([a, b, c], At(1)), a).q) == Some(c)
  {
    var q := Queue([a, b, c], At(1));
    assert IndexOf(q.clients, a) == 0;
    assert RemoveAt(q.clients, 0) == [b, c];
  }
}
