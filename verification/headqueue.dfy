/** The control queue as the design intends it: the holder is always the head of
    the list, with no separate cursor. Joining and leaving keep the class's `add`
    and `remove` list behaviour; a voluntary release rotates the head to the back.
    Messages are the same `queue-update` broadcast as in `ControlQueue`. */
module HeadQueue {
  import opened Wrappers
  import opened Seqs
  import ControlQueue

  type Id = ControlQueue.Id

  datatype Queue = Queue(clients: seq<Id>)

  datatype Step = Step(q: Queue, out: seq<ControlQueue.Update>)

  function Init(): Queue
  {
    Queue([])
  }

  /** The holder: the head, or nobody when the queue is empty. */
  function Current(q: Queue): (r: Option<Id>)
    ensures r.Some? <==> |q.clients| > 0
    ensures r.Some? ==> r.value in q.clients && r.value == q.clients[0]
  {
    if |q.clients| == 0 then None else Some(q.clients[0])
  }

  /** Joining: the list behaves exactly as `ControlQueue.Add` on it. */
  function Join(q: Queue, id: Id): (r: Step)
    ensures id in r.q.clients
    ensures id in q.clients <==> r == Step(q, [])
    ensures NoDup(q.clients) ==> NoDup(r.q.clients)
    ensures q.clients != [] ==> Current(r.q) == Current(q)
    ensures q.clients == [] ==> Current(r.q) == Some(id)
    ensures id !in q.clients ==> r.q.clients == q.clients + [id] && r.out == ControlQueue.Emit(r.q.clients)
  {
    var s := ControlQueue.Add(ControlQueue.Queue(q.clients, ControlQueue.At(0)), id);
    assert id !in q.clients ==> s.q.clients == s.q.clients[..|q.clients|] + [id];
    Step(Queue(s.q.clients), s.out)
  }

  /** Leaving: the first occurrence is spliced out, as `remove` does, and control
      follows the list: the holder changes only when the holder itself leaves, and
      then the next entry takes over at once. */
  function Leave(q: Queue, id: Id): (r: Step)
    ensures id !in q.clients ==> r == Step(q, [])
    ensures id in q.clients ==> |r.q.clients| == |q.clients| - 1 && r.out == ControlQueue.Emit(r.q.clients)
    ensures NoDup(q.clients) ==> NoDup(r.q.clients) && r.q.clients == Without(q.clients, id)
    ensures Current(q) != Some(id) ==> Current(r.q) == Current(q)
    ensures Current(q) == Some(id) ==>
              Current(r.q) == (if |q.clients| > 1 then Some(q.clients[1]) else None)
  {
    var i := IndexOf(q.clients, id);
    if i < 0 then
      WithoutAbsent(q.clients, id);
      Step(q, [])
    else
      var c := RemoveAt(q.clients, i);
      assert |c| == |q.clients| - 1;
      assert i > 0 ==> c[0] == q.clients[0];
      assert i == 0 && |c| > 0 ==> c[0] == q.clients[1];
      LeaveNoDup(q.clients, id);
      Step(Queue(c), ControlQueue.Emit(c))
  }

  lemma LeaveNoDup(s: seq<Id>, id: Id)
    requires id in s
    ensures NoDup(s) ==> NoDup(RemoveAt(s, IndexOf(s, id))) && RemoveAt(s, IndexOf(s, id)) == Without(s, id)
  {
    if NoDup(s) {
      RemoveFirstIsWithout(s, id);
      RemoveAtNoDup(s, IndexOf(s, id));
    }
  }

  /** Voluntary release: the holder goes to the back, every other entry moves up
      one place, and the next entry takes over.
      An empty queue stays empty; there is no state from which control cannot be
      handed out again. */
  function Advance(q: Queue): (r: Step)
    ensures multiset(r.q.clients) == multiset(q.clients)
    ensures NoDup(q.clients) ==> NoDup(r.q.clients)
    ensures |q.clients| > 1 ==> Current(r.q) == Some(q.clients[1])
    ensures |q.clients| > 0 ==> r.q.clients[|r.q.clients| - 1] == q.clients[0]
    ensures |r.q.clients| == |q.clients|
    ensures forall k | 0 <= k < |q.clients| - 1 :: r.q.clients[k] == q.clients[k + 1]
    ensures |q.clients| == 0 ==> r.q == q
    ensures r.out == ControlQueue.Emit(r.q.clients)
  {
    if |q.clients| == 0 then Step(q, ControlQueue.Emit([]))
    else
      var c := q.clients[1..] + [q.clients[0]];
      assert q.clients == [q.clients[0]] + q.clients[1..];
      Step(Queue(c), ControlQueue.Emit(c))
  }

  /** The same join / leave / release operations that drive `ControlQueue`. */
  type Op = ControlQueue.Op

  function Apply(q: Queue, op: Op): Queue
  {
    match op
    case Join(id) => Join(q, id).q
    case Leave(id) => Leave(q, id).q
    case Release => Advance(q).q
  }

  function Run(q: Queue, ops: seq<Op>): Queue
    decreases |ops|
  {
    if |ops| == 0 then q else Run(Apply(q, ops[0]), ops[1..])
  }

  /** Whatever joins, leaves and releases happen, the queue stays duplicate-free,
      so each client holds one place in line. (That a non-empty queue has a holder
      needs no induction: it is `Current`'s own contract.) */
  lemma {:induction false} RunKeepsNoDup(q: Queue, ops: seq<Op>)
    requires NoDup(q.clients)
    ensures NoDup(Run(q, ops).clients)
    decreases |ops|
  {
    if |ops| > 0 {
      RunKeepsNoDup(Apply(q, ops[0]), ops[1..]);
    }
  }

  /** The case that strands the class as written: releasing on an empty queue and
      then joining gives the joiner control. */
  lemma EmptyReleaseThenJoinHolds()
    ensures Current(Run(Init(), [ControlQueue.Release, ControlQueue.Join("a")])) == Some("a")
  {
    assert Apply(Init(), ControlQueue.Release) == Init();
  }
}
