/** The scheduler's intrusive run queues: threads hold the links, a run queue its head and
    tail. Every operation takes one step of the machine in SchedModel.dfy. */
module Sched {
  import opened SchedModel

  const NULL: Tid := 0
  const MIN_PRIO: nat := 11

  datatype Thread = Thread(prio: nat, next: Tid, prev: Tid)
  datatype RunQueue = RunQueue(head: Tid, tail: Tid)
  type Threads = map<Tid, Thread>

  function At(q: seq<Tid>, i: int): Tid {
    if 0 <= i < |q| then q[i] else NULL
  }

  /** Element i of q carries the links of its place in q. */
  predicate Linked(th: Threads, q: seq<Tid>, p: nat, i: nat)
    requires i < |q|
  {
    q[i] in th && th[q[i]] == Thread(p, At(q, i + 1), At(q, i - 1))
  }

  /** The run queue and the links of its threads spell out q, all of priority p. */
  predicate Queue(th: Threads, rq: RunQueue, q: seq<Tid>, p: nat) {
    && rq == RunQueue(At(q, 0), At(q, |q| - 1))
    && forall i :: 0 <= i < |q| ==> Linked(th, q, p, i)
  }

  predicate PrioOk(th: Threads, m: RunQueue, s: RunQueue, mq: seq<Tid>, sq: seq<Tid>, p: nat) {
    Queue(th, m, mq, p) && Queue(th, s, sq, p) && NoDup(mq + sq)
  }

  predicate Queued(th: Threads, st: State, t: Tid)
    requires Shape(st) && t in th
  {
    th[t].prio < TOTAL_PRIOS_COUNT && (t in st.master[th[t].prio] || t in st.slave[th[t].prio])
  }

  predicate LinksClear(th: Threads, t: Tid)
    requires t in th
  {
    th[t].next == NULL && th[t].prev == NULL
  }

  predicate AllOk(th: Threads, m: seq<RunQueue>, s: seq<RunQueue>, st: State) {
    && Shape(st)
    && |m| == |s| == TOTAL_PRIOS_COUNT
    && NULL !in th
    && (forall p :: 0 <= p < TOTAL_PRIOS_COUNT ==> PrioOk(th, m[p], s[p], st.master[p], st.slave[p], p))
    && forall t :: t in th && !Queued(th, st, t) ==> LinksClear(th, t)
  }

  /** Priorities and the set of threads are as before. */
  predicate SameThreads(th: Threads, th': Threads) {
    th'.Keys == th.Keys && forall t :: t in th ==> th'[t].prio == th[t].prio
  }

  function SetNext(th: Threads, t: Tid, v: Tid): (r: Threads)
    requires t in th
    ensures SameThreads(th, r)
  {
    th[t := th[t].(next := v)]
  }

  function SetPrev(th: Threads, t: Tid, v: Tid): (r: Threads)
    requires t in th
    ensures SameThreads(th, r)
  {
    th[t := th[t].(prev := v)]
  }

  //////////////////////////////////////////////////////////////////////////////
  // What one step changes
  //////////////////////////////////////////////////////////////////////////////

  lemma QueueFrame(th: Threads, th': Threads, rq: RunQueue, q: seq<Tid>, p: nat)
    requires Queue(th, rq, q, p)
    requires forall t :: t in q ==> t in th && t in th' && th'[t] == th[t]
    ensures Queue(th', rq, q, p)
  {
    forall i | 0 <= i < |q|
      ensures Linked(th', q, p, i)
    {
      assert Linked(th, q, p, i) && q[i] in q;
    }
  }

  /** A step that touches only threads and queues of priority p. */
  lemma OnePrio(th: Threads, th': Threads, m: seq<RunQueue>, s: seq<RunQueue>, m': seq<RunQueue>, s': seq<RunQueue>, st: State, st': State, p: nat)
    requires AllOk(th, m, s, st) && Shape(st') && |m'| == |s'| == TOTAL_PRIOS_COUNT && p < TOTAL_PRIOS_COUNT
    requires SameThreads(th, th')
    requires forall t :: t in th && th[t].prio != p ==> th'[t] == th[t]
    requires forall k :: 0 <= k < TOTAL_PRIOS_COUNT && k != p ==>
               m'[k] == m[k] && s'[k] == s[k] && st'.master[k] == st.master[k] && st'.slave[k] == st.slave[k]
    requires PrioOk(th', m'[p], s'[p], st'.master[p], st'.slave[p], p)
    requires forall t :: t in th && th[t].prio == p && t !in st'.master[p] && t !in st'.slave[p] ==> LinksClear(th', t)
    ensures AllOk(th', m', s', st')
  {
    hide NoDup, Queue;
    forall k | 0 <= k < TOTAL_PRIOS_COUNT
      ensures PrioOk(th', m'[k], s'[k], st'.master[k], st'.slave[k], k)
    {
      if k != p {
        assert PrioOk(th, m[k], s[k], st.master[k], st.slave[k], k);
        OtherPrio(th, th', m[k], st.master[k], k, p);
        OtherPrio(th, th', s[k], st.slave[k], k, p);
      }
    }
    forall t | t in th' && !Queued(th', st', t)
      ensures LinksClear(th', t)
    {
      assert t in th;
      if th[t].prio != p {
        assert !Queued(th, st, t);
        assert LinksClear(th, t);
      }
    }
  }

  lemma OtherPrio(th: Threads, th': Threads, rq: RunQueue, q: seq<Tid>, k: nat, p: nat)
    requires Queue(th, rq, q, k) && k != p && SameThreads(th, th')
    requires forall t :: t in th && th[t].prio != p ==> th'[t] == th[t]
    ensures Queue(th', rq, q, k)
  {
    forall t | t in q
      ensures t in th && t in th' && th'[t] == th[t]
    {
      var i :| 0 <= i < |q| && q[i] == t;
      assert Linked(th, q, k, i);
    }
    QueueFrame(th, th', rq, q, k);
  }

  lemma MembersLinked(th: Threads, rq: RunQueue, q: seq<Tid>, p: nat)
    requires Queue(th, rq, q, p)
    ensures forall t :: t in q ==> t in th && th[t].prio == p
    ensures forall i :: 0 <= i < |q| ==> th[q[i]].next == At(q, i + 1) && th[q[i]].prev == At(q, i - 1)
  {
    forall i | 0 <= i < |q|
      ensures q[i] in th && th[q[i]].prio == p && th[q[i]].next == At(q, i + 1) && th[q[i]].prev == At(q, i - 1)
    {
      assert Linked(th, q, p, i);
    }
  }

  //////////////////////////////////////////////////////////////////////////////
  // Adding at either end
  //////////////////////////////////////////////////////////////////////////////

  /** The links after _sched_add_to_start_of_runqueue. */
  function PushFront(th: Threads, rq: RunQueue, t: Tid): (r: Threads)
    requires t in th && (rq.head == NULL || rq.head in th)
    ensures SameThreads(th, r)
  {
    var th1 := SetNext(th, t, rq.head);
    if rq.head != NULL then SetPrev(th1, rq.head, t) else th1
  }

  /** The links after _sched_add_to_end_of_runqueue. */
  function PushBack(th: Threads, rq: RunQueue, t: Tid): (r: Threads)
    requires t in th && (rq.tail == NULL || rq.tail in th)
    ensures SameThreads(th, r)
  {
    var th1 := SetPrev(th, t, rq.tail);
    if rq.tail != NULL then SetNext(th1, rq.tail, t) else th1
  }

  predicate Pushable(th: Threads, q: seq<Tid>, t: Tid, p: nat) {
    t in th && NULL !in th && th[t] == Thread(p, NULL, NULL) && t !in q
  }

  lemma FrontLinks(th: Threads, rq: RunQueue, q: seq<Tid>, t: Tid, p: nat)
    requires Queue(th, rq, q, p) && NoDup(q) && Pushable(th, q, t, p)
    ensures rq.head == NULL || rq.head in th
    ensures Queue(PushFront(th, rq, t), RunQueue(t, if rq.head == NULL then t else rq.tail), [t] + q, p)
    ensures forall u :: u in th && u != t && u !in q ==> PushFront(th, rq, t)[u] == th[u]
  {
    MembersLinked(th, rq, q, p);
    assert q != [] ==> q[0] in q;
    var th', q' := PushFront(th, rq, t), [t] + q;
    forall i | 0 <= i < |q'|
      ensures Linked(th', q', p, i)
    {
      if i > 0 {
        assert Linked(th, q, p, i - 1) && q'[i] == q[i - 1] && q[i - 1] in q;
      }
    }
  }

  lemma BackLinks(th: Threads, rq: RunQueue, q: seq<Tid>, t: Tid, p: nat)
    requires Queue(th, rq, q, p) && NoDup(q) && Pushable(th, q, t, p)
    ensures rq.tail == NULL || rq.tail in th
    ensures Queue(PushBack(th, rq, t), RunQueue(if rq.tail == NULL then t else rq.head, t), q + [t], p)
    ensures forall u :: u in th && u != t && u !in q ==> PushBack(th, rq, t)[u] == th[u]
  {
    MembersLinked(th, rq, q, p);
    assert q != [] ==> q[|q| - 1] in q;
    var th', q' := PushBack(th, rq, t), q + [t];
    forall u | u in th
      ensures th'[u] == PushedBack(th, rq, t, u)
    {
    }
    hide PushBack, NoDup;
    forall i | 0 <= i < |q'|
      ensures Linked(th', q', p, i)
    {
      BackAt(th, rq, q, t, p, i);
    }
  }

  /** What pushing t to the back does to one thread u. */
  function PushedBack(th: Threads, rq: RunQueue, t: Tid, u: Tid): Thread
    requires t in th && u in th
  {
    if u == t then th[t].(prev := rq.tail) else if u == rq.tail then th[u].(next := t) else th[u]
  }

  lemma BackAt(th: Threads, rq: RunQueue, q: seq<Tid>, t: Tid, p: nat, i: nat)
    requires Queue(th, rq, q, p) && NoDup(q) && Pushable(th, q, t, p) && i <= |q|
    ensures var q' := q + [t];
      q'[i] in th && PushedBack(th, rq, t, q'[i]) == Thread(p, At(q', i + 1), At(q', i - 1))
  {
    if i < |q| {
      assert Linked(th, q, p, i) && q[i] in q;
      assert q[i] == rq.tail ==> i == |q| - 1;
    }
  }

  //////////////////////////////////////////////////////////////////////////////
  // Removing from anywhere
  //////////////////////////////////////////////////////////////////////////////

  /** The links after a thread is unlinked from its neighbours. */
  function Unlink(th: Threads, t: Tid): (r: Threads)
    requires t in th
    requires th[t].prev == NULL || th[t].prev in th
    requires th[t].next == NULL || th[t].next in th
    ensures SameThreads(th, r)
  {
    var th1 := if th[t].prev != NULL then SetNext(th, th[t].prev, th[t].next) else th;
    var th2 := if th1[t].next != NULL then SetPrev(th1, th1[t].next, th1[t].prev) else th1;
    SetPrev(SetNext(th2, t, NULL), t, NULL)
  }

  /** The head and tail after t has left. */
  function Shrunk(th: Threads, rq: RunQueue, t: Tid): RunQueue
    requires t in th
  {
    RunQueue(if rq.head == t then th[t].next else rq.head, if rq.tail == t then th[t].prev else rq.tail)
  }

  function Without1(q: seq<Tid>, i: nat): seq<Tid>
    requires i < |q|
  {
    q[..i] + q[i + 1..]
  }

  lemma RemoveAt(q: seq<Tid>, i: nat)
    requires i < |q| && NoDup(q)
    ensures RemoveFrom(q, q[i]) == Without1(q, i)
  {
    hide RemoveFrom, NoDup;
    var a, t, b := q[..i], q[i], q[i + 1..];
    assert q == (a + [t]) + b;
    OnceOnly(q, i);
    RemoveConcat(a + [t], b, t);
    RemoveConcat(a, [t], t);
    RemoveHead([t], t);
    assert [t][1..] == [];
    RemoveNone(t);
    RemoveFacts(a, t);
    RemoveFacts(b, t);
  }

  lemma OnceOnly(q: seq<Tid>, i: nat)
    requires i < |q| && NoDup(q)
    ensures q[i] !in q[..i] && q[i] !in q[i + 1..]
  {
  }

  /** What unlinking does to one thread u. */
  function Unlinked(th: Threads, t: Tid, u: Tid): Thread
    requires t in th && u in th
  {
    if u == t then Thread(th[u].prio, NULL, NULL)
    else Thread(th[u].prio,
                if u == th[t].prev then th[t].next else th[u].next,
                if u == th[t].next then th[t].prev else th[u].prev)
  }

  lemma UnlinkEach(th: Threads, t: Tid, u: Tid)
    requires t in th && u in th && NULL !in th
    requires th[t].prev == NULL || th[t].prev in th
    requires th[t].next == NULL || th[t].next in th
    requires th[t].prev != t && th[t].next != t
    ensures Unlink(th, t)[u] == Unlinked(th, t, u)
  {
  }

  lemma Neighbours(th: Threads, rq: RunQueue, q: seq<Tid>, i: nat, p: nat)
    requires Queue(th, rq, q, p) && NoDup(q) && i < |q| && NULL !in th
    ensures forall u :: u in q ==> u in th
    ensures th[q[i]] == Thread(p, At(q, i + 1), At(q, i - 1))
    ensures At(q, i - 1) == NULL || At(q, i - 1) in q
    ensures At(q, i + 1) == NULL || At(q, i + 1) in q
    ensures At(q, i - 1) != q[i] && At(q, i + 1) != q[i]
  {
    MembersLinked(th, rq, q, p);
    assert Linked(th, q, p, i);
    assert q[i] in q;
  }

  /** The queue closes over the gap that t = q[i] leaves; no thread outside q changes. */
  lemma UnlinkQueue(th: Threads, rq: RunQueue, q: seq<Tid>, i: nat, t: Tid, p: nat)
    requires Queue(th, rq, q, p) && NoDup(q) && i < |q| && t == q[i] && NULL !in th
    ensures t in th && (forall u :: u in q ==> u in th)
    ensures th[t].prev == NULL || th[t].prev in q
    ensures th[t].next == NULL || th[t].next in q
    ensures Queue(Unlink(th, t), Shrunk(th, rq, t), Without1(q, i), p)
    ensures LinksClear(Unlink(th, t), t)
    ensures forall u :: u in th && u !in q ==> Unlink(th, t)[u] == th[u]
  {
    hide NoDup, Unlink;
    Neighbours(th, rq, q, i, p);
    var th', q' := Unlink(th, t), Without1(q, i);
    forall u | u in th
      ensures th'[u] == Unlinked(th, t, u)
    {
      UnlinkEach(th, t, u);
    }
    forall k | 0 <= k < |q'|
      ensures Linked(th', q', p, k)
    {
      UnlinkedAt(th, rq, q, i, t, p, k);
    }
    ShrunkEnds(th, rq, q, i, t, p);
  }

  lemma ShrunkEnds(th: Threads, rq: RunQueue, q: seq<Tid>, i: nat, t: Tid, p: nat)
    requires Queue(th, rq, q, p) && NoDup(q) && i < |q| && t == q[i] && NULL !in th
    ensures t in th
    ensures Shrunk(th, rq, t) == RunQueue(At(Without1(q, i), 0), At(Without1(q, i), |q| - 2))
  {
    Neighbours(th, rq, q, i, p);
  }

  lemma UnlinkedAt(th: Threads, rq: RunQueue, q: seq<Tid>, i: nat, t: Tid, p: nat, k: nat)
    requires Queue(th, rq, q, p) && NoDup(q) && i < |q| && t == q[i] && NULL !in th && k < |q| - 1
    ensures t in th && Without1(q, i)[k] in th
    ensures Unlinked(th, t, Without1(q, i)[k]) == Thread(p, At(Without1(q, i), k + 1), At(Without1(q, i), k - 1))
  {
    Neighbours(th, rq, q, i, p);
    var k' := if k < i then k else k + 1;
    Neighbours(th, rq, q, k', p);
    assert Without1(q, i)[k] == q[k'] && q[k'] != t;
    assert At(q, i - 1) == q[k'] <==> k' == i - 1;
    assert At(q, i + 1) == q[k'] <==> k' == i + 1;
  }

  lemma NoDupParts2(a: seq<Tid>, b: seq<Tid>)
    requires NoDup(a + b)
    ensures NoDup(a) && NoDup(b)
    ensures forall t :: t in a ==> t !in b
  {
    var c := a + b;
    assert forall i :: 0 <= i < |a| ==> a[i] == c[i];
    assert forall i :: 0 <= i < |b| ==> b[i] == c[|a| + i];
  }

  //////////////////////////////////////////////////////////////////////////////
  // The scheduler of one CPU
  //////////////////////////////////////////////////////////////////////////////

  /** Removing t changes nothing in the queues of other priorities. */
  lemma RemovedElsewhere(th: Threads, m: seq<RunQueue>, s: seq<RunQueue>, st: State, t: Tid, k: nat)
    requires AllOk(th, m, s, st) && t in th && k < TOTAL_PRIOS_COUNT && k != th[t].prio
    ensures RemoveFrom(st.master[k], t) == st.master[k] && RemoveFrom(st.slave[k], t) == st.slave[k]
  {
    hide NoDup;
    assert PrioOk(th, m[k], s[k], st.master[k], st.slave[k], k);
    MembersLinked(th, m[k], st.master[k], k);
    MembersLinked(th, s[k], st.slave[k], k);
    RemoveFacts(st.master[k], t);
    RemoveFacts(st.slave[k], t);
  }

  /** What every dequeue relies on: the neighbours of t exist, and its run queues of the
      given buffer shrink by exactly t. */
  lemma DequeueQueues(th: Threads, m: RunQueue, s: RunQueue, mq: seq<Tid>, sq: seq<Tid>, t: Tid, p: nat)
    requires PrioOk(th, m, s, mq, sq, p) && NULL !in th && t in th && th[t].prio == p
    requires t !in mq && t !in sq ==> LinksClear(th, t)
    ensures th[t].prev == NULL || th[t].prev in th
    ensures th[t].next == NULL || th[t].next in th
    ensures PrioOk(Unlink(th, t), Shrunk(th, m, t), Shrunk(th, s, t), RemoveFrom(mq, t), RemoveFrom(sq, t), p)
    ensures LinksClear(Unlink(th, t), t)
    ensures forall u :: u in th && u !in mq && u !in sq && u != t ==> Unlink(th, t)[u] == th[u]
  {
    hide NoDup, Unlink, RemoveFrom;
    NoDupParts2(mq, sq);
    RemoveConcat(mq, sq, t);
    RemoveFacts(mq + sq, t);
    if t in mq {
      DequeueOne(th, m, s, mq, sq, t, p);
    } else if t in sq {
      DequeueOne(th, s, m, sq, mq, t, p);
    } else {
      UnlinkNothing(th, t);
      RemoveFacts(mq, t);
      RemoveFacts(sq, t);
      NotAnEnd(th, m, mq, t, p);
      NotAnEnd(th, s, sq, t, p);
    }
  }

  lemma UnlinkNothing(th: Threads, t: Tid)
    requires t in th && LinksClear(th, t)
    ensures Unlink(th, t) == th
  {
    assert th[t].(next := NULL, prev := NULL) == th[t];
  }

  lemma NotAnEnd(th: Threads, rq: RunQueue, q: seq<Tid>, t: Tid, p: nat)
    requires Queue(th, rq, q, p) && t !in q && t in th && NULL !in th
    ensures Shrunk(th, rq, t) == rq
  {
    assert q != [] ==> q[0] in q && q[|q| - 1] in q;
  }

  lemma DequeueOne(th: Threads, rq: RunQueue, rq': RunQueue, q: seq<Tid>, q': seq<Tid>, t: Tid, p: nat)
    requires Queue(th, rq, q, p) && Queue(th, rq', q', p) && NULL !in th && t in th && t in q
    requires NoDup(q) && forall u :: u in q ==> u !in q'
    ensures th[t].prev == NULL || th[t].prev in th
    ensures th[t].next == NULL || th[t].next in th
    ensures Queue(Unlink(th, t), Shrunk(th, rq, t), RemoveFrom(q, t), p)
    ensures Queue(Unlink(th, t), Shrunk(th, rq', t), RemoveFrom(q', t), p)
    ensures LinksClear(Unlink(th, t), t)
    ensures forall u :: u in th && u !in q ==> Unlink(th, t)[u] == th[u]
  {
    hide NoDup, Unlink, RemoveFrom, Queue;
    var i :| 0 <= i < |q| && q[i] == t;
    UnlinkQueue(th, rq, q, i, t, p);
    RemoveAt(q, i);
    RemoveFacts(q', t);
    NotAnEnd(th, rq', q', t, p);
    MembersLinked(th, rq', q', p);
    QueueFrame(th, Unlink(th, t), rq', q', p);
  }

  /** Taking the head is the removal of the first element. */
  lemma RemoveFirst(q: seq<Tid>)
    requires q != [] && NoDup(q)
    ensures RemoveFrom(q, q[0]) == q[1..]
  {
    RemoveAt(q, 0);
  }

  class Sched {
    var threads: Threads
    var master: seq<RunQueue>
    var slave: seq<RunQueue>
    var nextReadPrio: nat
    var enqueuedTasks: int
    ghost var st: State

    ghost predicate Valid()
      reads this
    {
      && AllOk(threads, master, slave, st)
      && Inv(st)
      && nextReadPrio == st.next
      && st.running <= threads.Keys
      && enqueuedTasks == Tasks(st)
    }

    /** _init_cpu, without the idle thread that it goes on to enqueue. */
    constructor (prios: map<Tid, nat>)
      requires NULL !in prios
      ensures Valid() && st == State(seq(TOTAL_PRIOS_COUNT, _ => []), seq(TOTAL_PRIOS_COUNT, _ => []), 0, {})
      ensures threads.Keys == prios.Keys && forall t :: t in prios ==> threads[t].prio == prios[t]
    {
      threads := map t | t in prios :: Thread(prios[t], NULL, NULL);
      master := seq(TOTAL_PRIOS_COUNT, _ => RunQueue(NULL, NULL));
      slave := seq(TOTAL_PRIOS_COUNT, _ => RunQueue(NULL, NULL));
      nextReadPrio := 0;
      enqueuedTasks := 0;
      st := State(seq(TOTAL_PRIOS_COUNT, _ => []), seq(TOTAL_PRIOS_COUNT, _ => []), 0, {});
      new;
      FlattenEmpty(st.master);
    }

    /** _sched_add_to_start_of_runqueue. */
    method AddToStart(t: Tid)
      requires t in threads && threads[t].prio < |slave|
      requires slave[threads[t].prio].head == NULL || slave[threads[t].prio].head in threads
      modifies this`threads, this`slave
      ensures var p := old(threads[t].prio); var rq := old(slave)[p];
        && threads == PushFront(old(threads), rq, t)
        && slave == old(slave)[p := RunQueue(t, if rq.head == NULL then t else rq.tail)]
    {
      var p := threads[t].prio;
      threads := threads[t := threads[t].(next := slave[p].head)];
      if threads[t].next != NULL {
        var n := threads[t].next;
        threads := threads[n := threads[n].(prev := t)];
      } else {
        slave := slave[p := slave[p].(tail := t)];
      }
      slave := slave[p := slave[p].(head := t)];
    }

    /** _sched_add_to_end_of_runqueue. */
    method AddToEnd(t: Tid)
      requires t in threads && threads[t].prio < |slave|
      requires slave[threads[t].prio].tail == NULL || slave[threads[t].prio].tail in threads
      modifies this`threads, this`slave
      ensures var p := old(threads[t].prio); var rq := old(slave)[p];
        && threads == PushBack(old(threads), rq, t)
        && slave == old(slave)[p := RunQueue(if rq.tail == NULL then t else rq.head, t)]
    {
      var p := threads[t].prio;
      threads := threads[t := threads[t].(prev := slave[p].tail)];
      if threads[t].prev != NULL {
        var n := threads[t].prev;
        threads := threads[n := threads[n].(next := t)];
      } else {
        slave := slave[p := slave[p].(head := t)];
      }
      slave := slave[p := slave[p].(tail := t)];
    }

    /** _sched_enqueue_impl: a thread that is in no queue and not running goes to the front
        of the slave queue of its priority. */
    method EnqueueImpl(t: Tid)
      requires Valid() && t in threads && threads[t].prio < TOTAL_PRIOS_COUNT && !Present(st, t)
      modifies this
      ensures Valid() && st == Apply(old(st), Enqueue(t, old(threads[t].prio)))
      ensures SameThreads(old(threads), threads)
    {
      hide Flatten, AllOk, SchedModel.Inv, PushFront, Apply, Tasks;
      EnqueueStep(threads, master, slave, st, t);
      ghost var e := Enqueue(t, threads[t].prio);
      AddToStart(t);
      enqueuedTasks := enqueuedTasks + 1;
      st := Apply(st, e);
    }

    /** sched_enqueue on this CPU: an out-of-range priority is lowered to the last one. */
    method SchedEnqueue(t: Tid)
      requires Valid() && t in threads && !Present(st, t)
      modifies this
      ensures Valid() && threads.Keys == old(threads.Keys)
      ensures st == Apply(old(st), WakeEvent(old(threads), t))
      ensures threads[t].prio == Lowered(old(threads[t].prio))
      ensures forall u :: u in threads && u != t ==> threads[u].prio == old(threads[u].prio)
    {
      hide Flatten, AllOk, SchedModel.Inv, Apply, Tasks;
      if threads[t].prio > MIN_PRIO {
        ClampOk(threads, master, slave, st, t);
        threads := threads[t := threads[t].(prio := MIN_PRIO)];
      }
      EnqueueImpl(t);
    }

    /** The part of resched that re-queues the running thread: to the back of the slave
        queue of its priority, without counting it again. */
    method Requeued(t: Tid)
      requires Valid() && t in st.running && threads[t].prio < TOTAL_PRIOS_COUNT
      modifies this
      ensures Valid() && st == Apply(old(st), Requeue(t, old(threads[t].prio)))
      ensures SameThreads(old(threads), threads)
    {
      hide Flatten, AllOk, SchedModel.Inv, PushBack, Apply, Tasks;
      RequeueStep(threads, master, slave, st, t);
      ghost var e := Requeue(t, threads[t].prio);
      AddToEnd(t);
      st := Apply(st, e);
    }

    /** The ends of the queues that t heads or ends move inwards, in both buffers. */
    method DropEnds(t: Tid)
      requires t in threads && threads[t].prio < |slave| == |master|
      modifies this`master, this`slave
      ensures var p := threads[t].prio;
        && slave == old(slave)[p := Shrunk(threads, old(slave)[p], t)]
        && master == old(master)[p := Shrunk(threads, old(master)[p], t)]
    {
      var p := threads[t].prio;
      if slave[p].tail == t {
        slave := slave[p := slave[p].(tail := threads[t].prev)];
      }
      if slave[p].head == t {
        slave := slave[p := slave[p].(head := threads[t].next)];
      }
      if master[p].tail == t {
        master := master[p := master[p].(tail := threads[t].prev)];
      }
      if master[p].head == t {
        master := master[p := master[p].(head := threads[t].next)];
      }
    }

    /** The neighbours of t are joined and its own links cleared. */
    method JoinNeighbours(t: Tid)
      requires t in threads
      requires threads[t].prev == NULL || threads[t].prev in threads
      requires threads[t].next == NULL || threads[t].next in threads
      modifies this`threads
      ensures threads == Unlink(old(threads), t)
    {
      if threads[t].prev != NULL {
        var n := threads[t].prev;
        threads := threads[n := threads[n].(next := threads[t].next)];
      }
      if threads[t].next != NULL {
        var n := threads[t].next;
        threads := threads[n := threads[n].(prev := threads[t].prev)];
      }
      threads := threads[t := threads[t].(next := NULL)];
      threads := threads[t := threads[t].(prev := NULL)];
    }

    /** _sched_dequeue_impl: a thread leaves whichever queue of either buffer holds it, at
        any position, or stops running. */
    method DequeueImpl(t: Tid)
      requires Valid() && Present(st, t) && t in threads && threads[t].prio < TOTAL_PRIOS_COUNT
      modifies this
      ensures Valid() && st == Apply(old(st), Dequeue(t))
      ensures SameThreads(old(threads), threads)
    {
      hide Flatten, AllOk, SchedModel.Inv, Unlink, Shrunk, Apply, Tasks;
      DequeueStep(threads, master, slave, st, t);
      DropEnds(t);
      JoinNeighbours(t);
      enqueuedTasks := enqueuedTasks - 1;
      st := Apply(st, Dequeue(t));
    }

    /** _sched_swap_buffers. */
    method SwapBuffers()
      requires Valid() && Enabled(st, Swap)
      modifies this
      ensures Valid() && st == Apply(old(st), Swap) && threads == old(threads)
    {
      hide Flatten, NoDup;
      StepKeepsInv(st, Swap);
      TasksStep(st, Swap);
      SwapOk(threads, master, slave, st);
      var tmp := master;
      master := slave;
      slave := tmp;
      nextReadPrio := 0;
      st := Apply(st, Swap);
    }

    /** The thread the search found leaves the head of its queue. */
    method TakeHead() returns (t: Tid)
      requires Valid() && Enabled(st, Take)
      modifies this
      ensures Valid() && t == old(st.master[st.next][0]) && st == Apply(old(st), Take)
      ensures SameThreads(old(threads), threads)
    {
      hide Flatten, AllOk, SchedModel.Inv, Unlink, Shrunk, Apply, Tasks;
      TakeStep(threads, master, slave, st);
      t := PopHead();
      st := Apply(st, Take);
    }

    method PopHead() returns (t: Tid)
      requires nextReadPrio < |master| && master[nextReadPrio].head in threads
      requires var h := threads[master[nextReadPrio].head];
        h.prev == NULL && (h.next == NULL || h.next in threads)
      modifies this`threads, this`master
      ensures t == old(master)[nextReadPrio].head && threads == Unlink(old(threads), t)
      ensures master == old(master)[nextReadPrio := Shrunk(old(threads), old(master)[nextReadPrio], t)]
    {
      var p := nextReadPrio;
      t := master[p].head;
      master := master[p := master[p].(head := threads[t].next)];
      if master[p].tail == t {
        master := master[p := master[p].(tail := NULL)];
      }
      if threads[t].next != NULL {
        var n := threads[t].next;
        threads := threads[n := threads[n].(prev := NULL)];
      }
      threads := threads[t := threads[t].(next := NULL)];
      threads := threads[t := threads[t].(prev := NULL)];
    }

    /** sched_unblock_threads, for the threads that it puts on this CPU: each of them is
        enqueued, once, in their order, and waits in the slave array. */
    method Unblock(woken: seq<Tid>) returns (ghost es: seq<Event>)
      requires Valid() && Wakeable(st, threads, woken)
      modifies this
      ensures Valid() && threads.Keys == old(threads.Keys)
      ensures Runs(old(st), es) && st == After(old(st), es)
      ensures es == WakeEvents(old(threads), woken)
      ensures forall t :: t in woken ==> t in Flatten(st.slave)
      ensures st.master == old(st).master && st.next == old(st).next
      ensures woken == [] ==> st == old(st)
      ensures woken != [] || Flatten(old(st).slave) != [] ==> Flatten(st.slave) != []
    {
      hide Flatten, AllOk, SchedModel.Inv, Tasks;
      ghost var st0, th0 := st, threads;
      ShapeOf(threads, master, slave, st);
      es := [];
      for i := 0 to |woken|
        invariant Valid() && threads.Keys == old(threads.Keys) && Wakeable(st, threads, woken[i..])
        invariant Shape(st0) && Runs(st0, es) && st == After(st0, es)
        invariant es == WakeEvents(th0, woken[..i])
        invariant forall t :: t in woken[..i] ==> t in Flatten(st.slave)
        invariant forall t :: t in woken[i..] ==> t in threads && threads[t].prio == th0[t].prio
        invariant st.master == st0.master && st.next == st0.next
        invariant i == 0 ==> st == st0
        invariant i > 0 || Flatten(st0.slave) != [] ==> Flatten(st.slave) != []
      {
        ghost var before, t := st, woken[i];
        ghost var e := WakeEvent(threads, t);
        assert woken[i..][0] == t && woken[i..][1..] == woken[i + 1..];
        assert woken[..i + 1] == woken[..i] + [t];
        SchedEnqueue(woken[i]);
        RunSnoc(st0, es, e);
        StillWakeable(before, threads, woken[i..], e.prio);
        EnqueuePresent(before, t, e.prio, t + 1);
        forall u | u in woken[..i + 1]
          ensures u in Flatten(st.slave)
        {
          EnqueueSlave(before, t, e.prio, u);
        }
        es := es + [e];
      }
    }

    /** The pick loop of sched: it ends whenever some thread is queued, or will be woken when
        the master array has drained on CPU 0. Its steps are searching and swapping, up to
        the one thread taken; on CPU 0 every thread of woken is woken right before the first
        swap, and otherwise none is. */
    method PickNext(cpu0: bool, woken: seq<Tid>) returns (t: Tid, ghost es: seq<Event>)
      requires Valid() && Wakeable(st, threads, woken)
      requires Flatten(st.master) != [] || Flatten(st.slave) != [] || (cpu0 && woken != [])
      modifies this
      ensures Valid() && threads.Keys == old(threads.Keys)
      ensures WakesAtSwap(es, Wakes(old(st), old(threads), cpu0, woken))
      ensures Runs(old(st), es) && Enabled(After(old(st), es), Take)
      ensures var s := After(old(st), es); t == s.master[s.next][0] && st == Apply(s, Take)
    {
      hide Flatten, AllOk, SchedModel.Inv, Tasks, Wakeable, WakesSoFar, WakesAtSwap, WakeEvents;
      es := [];
      ghost var st0, swapped := st, false;
      ghost var wakes := Wakes(st, threads, cpu0, woken);
      var pending := if cpu0 then woken else [];
      NobodyWoken(st, threads);
      NothingSoFar(wakes);
      ShapeOf(threads, master, slave, st);
      HeadIff(threads, master, slave, st);
      while master[nextReadPrio].head == NULL
        invariant Valid() && threads.Keys == old(threads.Keys) && Shape(st0) && Shape(st)
        invariant |master| == TOTAL_PRIOS_COUNT
        invariant if swapped then pending == [] else threads == old(threads) && pending == (if cpu0 then woken else [])
        invariant WakesSoFar(es, wakes, swapped)
        invariant Wakeable(st, threads, pending)
        invariant Flatten(st.master) != [] || Flatten(st.slave) != [] || pending != []
        invariant Runs(st0, es) && st == After(st0, es)
        invariant master[nextReadPrio].head == NULL <==> st.master[st.next] == []
        decreases Flatten(st.master) == [], TOTAL_PRIOS_COUNT - nextReadPrio
      {
        if nextReadPrio + 1 >= TOTAL_PRIOS_COUNT {
          DrainedAtSwap(st);
          ghost var more := Unblock(pending);
          RunThen(st0, es, more);
          SwapSoFar(es, wakes, swapped, more);
          es := es + more;
          pending := [];
          RunSnoc(st0, es, Swap);
          SwapBuffers();
          es := es + [Swap];
          NobodyWoken(st, threads);
          swapped := true;
        } else {
          RunSnoc(st0, es, Advance);
          StepKeepsInv(st, Advance);
          AdvanceOk(threads, master, slave, st, pending);
          nextReadPrio := nextReadPrio + 1;
          st := Apply(st, Advance);
          AdvanceSoFar(es, wakes, swapped);
          es := es + [Advance];
        }
        ShapeOf(threads, master, slave, st);
        HeadIff(threads, master, slave, st);
      }
      SoFarEnds(es, wakes, swapped);
      t := TakeHead();
    }
  }

  /** sched_enqueue lowers a priority below the last one to it. */
  function Lowered(prio: nat): nat {
    if prio > MIN_PRIO then MIN_PRIO else prio
  }

  function WakeEvent(th: Threads, t: Tid): Event
    requires t in th
  {
    Enqueue(t, Lowered(th[t].prio))
  }

  function WakeEvents(th: Threads, woken: seq<Tid>): (r: seq<Event>)
    requires forall t :: t in woken ==> t in th
    ensures |r| == |woken|
  {
    seq(|woken|, i requires 0 <= i < |woken| => WakeEvent(th, woken[i]))
  }

  /** Up to event k the search only moves on; then come the wakes, all of them, then the
      first swap, and nobody is woken after it. */
  predicate WokenAt(es: seq<Event>, wakes: seq<Event>, k: nat) {
    && k + |wakes| < |es|
    && (forall i :: 0 <= i < k ==> es[i] == Advance)
    && es[k..k + |wakes|] == wakes
    && es[k + |wakes|] == Swap
    && forall i :: k + |wakes| < i < |es| ==> es[i] == Advance || es[i] == Swap
  }

  ghost predicate WakesAtSwap(es: seq<Event>, wakes: seq<Event>) {
    WakesSoFar(es, wakes, Swap in es)
  }

  ghost predicate WakesSoFar(es: seq<Event>, wakes: seq<Event>, swapped: bool) {
    if swapped then exists k: nat :: WokenAt(es, wakes, k) else forall i :: 0 <= i < |es| ==> es[i] == Advance
  }

  lemma NothingSoFar(wakes: seq<Event>)
    ensures WakesSoFar([], wakes, false)
  {
  }

  lemma AdvanceSoFar(es: seq<Event>, wakes: seq<Event>, swapped: bool)
    requires WakesSoFar(es, wakes, swapped)
    ensures WakesSoFar(es + [Advance], wakes, swapped)
  {
    if swapped {
      var k: nat :| WokenAt(es, wakes, k);
      assert WokenAt(es + [Advance], wakes, k);
    }
  }

  lemma SwapSoFar(es: seq<Event>, wakes: seq<Event>, swapped: bool, more: seq<Event>)
    requires WakesSoFar(es, wakes, swapped) && more == if swapped then [] else wakes
    ensures WakesSoFar(es + more + [Swap], wakes, true)
  {
    if swapped {
      var k: nat :| WokenAt(es, wakes, k);
      assert WokenAt(es + more + [Swap], wakes, k);
    } else {
      assert WokenAt(es + more + [Swap], wakes, |es|);
    }
  }

  lemma SoFarEnds(es: seq<Event>, wakes: seq<Event>, swapped: bool)
    requires WakesSoFar(es, wakes, swapped)
    ensures WakesAtSwap(es, wakes)
  {
    if swapped {
      var k: nat :| WokenAt(es, wakes, k);
      assert es[k + |wakes|] == Swap;
    }
  }

  /** Threads that may be woken: known ones that are neither queued nor running. */
  ghost predicate Wakeable(st: State, th: Threads, woken: seq<Tid>) {
    NoDup(woken) && forall t :: t in woken ==> t in th && !Present(st, t)
  }

  /** What is to be woken: the threads of woken on CPU 0, else nobody. */
  ghost function Wakes(st: State, th: Threads, cpu0: bool, woken: seq<Tid>): seq<Event>
    requires Wakeable(st, th, woken)
  {
    if cpu0 then WakeEvents(th, woken) else []
  }

  lemma NobodyWoken(st: State, th: Threads)
    ensures Wakeable(st, th, [])
  {
  }

  lemma ShapeOf(th: Threads, m: seq<RunQueue>, s: seq<RunQueue>, st: State)
    requires AllOk(th, m, s, st)
    ensures Shape(st) && |m| == |s| == TOTAL_PRIOS_COUNT
  {
  }

  lemma StillWakeable(st: State, th: Threads, woken: seq<Tid>, p: nat)
    requires Wakeable(st, th, woken) && woken != [] && Shape(st) && p < TOTAL_PRIOS_COUNT
    ensures !Present(st, woken[0]) && Wakeable(Apply(st, Enqueue(woken[0], p)), th, woken[1..])
  {
    hide Flatten;
    var t, rest := woken[0], woken[1..];
    assert t in woken && [t] + rest == woken;
    NoDupTail(t, rest);
    forall u | u in rest
      ensures u in th && !Present(Apply(st, Enqueue(t, p)), u)
    {
      EnqueuePresent(st, t, p, u);
    }
  }

  lemma AdvanceOk(th: Threads, m: seq<RunQueue>, s: seq<RunQueue>, st: State, woken: seq<Tid>)
    requires AllOk(th, m, s, st) && Enabled(st, Advance) && Wakeable(st, th, woken)
    ensures AllOk(th, m, s, Apply(st, Advance)) && Wakeable(Apply(st, Advance), th, woken)
    ensures Tasks(Apply(st, Advance)) == Tasks(st)
  {
    hide NoDup, PrioOk;
    forall t | t in th && !Queued(th, Apply(st, Advance), t)
      ensures LinksClear(th, t)
    {
      assert !Queued(th, st, t);
    }
  }

  lemma EnqueueFacts(th: Threads, m: seq<RunQueue>, s: seq<RunQueue>, st: State, t: Tid)
    requires AllOk(th, m, s, st) && Inv(st) && t in th && th[t].prio < TOTAL_PRIOS_COUNT
    requires t !in Flatten(st.master) && t !in Flatten(st.slave)
    ensures var p := th[t].prio;
      && PrioOk(th, m[p], s[p], st.master[p], st.slave[p], p)
      && t !in st.master[p] && Pushable(th, st.slave[p], t, p)
      && (s[p].head == NULL || s[p].head in th)
      && (s[p].tail == NULL || s[p].tail in th)
  {
    hide Flatten, NoDup;
    var p := th[t].prio;
    FlattenSplit(st.master, p);
    FlattenSplit(st.slave, p);
    assert PrioOk(th, m[p], s[p], st.master[p], st.slave[p], p);
    assert !Queued(th, st, t);
    NoDupParts2(st.master[p], st.slave[p]);
    FrontLinks(th, s[p], st.slave[p], t, p);
    BackLinks(th, s[p], st.slave[p], t, p);
  }

  /** A step of the machine, carried out on links, heads and counter alike. */
  ghost predicate Stepped(th: Threads, m: seq<RunQueue>, s: seq<RunQueue>, st: State, e: Event, th': Threads, m': seq<RunQueue>, s': seq<RunQueue>) {
    && Shape(st) && Enabled(st, e)
    && AllOk(th', m', s', Apply(st, e)) && Inv(Apply(st, e)) && SameThreads(th, th')
    && Apply(st, e).next == st.next
    && (st.running <= th.Keys ==> Apply(st, e).running <= th'.Keys)
    && Tasks(Apply(st, e)) == Tasks(st) + (if e.Enqueue? then 1 else if e.Dequeue? then -1 else 0)
  }

  lemma EnqueueStep(th: Threads, m: seq<RunQueue>, s: seq<RunQueue>, st: State, t: Tid)
    requires AllOk(th, m, s, st) && Inv(st) && t in th && th[t].prio < TOTAL_PRIOS_COUNT && !Present(st, t)
    ensures |s| == TOTAL_PRIOS_COUNT
    ensures var p := th[t].prio;
      && (s[p].head == NULL || s[p].head in th)
      && Stepped(th, m, s, st, Enqueue(t, p), PushFront(th, s[p], t), m, s[p := RunQueue(t, if s[p].head == NULL then t else s[p].tail)])
  {
    hide Flatten, NoDup, PrioOk, PushFront, Tasks;
    EnqueueFacts(th, m, s, st, t);
    EnqueueOk(th, m, s, st, t);
    StepKeepsInv(st, Enqueue(t, th[t].prio));
    TasksStep(st, Enqueue(t, th[t].prio));
  }

  lemma RequeueStep(th: Threads, m: seq<RunQueue>, s: seq<RunQueue>, st: State, t: Tid)
    requires AllOk(th, m, s, st) && Inv(st) && t in th && th[t].prio < TOTAL_PRIOS_COUNT && t in st.running
    ensures |s| == TOTAL_PRIOS_COUNT
    ensures var p := th[t].prio;
      && (s[p].tail == NULL || s[p].tail in th)
      && Stepped(th, m, s, st, Requeue(t, p), PushBack(th, s[p], t), m, s[p := RunQueue(if s[p].tail == NULL then t else s[p].head, t)])
  {
    hide Flatten, NoDup, PrioOk, PushBack, Tasks;
    EnqueueFacts(th, m, s, st, t);
    RequeueOk(th, m, s, st, t);
    StepKeepsInv(st, Requeue(t, th[t].prio));
    TasksStep(st, Requeue(t, th[t].prio));
  }

  lemma DequeueStep(th: Threads, m: seq<RunQueue>, s: seq<RunQueue>, st: State, t: Tid)
    requires AllOk(th, m, s, st) && Inv(st) && t in th && th[t].prio < TOTAL_PRIOS_COUNT && Present(st, t)
    ensures |s| == |m| == TOTAL_PRIOS_COUNT
    ensures th[t].prev == NULL || th[t].prev in th
    ensures th[t].next == NULL || th[t].next in th
    ensures var p := th[t].prio;
      Stepped(th, m, s, st, Dequeue(t), Unlink(th, t), m[p := Shrunk(th, m[p], t)], s[p := Shrunk(th, s[p], t)])
  {
    hide Flatten, NoDup, PrioOk, Unlink, Tasks;
    DequeueOk(th, m, s, st, t);
    StepKeepsInv(st, Dequeue(t));
    TasksStep(st, Dequeue(t));
  }

  lemma TakeStep(th: Threads, m: seq<RunQueue>, s: seq<RunQueue>, st: State)
    requires AllOk(th, m, s, st) && Inv(st) && Enabled(st, Take)
    ensures |s| == |m| == TOTAL_PRIOS_COUNT
    ensures var p := st.next; var t := st.master[p][0];
      && t in th && t == m[p].head && th[t].prev == NULL && (th[t].next == NULL || th[t].next in th)
      && Stepped(th, m, s, st, Take, Unlink(th, t), m[p := Shrunk(th, m[p], t)], s)
  {
    hide Flatten, NoDup, PrioOk, Unlink, Tasks;
    TakeOk(th, m, s, st);
    StepKeepsInv(st, Take);
    TasksStep(st, Take);
  }

  lemma EnqueueOk(th: Threads, m: seq<RunQueue>, s: seq<RunQueue>, st: State, t: Tid)
    requires AllOk(th, m, s, st) && Inv(st) && t in th && th[t].prio < TOTAL_PRIOS_COUNT
    requires !Present(st, t)
    requires s[th[t].prio].head == NULL || s[th[t].prio].head in th
    ensures var p := th[t].prio;
      AllOk(PushFront(th, s[p], t), m, s[p := RunQueue(t, if s[p].head == NULL then t else s[p].tail)], Apply(st, Enqueue(t, p)))
  {
    hide Flatten, NoDup, PushFront;
    var p := th[t].prio;
    EnqueueFacts(th, m, s, st, t);
    PushedOk(th, m, s, st, Apply(st, Enqueue(t, p)), t, PushFront(th, s[p], t),
             RunQueue(t, if s[p].head == NULL then t else s[p].tail), [t] + st.slave[p]) by {
      NoDupParts2(st.master[p], st.slave[p]);
      FrontLinks(th, s[p], st.slave[p], t, p);
      StepKeepsInv(st, Enqueue(t, p));
      QueuesNoDup(Apply(st, Enqueue(t, p)), p);
    }
  }

  /** A thread was put into the slave queue of its priority. */
  lemma PushedOk(th: Threads, m: seq<RunQueue>, s: seq<RunQueue>, st: State, st': State, t: Tid, th': Threads, rq: RunQueue, q: seq<Tid>)
    requires AllOk(th, m, s, st) && t in th && th[t].prio < TOTAL_PRIOS_COUNT && Shape(st')
    requires SameThreads(th, th')
    requires var p := th[t].prio;
      && st'.master == st.master && st'.slave == st.slave[p := q]
      && t in q && (forall u :: u in st.slave[p] ==> u in q)
      && t !in st.master[p] && t !in st.slave[p]
      && Queue(th', rq, q, p) && NoDup(st.master[p] + q)
      && (forall u :: u in th && u != t && u !in st.slave[p] ==> th'[u] == th[u])
    ensures AllOk(th', m, s[th[t].prio := rq], st')
  {
    hide NoDup;
    var p := th[t].prio;
    assert PrioOk(th, m[p], s[p], st.master[p], st.slave[p], p);
    PushedPair(th, m[p], s[p], st.master[p], st.slave[p], p, t, th', rq, q);
    forall u | u in th && th[u].prio == p && u !in st'.master[p] && u !in st'.slave[p]
      ensures LinksClear(th', u)
    {
      assert !Queued(th, st, u);
    }
    OnePrio(th, th', m, s, m, s[p := rq], st, st', p);
  }

  lemma PushedPair(th: Threads, m: RunQueue, s: RunQueue, mq: seq<Tid>, sq: seq<Tid>, p: nat, t: Tid, th': Threads, rq: RunQueue, q: seq<Tid>)
    requires PrioOk(th, m, s, mq, sq, p) && t !in mq
    requires Queue(th', rq, q, p) && NoDup(mq + q)
    requires SameThreads(th, th')
    requires forall u :: u in th && u != t && u !in sq ==> th'[u] == th[u]
    ensures PrioOk(th', m, rq, mq, q, p)
    ensures forall u :: u in th && th[u].prio != p && u != t ==> th'[u] == th[u]
  {
    NoDupParts2(mq, sq);
    MembersLinked(th, m, mq, p);
    MembersLinked(th, s, sq, p);
    QueueFrame(th, th', m, mq, p);
  }

  lemma RequeueOk(th: Threads, m: seq<RunQueue>, s: seq<RunQueue>, st: State, t: Tid)
    requires AllOk(th, m, s, st) && Inv(st) && t in th && th[t].prio < TOTAL_PRIOS_COUNT
    requires t in st.running
    requires s[th[t].prio].tail == NULL || s[th[t].prio].tail in th
    ensures var p := th[t].prio;
      AllOk(PushBack(th, s[p], t), m, s[p := RunQueue(if s[p].tail == NULL then t else s[p].head, t)], Apply(st, Requeue(t, p)))
  {
    hide Flatten, NoDup, PushBack;
    var p := th[t].prio;
    EnqueueFacts(th, m, s, st, t);
    PushedOk(th, m, s, st, Apply(st, Requeue(t, p)), t, PushBack(th, s[p], t),
             RunQueue(if s[p].tail == NULL then t else s[p].head, t), st.slave[p] + [t]) by {
      NoDupParts2(st.master[p], st.slave[p]);
      BackLinks(th, s[p], st.slave[p], t, p);
      StepKeepsInv(st, Requeue(t, p));
      QueuesNoDup(Apply(st, Requeue(t, p)), p);
    }
  }

  lemma ClampOk(th: Threads, m: seq<RunQueue>, s: seq<RunQueue>, st: State, t: Tid)
    requires AllOk(th, m, s, st) && t in th && t !in Flatten(st.master) && t !in Flatten(st.slave)
    ensures AllOk(th[t := th[t].(prio := MIN_PRIO)], m, s, st)
  {
    hide NoDup, Queue;
    var th' := th[t := th[t].(prio := MIN_PRIO)];
    forall p | 0 <= p < TOTAL_PRIOS_COUNT
      ensures t !in st.master[p] && t !in st.slave[p] && PrioOk(th', m[p], s[p], st.master[p], st.slave[p], p)
    {
      FlattenSplit(st.master, p);
      FlattenSplit(st.slave, p);
      assert PrioOk(th, m[p], s[p], st.master[p], st.slave[p], p);
      MembersLinked(th, m[p], st.master[p], p);
      MembersLinked(th, s[p], st.slave[p], p);
      QueueFrame(th, th', m[p], st.master[p], p);
      QueueFrame(th, th', s[p], st.slave[p], p);
    }
    assert !Queued(th, st, t);
    forall u | u in th' && !Queued(th', st, u)
      ensures LinksClear(th', u)
    {
      assert LinksClear(th, u) by {
        if u != t {
          assert !Queued(th, st, u);
        }
      }
    }
  }

  lemma DequeueOk(th: Threads, m: seq<RunQueue>, s: seq<RunQueue>, st: State, t: Tid)
    requires AllOk(th, m, s, st) && Inv(st) && t in th && th[t].prio < TOTAL_PRIOS_COUNT && Present(st, t)
    ensures th[t].prev == NULL || th[t].prev in th
    ensures th[t].next == NULL || th[t].next in th
    ensures var p := th[t].prio;
      AllOk(Unlink(th, t), m[p := Shrunk(th, m[p], t)], s[p := Shrunk(th, s[p], t)], Apply(st, Dequeue(t)))
  {
    hide Flatten, NoDup, RemoveFrom, Unlink, Queue;
    var p := th[t].prio;
    assert PrioOk(th, m[p], s[p], st.master[p], st.slave[p], p);
    assert t !in st.master[p] && t !in st.slave[p] ==> !Queued(th, st, t);
    DequeueQueues(th, m[p], s[p], st.master[p], st.slave[p], t, p);
    var st' := Apply(st, Dequeue(t));
    DequeueTouches(th, m[p], s[p], st.master[p], st.slave[p], t, p);
    forall k | 0 <= k < TOTAL_PRIOS_COUNT && k != p
      ensures st'.master[k] == st.master[k] && st'.slave[k] == st.slave[k]
    {
      RemovedElsewhere(th, m, s, st, t, k);
    }
    forall u | u in th && th[u].prio == p && u !in st'.master[p] && u !in st'.slave[p]
      ensures LinksClear(Unlink(th, t), u)
    {
      RemoveFacts(st.master[p], t);
      RemoveFacts(st.slave[p], t);
      if u != t {
        assert !Queued(th, st, u);
      }
    }
    OnePrio(th, Unlink(th, t), m, s, m[p := Shrunk(th, m[p], t)], s[p := Shrunk(th, s[p], t)], st, st', p);
  }

  lemma DequeueTouches(th: Threads, m: RunQueue, s: RunQueue, mq: seq<Tid>, sq: seq<Tid>, t: Tid, p: nat)
    requires PrioOk(th, m, s, mq, sq, p) && NULL !in th && t in th && th[t].prio == p
    requires t !in mq && t !in sq ==> LinksClear(th, t)
    ensures th[t].prev == NULL || th[t].prev in th
    ensures th[t].next == NULL || th[t].next in th
    ensures forall u :: u in th && th[u].prio != p ==> Unlink(th, t)[u] == th[u]
  {
    hide NoDup, Queue, Unlink;
    DequeueQueues(th, m, s, mq, sq, t, p);
    MembersLinked(th, m, mq, p);
    MembersLinked(th, s, sq, p);
  }

  lemma SwapOk(th: Threads, m: seq<RunQueue>, s: seq<RunQueue>, st: State)
    requires AllOk(th, m, s, st) && Enabled(st, Swap)
    ensures AllOk(th, s, m, Apply(st, Swap))
  {
    hide NoDup, Queue;
    var st' := Apply(st, Swap);
    forall p | 0 <= p < TOTAL_PRIOS_COUNT
      ensures PrioOk(th, s[p], m[p], st'.master[p], st'.slave[p], p)
    {
      assert PrioOk(th, m[p], s[p], st.master[p], st.slave[p], p);
      NoDupPermute(st.master[p], st.slave[p]);
    }
    forall t | t in th && !Queued(th, st', t)
      ensures LinksClear(th, t)
    {
      assert !Queued(th, st, t);
    }
  }

  /** The head link tells whether the queue is empty. */
  lemma HeadIff(th: Threads, m: seq<RunQueue>, s: seq<RunQueue>, st: State)
    requires AllOk(th, m, s, st)
    ensures m[st.next].head == NULL <==> st.master[st.next] == []
  {
    hide NoDup;
    var p := st.next;
    assert PrioOk(th, m[p], s[p], st.master[p], st.slave[p], p);
    MembersLinked(th, m[p], st.master[p], p);
    assert st.master[p] != [] ==> st.master[p][0] in st.master[p];
  }

  /** Taking the head of a queue is dequeuing it and counting it as running. */
  lemma TakeOk(th: Threads, m: seq<RunQueue>, s: seq<RunQueue>, st: State)
    requires AllOk(th, m, s, st) && Inv(st) && Enabled(st, Take)
    ensures var p := st.next; var t := st.master[p][0];
      && t in th && t == m[p].head && th[t].prev == NULL && (th[t].next == NULL || th[t].next in th)
      && AllOk(Unlink(th, t), m[p := Shrunk(th, m[p], t)], s, Apply(st, Take))
  {
    hide Flatten, NoDup, RemoveFrom, Unlink, Queue;
    var p := st.next;
    var t, mq, sq := st.master[p][0], st.master[p], st.slave[p];
    var st' := Apply(st, Take);
    assert PrioOk(th, m[p], s[p], mq, sq, p);
    TakeEnds(th, m[p], mq, p);
    DequeueQueues(th, m[p], s[p], mq, sq, t, p);
    DequeueTouches(th, m[p], s[p], mq, sq, t, p);
    NoDupParts2(mq, sq);
    RemoveFirst(mq);
    RemoveFacts(sq, t);
    NotAnEnd(th, s[p], sq, t, p);
    forall u | u in th && th[u].prio == p && u !in st'.master[p] && u !in st'.slave[p]
      ensures LinksClear(Unlink(th, t), u)
    {
      if u != t {
        assert mq == [t] + mq[1..];
        assert !Queued(th, st, u);
      }
    }
    OnePrio(th, Unlink(th, t), m, s, m[p := Shrunk(th, m[p], t)], s, st, st', p);
  }

  lemma TakeEnds(th: Threads, rq: RunQueue, q: seq<Tid>, p: nat)
    requires Queue(th, rq, q, p) && q != []
    ensures q[0] in th && th[q[0]].prio == p && rq.head == q[0] && th[q[0]].prev == NULL
  {
    assert Linked(th, q, p, 0);
  }

  /** _sched_find_cpu_with_less_load: the first CPU with the fewest enqueued tasks. */
  method FindCpuWithLessLoad(enqueued: seq<int>) returns (id: nat)
    requires enqueued != []
    ensures id < |enqueued|
    ensures forall i :: 0 <= i < |enqueued| ==> enqueued[id] <= enqueued[i]
    ensures forall i :: 0 <= i < id ==> enqueued[id] < enqueued[i]
  {
    var mx := enqueued[0];
    id := 0;
    for i := 1 to |enqueued|
      invariant id < i && mx == enqueued[id]
      invariant forall k :: 0 <= k < i ==> mx <= enqueued[k]
      invariant forall k :: 0 <= k < id ==> mx < enqueued[k]
    {
      if mx > enqueued[i] {
        mx := enqueued[i];
        id := i;
      }
    }
  }
}
