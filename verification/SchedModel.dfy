/** The per-CPU scheduler as a step machine on plain sequences: a master and a slave array
    of priority queues, read in priority order and swapped when the master has drained.
    The class in Sched.dfy takes exactly these steps. */
module SchedModel {

  const TOTAL_PRIOS_COUNT: nat := 13

  type Tid = nat

  datatype State = State(master: seq<seq<Tid>>, slave: seq<seq<Tid>>, next: nat, running: set<Tid>)

  datatype Event =
    | Enqueue(t: Tid, prio: nat)   // a new or unblocked thread, to the front of its slave queue
    | Requeue(t: Tid, prio: nat)   // the running thread, to the back of its slave queue
    | Dequeue(t: Tid)              // a thread leaves, from wherever it is
    | Advance                      // the search moves to the next priority
    | Swap                         // the search ran off the end
    | Take                         // the search found a thread

  predicate Shape(s: State) {
    |s.master| == |s.slave| == TOTAL_PRIOS_COUNT && s.next < TOTAL_PRIOS_COUNT
  }

  /** All queues of an array, one after the other: the order in which they are read. */
  function Flatten(qs: seq<seq<Tid>>): seq<Tid> {
    if qs == [] then [] else qs[0] + Flatten(qs[1..])
  }

  predicate NoDup(s: seq<Tid>) {
    forall i, j :: 0 <= i < j < |s| ==> s[i] != s[j]
  }

  /** Every thread is in at most one place and the queues before the read position are
      empty. */
  predicate Inv(s: State) {
    && Shape(s)
    && NoDup(Flatten(s.master) + Flatten(s.slave))
    && (forall t :: t in s.running ==> t !in Flatten(s.master) + Flatten(s.slave))
    && forall p :: 0 <= p < s.next ==> s.master[p] == []
  }

  function RemoveFrom(q: seq<Tid>, t: Tid): seq<Tid> {
    if q == [] then [] else if q[0] == t then RemoveFrom(q[1..], t) else [q[0]] + RemoveFrom(q[1..], t)
  }

  function RemoveAll(qs: seq<seq<Tid>>, t: Tid): (r: seq<seq<Tid>>)
    ensures |r| == |qs|
  {
    seq(|qs|, p requires 0 <= p < |qs| => RemoveFrom(qs[p], t))
  }

  predicate Present(s: State, t: Tid) {
    t in s.running || t in Flatten(s.master) || t in Flatten(s.slave)
  }

  predicate Enabled(s: State, e: Event)
    requires Shape(s)
  {
    match e
    case Enqueue(t, p) => p < TOTAL_PRIOS_COUNT && !Present(s, t)
    case Requeue(t, p) => p < TOTAL_PRIOS_COUNT && t in s.running
    case Dequeue(t) => Present(s, t)
    case Advance => s.master[s.next] == [] && s.next + 1 < TOTAL_PRIOS_COUNT
    case Swap => s.master[s.next] == [] && s.next + 1 == TOTAL_PRIOS_COUNT
    case Take => s.master[s.next] != []
  }

  function Apply(s: State, e: Event): (r: State)
    requires Shape(s) && Enabled(s, e)
    ensures Shape(r)
  {
    match e
    case Enqueue(t, p) => s.(slave := s.slave[p := [t] + s.slave[p]])
    case Requeue(t, p) => s.(slave := s.slave[p := s.slave[p] + [t]], running := s.running - {t})
    case Dequeue(t) =>
      s.(master := RemoveAll(s.master, t), slave := RemoveAll(s.slave, t), running := s.running - {t})
    case Advance => s.(next := s.next + 1)
    case Swap => s.(master := s.slave, slave := s.master, next := 0)
    case Take =>
      s.(master := s.master[s.next := s.master[s.next][1..]], running := s.running + {s.master[s.next][0]})
  }

  //////////////////////////////////////////////////////////////////////////////
  // Sequence facts
  //////////////////////////////////////////////////////////////////////////////

  lemma {:induction false} FlattenUpdate(qs: seq<seq<Tid>>, p: nat, q: seq<Tid>)
    requires p < |qs|
    ensures Flatten(qs[p := q]) == Flatten(qs[..p]) + q + Flatten(qs[p + 1..])
  {
    FlattenSplit(qs[p := q], p);
    assert qs[p := q][..p] == qs[..p] && qs[p := q][p + 1..] == qs[p + 1..];
  }

  lemma {:induction false} FlattenSplit(qs: seq<seq<Tid>>, p: nat)
    requires p < |qs|
    ensures Flatten(qs) == Flatten(qs[..p]) + qs[p] + Flatten(qs[p + 1..])
  {
    if p == 0 {
      assert qs[..0] == [];
    } else {
      FlattenSplit(qs[1..], p - 1);
      assert qs[1..][..p - 1] == qs[..p][1..] && qs[1..][p..] == qs[p + 1..];
      assert qs[..p][0] == qs[0];
      Assoc(qs[0], Flatten(qs[..p][1..]), qs[p], Flatten(qs[p + 1..]));
    }
  }

  lemma Assoc<T>(a: seq<T>, b: seq<T>, c: seq<T>, d: seq<T>)
    ensures a + (b + c + d) == (a + b) + c + d
  {
  }

  lemma {:induction false} FlattenEmpty(qs: seq<seq<Tid>>)
    requires forall p :: 0 <= p < |qs| ==> qs[p] == []
    ensures Flatten(qs) == []
  {
    if qs != [] {
      FlattenEmpty(qs[1..]);
    }
  }

  lemma {:induction false} RemoveConcat(a: seq<Tid>, b: seq<Tid>, t: Tid)
    ensures RemoveFrom(a + b, t) == RemoveFrom(a, t) + RemoveFrom(b, t)
  {
    hide RemoveFrom;
    if a == [] {
      RemoveNone(t);
      assert a + b == b;
    } else {
      RemoveConcat(a[1..], b, t);
      var c, ra, rb := a + b, RemoveFrom(a[1..], t), RemoveFrom(b, t);
      assert c[1..] == a[1..] + b && c[0] == a[0];
      RemoveHead(c, t);
      RemoveHead(a, t);
      assert [a[0]] + (ra + rb) == ([a[0]] + ra) + rb;
    }
  }

  lemma RemoveNone(t: Tid)
    ensures RemoveFrom([], t) == []
  {
  }

  lemma RemoveHead(q: seq<Tid>, t: Tid)
    requires q != []
    ensures RemoveFrom(q, t) == if q[0] == t then RemoveFrom(q[1..], t) else [q[0]] + RemoveFrom(q[1..], t)
  {
  }

  lemma {:induction false} FlattenRemove(qs: seq<seq<Tid>>, t: Tid)
    ensures Flatten(RemoveAll(qs, t)) == RemoveFrom(Flatten(qs), t)
  {
    if qs != [] {
      FlattenRemove(qs[1..], t);
      RemoveConcat(qs[0], Flatten(qs[1..]), t);
      assert RemoveAll(qs, t)[1..] == RemoveAll(qs[1..], t);
    }
  }

  lemma {:induction false} RemoveFacts(q: seq<Tid>, t: Tid)
    ensures forall x :: x in RemoveFrom(q, t) <==> x in q && x != t
    ensures NoDup(q) ==> NoDup(RemoveFrom(q, t))
    ensures t !in q ==> RemoveFrom(q, t) == q
  {
    if q != [] {
      RemoveFacts(q[1..], t);
      assert q == [q[0]] + q[1..];
      if NoDup(q) {
        assert forall i :: 0 <= i < |q[1..]| ==> q[1..][i] == q[i + 1];
        assert q[0] !in q[1..];
        NoDupCons(q[0], RemoveFrom(q[1..], t));
      }
    }
  }

  lemma NoDupCons(x: Tid, q: seq<Tid>)
    requires NoDup(q) && x !in q
    ensures NoDup([x] + q)
  {
  }

  lemma NoDupPermute(a: seq<Tid>, b: seq<Tid>)
    requires NoDup(a + b)
    ensures NoDup(b + a)
  {
    forall i, j | 0 <= i < j < |b + a|
      ensures (b + a)[i] != (b + a)[j]
    {
      var i' := if i < |b| then |a| + i else i - |b|;
      var j' := if j < |b| then |a| + j else j - |b|;
      assert (a + b)[i'] == (b + a)[i] && (a + b)[j'] == (b + a)[j];
    }
  }

  /** Putting a new element between two parts keeps them free of duplicates. */
  lemma NoDupInsert(a: seq<Tid>, t: Tid, b: seq<Tid>)
    requires NoDup(a + b) && t !in a + b
    ensures NoDup(a + [t] + b)
  {
    var r, s := a + [t] + b, a + b;
    forall i, j | 0 <= i < j < |r|
      ensures r[i] != r[j]
    {
      var i' := if i <= |a| then i else i - 1;
      var j' := if j <= |a| then j else j - 1;
      assert i != |a| ==> r[i] == s[i'];
      assert j != |a| ==> r[j] == s[j'];
    }
  }

  //////////////////////////////////////////////////////////////////////////////
  // The invariant over every run
  //////////////////////////////////////////////////////////////////////////////

  lemma StepKeepsInv(s: State, e: Event)
    requires Inv(s) && Enabled(s, e)
    ensures Inv(Apply(s, e))
  {
    hide Flatten, NoDup;
    match e
    case Enqueue(t, p) =>
      SlaveInsert(s, p, t, [], s.slave[p]);
      assert [] + [t] + s.slave[p] == [t] + s.slave[p] && s.running - {t} == s.running;
    case Requeue(t, p) =>
      SlaveInsert(s, p, t, s.slave[p], []);
      assert s.slave[p] + [t] + [] == s.slave[p] + [t];
    case Dequeue(t) => DequeueKeepsInv(s, t);
    case Advance =>
    case Swap => SwapKeepsInv(s);
    case Take => TakeKeepsInv(s);
  }

  /** A thread that is in no queue enters a slave queue q = a + b between a and b. */
  lemma SlaveInsert(s: State, p: nat, t: Tid, a: seq<Tid>, b: seq<Tid>)
    requires Inv(s) && p < TOTAL_PRIOS_COUNT && a + b == s.slave[p]
    requires t !in Flatten(s.master) && t !in Flatten(s.slave)
    ensures Inv(s.(slave := s.slave[p := a + [t] + b], running := s.running - {t}))
  {
    hide Flatten;
    var fm, fs := Flatten(s.master), Flatten(s.slave);
    var x, y := Flatten(s.slave[..p]), Flatten(s.slave[p + 1..]);
    FlattenSplit(s.slave, p);
    FlattenUpdate(s.slave, p, a + [t] + b);
    assert fm + fs == (fm + x + a) + (b + y);
    NoDupInsert(fm + x + a, t, b + y);
    assert fm + (x + (a + [t] + b) + y) == (fm + x + a) + [t] + (b + y);
  }

  lemma DequeueKeepsInv(s: State, t: Tid)
    requires Inv(s) && Enabled(s, Dequeue(t))
    ensures Inv(Apply(s, Dequeue(t)))
  {
    hide Flatten, NoDup;
    var fm, fs := Flatten(s.master), Flatten(s.slave);
    FlattenRemove(s.master, t);
    FlattenRemove(s.slave, t);
    RemoveConcat(fm, fs, t);
    RemoveFacts(fm + fs, t);
  }

  lemma SwapKeepsInv(s: State)
    requires Inv(s) && Enabled(s, Swap)
    ensures Inv(Apply(s, Swap))
  {
    hide Flatten;
    NoDupPermute(Flatten(s.master), Flatten(s.slave));
  }

  lemma TakeKeepsInv(s: State)
    requires Inv(s) && Enabled(s, Take)
    ensures Inv(Apply(s, Take))
  {
    hide Flatten, NoDup;
    TakeFlatten(s);
    var r := Apply(s, Take);
    var x, f1, fs := s.master[s.next][0], Flatten(r.master), Flatten(s.slave);
    assert ([x] + f1) + fs == [x] + (f1 + fs);
    NoDupTail(x, f1 + fs);
  }

  lemma NoDupTail(x: Tid, q: seq<Tid>)
    requires NoDup([x] + q)
    ensures NoDup(q) && x !in q
  {
    var all := [x] + q;
    assert forall i :: 0 <= i < |q| ==> q[i] == all[i + 1] && all[0] != all[i + 1];
  }

  /** The thread taken is the first one in reading order. */
  lemma TakeFlatten(s: State)
    requires Inv(s) && Enabled(s, Take)
    ensures Flatten(s.master) == [s.master[s.next][0]] + Flatten(Apply(s, Take).master)
  {
    FlattenSplit(s.master, s.next);
    FlattenUpdate(s.master, s.next, s.master[s.next][1..]);
    FlattenEmpty(s.master[..s.next]);
    assert s.master[s.next] == [s.master[s.next][0]] + s.master[s.next][1..];
  }

  /** A run: each event enabled where it happens. */
  predicate Runs(s: State, es: seq<Event>)
    requires Shape(s)
    decreases es
  {
    es == [] || (Enabled(s, es[0]) && Runs(Apply(s, es[0]), es[1..]))
  }

  function After(s: State, es: seq<Event>): (r: State)
    requires Shape(s) && Runs(s, es)
    ensures Shape(r)
    decreases es
  {
    if es == [] then s else After(Apply(s, es[0]), es[1..])
  }

  lemma {:induction false} RunKeepsInv(s: State, es: seq<Event>)
    requires Inv(s) && Runs(s, es)
    ensures Inv(After(s, es))
    decreases es
  {
    if es != [] {
      StepKeepsInv(s, es[0]);
      RunKeepsInv(Apply(s, es[0]), es[1..]);
    }
  }

  //////////////////////////////////////////////////////////////////////////////
  // Order of picks and bounded waiting
  //////////////////////////////////////////////////////////////////////////////

  /** The threads taken during a run, in order. */
  function Picks(s: State, es: seq<Event>): seq<Tid>
    requires Shape(s) && Runs(s, es)
    decreases es
  {
    if es == [] then []
    else (if es[0].Take? then [s.master[s.next][0]] else []) + Picks(Apply(s, es[0]), es[1..])
  }

  /** The threads dequeued while still waiting in the master array. */
  function Dropped(s: State, es: seq<Event>): set<Tid>
    requires Shape(s) && Runs(s, es)
    decreases es
  {
    if es == [] then {}
    else (if es[0].Dequeue? && es[0].t in Flatten(s.master) then {es[0].t} else {}) + Dropped(Apply(s, es[0]), es[1..])
  }

  function Without(q: seq<Tid>, d: set<Tid>): seq<Tid> {
    if q == [] then [] else (if q[0] in d then [] else [q[0]]) + Without(q[1..], d)
  }

  lemma {:induction false} WithoutSame(q: seq<Tid>, d: set<Tid>, d': set<Tid>)
    requires forall x :: x in q ==> (x in d <==> x in d')
    ensures Without(q, d) == Without(q, d')
  {
    if q != [] {
      WithoutSame(q[1..], d, d');
    }
  }

  lemma {:induction false} WithoutRemoved(q: seq<Tid>, t: Tid, d: set<Tid>)
    requires t in d
    ensures Without(RemoveFrom(q, t), d) == Without(q, d)
  {
    if q != [] {
      WithoutRemoved(q[1..], t, d);
      if q[0] != t {
        assert RemoveFrom(q, t)[1..] == RemoveFrom(q[1..], t);
      }
    }
  }

  lemma {:induction false} WithoutMember(q: seq<Tid>, d: set<Tid>, x: Tid)
    ensures x in Without(q, d) <==> x in q && x !in d
  {
    if q != [] {
      WithoutMember(q[1..], d, x);
    }
  }

  lemma {:induction false} WithoutNoDup(q: seq<Tid>, d: set<Tid>)
    requires NoDup(q)
    ensures NoDup(Without(q, d))
  {
    if q != [] {
      var rest := q[1..];
      assert [q[0]] + rest == q;
      NoDupTail(q[0], rest);
      WithoutNoDup(rest, d);
      WithoutMember(rest, d, q[0]);
      if q[0] !in d {
        NoDupCons(q[0], Without(rest, d));
      }
    }
  }

  /** Threads dropped during a swap-free run were in the master when it began. */
  lemma {:induction false} DroppedFromMaster(s: State, es: seq<Event>)
    requires Inv(s) && Runs(s, es) && Swap !in es
    ensures forall t :: t in Dropped(s, es) ==> t in Flatten(s.master)
    decreases es
  {
    if es != [] {
      StepKeepsInv(s, es[0]);
      DroppedFromMaster(Apply(s, es[0]), es[1..]);
      if es[0].Take? {
        TakeFlatten(s);
      }
      if es[0].Dequeue? {
        FlattenRemove(s.master, es[0].t);
        RemoveFacts(Flatten(s.master), es[0].t);
      }
    }
  }

  /** Between swaps: what was picked so far, then what still waits, is the master array of
      the beginning in reading order (by priority, then list order), each thread once,
      minus those dequeued while waiting. */
  lemma {:induction false} PickOrder(s: State, es: seq<Event>)
    requires Inv(s) && Runs(s, es) && Swap !in es
    ensures Picks(s, es) + Flatten(After(s, es).master) == Without(Flatten(s.master), Dropped(s, es))
    decreases es
  {
    var fm := Flatten(s.master);
    if es == [] {
      WithoutNothing(fm);
    } else {
      var e, s1, rest := es[0], Apply(s, es[0]), es[1..];
      StepKeepsInv(s, e);
      PickOrder(s1, rest);
      DroppedFromMaster(s1, rest);
      var d, d1 := Dropped(s, es), Dropped(s1, rest);
      var fa := Flatten(After(s1, rest).master);
      assert Picks(s, es) == (if e.Take? then [s.master[s.next][0]] else []) + Picks(s1, rest);
      assert d == (if e.Dequeue? && e.t in Flatten(s.master) then {e.t} else {}) + d1;
      assert After(s, es) == After(s1, rest);
      hide Picks, Dropped, After, Flatten, Without, NoDup;
      if e.Take? {
        PickOrderTake(s, d1);
        assert d == d1;
        assert ([s.master[s.next][0]] + Picks(s1, rest)) + fa == [s.master[s.next][0]] + (Picks(s1, rest) + fa);
      } else if e.Dequeue? {
        PickOrderDequeue(s, e.t, d1);
        assert [] + Picks(s1, rest) == Picks(s1, rest);
      } else {
        assert d == d1;
        assert [] + Picks(s1, rest) == Picks(s1, rest);
      }
    }
  }

  lemma PickOrderTake(s: State, d: set<Tid>)
    requires Inv(s) && Enabled(s, Take)
    requires forall t :: t in d ==> t in Flatten(Apply(s, Take).master)
    ensures Without(Flatten(s.master), d) == [s.master[s.next][0]] + Without(Flatten(Apply(s, Take).master), d)
  {
    hide Flatten, NoDup;
    TakeFlatten(s);
    var x, f1, fs := s.master[s.next][0], Flatten(Apply(s, Take).master), Flatten(s.slave);
    assert ([x] + f1) + fs == [x] + (f1 + fs);
    NoDupTail(x, f1 + fs);
    assert ([x] + f1)[1..] == f1;
  }

  lemma PickOrderDequeue(s: State, t: Tid, d: set<Tid>)
    requires Inv(s) && Enabled(s, Dequeue(t))
    requires forall x :: x in d ==> x in Flatten(Apply(s, Dequeue(t)).master)
    ensures Without(Flatten(Apply(s, Dequeue(t)).master), d)
         == Without(Flatten(s.master), (if t in Flatten(s.master) then {t} else {}) + d)
  {
    hide Flatten, NoDup, RemoveFrom, Without;
    var fm := Flatten(s.master);
    FlattenRemove(s.master, t);
    RemoveFacts(fm, t);
    if t in fm {
      WithoutRemoved(fm, t, {t} + d);
      WithoutSame(RemoveFrom(fm, t), {t} + d, d);
    } else {
      assert {} + d == d;
    }
  }

  lemma {:induction false} WithoutNothing(q: seq<Tid>)
    ensures Without(q, {}) == q
  {
    if q != [] {
      WithoutNothing(q[1..]);
    }
  }

  /** A whole round: from one swap to the next the picks are exactly the threads the first
      swap moved to the master array, in reading order and each once, minus those
      dequeued. */
  lemma RoundPicks(s: State, es: seq<Event>)
    requires Inv(s) && Enabled(s, Swap)
    requires Runs(Apply(s, Swap), es) && Swap !in es && Enabled(After(Apply(s, Swap), es), Swap)
    ensures Picks(Apply(s, Swap), es) == Without(Flatten(s.slave), Dropped(Apply(s, Swap), es))
    ensures NoDup(Picks(Apply(s, Swap), es))
  {
    var s1 := Apply(s, Swap);
    StepKeepsInv(s, Swap);
    PickOrder(s1, es);
    RunKeepsInv(s1, es);
    DrainedAtSwap(After(s1, es));
    NoDupPart(Flatten(s.master), Flatten(s.slave));
    WithoutNoDup(Flatten(s.slave), Dropped(s1, es));
  }

  lemma NoDupPart(a: seq<Tid>, b: seq<Tid>)
    requires NoDup(a + b)
    ensures NoDup(b)
  {
    assert forall i :: 0 <= i < |b| ==> b[i] == (a + b)[|a| + i];
  }

  /** A swap only happens with an empty master array. */
  lemma DrainedAtSwap(s: State)
    requires Inv(s) && Enabled(s, Swap)
    ensures Flatten(s.master) == []
  {
    FlattenEmpty(s.master);
  }

  /** Some thread leaves a slave queue only by being dequeued. */
  lemma {:induction false} SlaveStays(s: State, es: seq<Event>, t: Tid)
    requires Inv(s) && Runs(s, es) && Swap !in es && t in Flatten(s.slave) && Dequeue(t) !in es
    ensures t in Flatten(After(s, es).slave)
    decreases es
  {
    if es != [] {
      var e := es[0];
      StepKeepsInv(s, e);
      match e {
        case Enqueue(u, p) => FlattenSplit(s.slave, p); FlattenUpdate(s.slave, p, [u] + s.slave[p]);
        case Requeue(u, p) => FlattenSplit(s.slave, p); FlattenUpdate(s.slave, p, s.slave[p] + [u]);
        case Dequeue(u) => FlattenRemove(s.slave, u); RemoveFacts(Flatten(s.slave), u);
        case Advance =>
        case Swap =>
        case Take =>
      }
      SlaveStays(Apply(s, e), es[1..], t);
    }
  }

  /** No queued thread waits past the second following swap: a thread in either array is
      taken or dequeued before that. */
  lemma BoundedWaiting(s: State, es1: seq<Event>, es2: seq<Event>, t: Tid)
    requires Inv(s) && Runs(s, es1) && Swap !in es1 && Enabled(After(s, es1), Swap)
    requires var s1 := Apply(After(s, es1), Swap);
             Runs(s1, es2) && Swap !in es2 && Enabled(After(s1, es2), Swap)
    requires t in Flatten(s.master) || t in Flatten(s.slave)
    requires Dequeue(t) !in es1 && Dequeue(t) !in es2
    ensures t in Picks(s, es1) || t in Picks(Apply(After(s, es1), Swap), es2)
  {
    var m := After(s, es1);
    var s1 := Apply(m, Swap);
    RunKeepsInv(s, es1);
    if t in Flatten(s.master) {
      PickOrder(s, es1);
      DrainedAtSwap(m);
      NotDropped(s, es1, t);
      WithoutMember(Flatten(s.master), Dropped(s, es1), t);
    } else {
      SlaveStays(s, es1, t);
      RoundPicks(m, es2);
      NotDropped(s1, es2, t);
      WithoutMember(Flatten(m.slave), Dropped(s1, es2), t);
    }
  }

  lemma {:induction false} NotDropped(s: State, es: seq<Event>, t: Tid)
    requires Shape(s) && Runs(s, es) && Dequeue(t) !in es
    ensures t !in Dropped(s, es)
    decreases es
  {
    if es != [] {
      NotDropped(Apply(s, es[0]), es[1..], t);
    }
  }

  //////////////////////////////////////////////////////////////////////////////
  // The task counter
  //////////////////////////////////////////////////////////////////////////////

  /** How many threads are enqueued: waiting in either array or running. */
  function Tasks(s: State): nat {
    |Flatten(s.master)| + |Flatten(s.slave)| + |s.running|
  }

  lemma {:induction false} RemoveLength(q: seq<Tid>, t: Tid)
    requires NoDup(q)
    ensures |RemoveFrom(q, t)| == if t in q then |q| - 1 else |q|
  {
    if t !in q {
      RemoveFacts(q, t);
    } else if q[0] == t {
      assert [t] + q[1..] == q;
      NoDupTail(t, q[1..]);
      RemoveFacts(q[1..], t);
    } else {
      assert [q[0]] + q[1..] == q;
      NoDupTail(q[0], q[1..]);
      RemoveLength(q[1..], t);
    }
  }

  /** Only a fresh enqueue and a dequeue change the number of enqueued threads. */
  lemma TasksStep(s: State, e: Event)
    requires Inv(s) && Enabled(s, e)
    ensures Tasks(Apply(s, e)) == Tasks(s) + (if e.Enqueue? then 1 else if e.Dequeue? then -1 else 0)
  {
    hide Flatten, NoDup;
    match e
    case Enqueue(t, p) =>
      FlattenSplit(s.slave, p);
      FlattenUpdate(s.slave, p, [t] + s.slave[p]);
    case Requeue(t, p) =>
      FlattenSplit(s.slave, p);
      FlattenUpdate(s.slave, p, s.slave[p] + [t]);
    case Dequeue(t) =>
      TasksDequeue(s, t);
    case Advance =>
    case Swap =>
    case Take =>
      TakeFlatten(s);
      TakeFresh(s);
  }

  lemma TakeFresh(s: State)
    requires Inv(s) && Enabled(s, Take)
    ensures s.master[s.next][0] !in s.running
  {
    InFlatten(s.master, s.next, 0);
  }

  lemma TasksDequeue(s: State, t: Tid)
    requires Inv(s) && Enabled(s, Dequeue(t))
    ensures Tasks(Apply(s, Dequeue(t))) == Tasks(s) - 1
  {
    hide Flatten, NoDup;
    var fm, fs := Flatten(s.master), Flatten(s.slave);
    FlattenRemove(s.master, t);
    FlattenRemove(s.slave, t);
    RemoveConcat(fm, fs, t);
    RemoveLength(fm + fs, t);
    assert t in fm + fs ==> s.running - {t} == s.running;
  }

  lemma InFlatten(qs: seq<seq<Tid>>, p: nat, i: nat)
    requires p < |qs| && i < |qs[p]|
    ensures qs[p][i] in Flatten(qs)
  {
    FlattenSplit(qs, p);
  }

  lemma {:induction false} FromFlatten(qs: seq<seq<Tid>>, t: Tid) returns (p: nat)
    requires t in Flatten(qs)
    ensures p < |qs| && t in qs[p]
  {
    if t in qs[0] {
      p := 0;
    } else {
      p := FromFlatten(qs[1..], t);
      p := p + 1;
    }
  }

  /** The two queues of one priority hold different threads. */
  lemma QueuesNoDup(s: State, p: nat)
    requires Inv(s) && p < TOTAL_PRIOS_COUNT
    ensures NoDup(s.master[p] + s.slave[p])
  {
    hide Flatten;
    var a, b := Flatten(s.master[..p]), Flatten(s.master[p + 1..]);
    var c, d := Flatten(s.slave[..p]), Flatten(s.slave[p + 1..]);
    FlattenSplit(s.master, p);
    FlattenSplit(s.slave, p);
    var m, q := s.master[p], s.slave[p];
    var all := Flatten(s.master) + Flatten(s.slave);
    assert all == (a + m + b) + (c + q + d);
    NoDupParts(a, m, b + c, q, d, all);
  }

  lemma NoDupParts(a: seq<Tid>, m: seq<Tid>, b: seq<Tid>, q: seq<Tid>, d: seq<Tid>, all: seq<Tid>)
    requires all == a + m + b + q + d && NoDup(all)
    ensures NoDup(m + q)
  {
    forall i, j | 0 <= i < j < |m + q|
      ensures (m + q)[i] != (m + q)[j]
    {
      var i' := |a| + if i < |m| then i else i + |b|;
      var j' := |a| + if j < |m| then j else j + |b|;
      assert all[i'] == (m + q)[i] && all[j'] == (m + q)[j];
    }
  }

  //////////////////////////////////////////////////////////////////////////////
  // Runs grow at the end
  //////////////////////////////////////////////////////////////////////////////

  lemma {:induction false} RunSnoc(s: State, es: seq<Event>, e: Event)
    requires Shape(s) && Runs(s, es) && Enabled(After(s, es), e)
    ensures Runs(s, es + [e]) && After(s, es + [e]) == Apply(After(s, es), e)
    decreases es
  {
    if es == [] {
      assert [] + [e] == [e] && [e][1..] == [];
    } else {
      RunSnoc(Apply(s, es[0]), es[1..], e);
      assert (es + [e])[1..] == es[1..] + [e] && (es + [e])[0] == es[0];
    }
  }

  lemma {:induction false} RunThen(s: State, a: seq<Event>, b: seq<Event>)
    requires Shape(s) && Runs(s, a) && Runs(After(s, a), b)
    ensures Runs(s, a + b) && After(s, a + b) == After(After(s, a), b)
    decreases a
  {
    if a == [] {
      assert a + b == b;
    } else {
      RunThen(Apply(s, a[0]), a[1..], b);
      assert (a + b)[1..] == a[1..] + b && (a + b)[0] == a[0];
    }
  }

  /** Enqueuing one thread makes no other one present. */
  lemma EnqueueSlave(s: State, t: Tid, p: nat, u: Tid)
    requires Shape(s) && p < TOTAL_PRIOS_COUNT && !Present(s, t)
    ensures u in Flatten(Apply(s, Enqueue(t, p)).slave) <==> u == t || u in Flatten(s.slave)
  {
    hide Flatten;
    FlattenSplit(s.slave, p);
    FlattenUpdate(s.slave, p, [t] + s.slave[p]);
  }

  lemma EnqueuePresent(s: State, t: Tid, p: nat, u: Tid)
    requires Shape(s) && p < TOTAL_PRIOS_COUNT && !Present(s, t) && u != t
    ensures Present(Apply(s, Enqueue(t, p)), u) <==> Present(s, u)
    ensures Flatten(Apply(s, Enqueue(t, p)).slave) != []
  {
    hide Flatten;
    FlattenSplit(s.slave, p);
    FlattenUpdate(s.slave, p, [t] + s.slave[p]);
  }
}
