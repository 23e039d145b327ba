/** The reader/writer spinlock as a system of interleaved atomic steps, for any number of
    threads. The reader count is read and written in separate steps, as compiled code does;
    only the exchange and the store on the inner lock word are atomic operations. */
module RwLock {

  type Tid = nat

  /** Where a thread is. A letter names the operation: R for rwlock_r_acquire, Q for
      rwlock_r_release, W for rwlock_w_acquire and rwlock_w_release, T for a thread that
      takes the inner lock by spinlock_try_acquire. */
  datatype Pc =
    | Idle
    | RSpin | RLoad | RStore(tmp: int) | RAssert | RUnlock
    | Reading
    | QSpin | QCheck | QLoad | QStore(tmp: int) | QAssert | QUnlock
    | WSpin | WCheck | WBackAssert | WBackUnlock
    | Writing
    | WAssert | WUnlock
    | TTry | TInside | TAssert | TUnlock
    | Failed   // an ASSERT did not hold

  datatype State = State(status: int, readers: int, pcs: map<Tid, Pc>)

  /** What an idle thread does next. */
  datatype Choice = ToRead | ToWrite | ToTry

  /** The lock, and where the stepping thread is. */
  datatype View = View(status: int, readers: int, pc: Pc)

  /** One atomic step of a thread that is at v.pc. */
  function Local(v: View, c: Choice): View {
    match v.pc
    case Idle => v.(pc := if c.ToRead? then RSpin else if c.ToWrite? then WSpin else TTry)
    case RSpin => Exchange(v, RSpin, RLoad)
    case RLoad => v.(pc := RStore(v.readers))
    case RStore(tmp) => v.(readers := tmp + 1, pc := RAssert)
    case RAssert => Check(v, v.status == 1, RUnlock)
    case RUnlock => v.(status := 0, pc := Reading)
    case Reading => v.(pc := QSpin)
    case QSpin => Exchange(v, QSpin, QCheck)
    case QCheck => Check(v, v.readers >= 0, QLoad)
    case QLoad => v.(pc := QStore(v.readers))
    case QStore(tmp) => v.(readers := tmp - 1, pc := QAssert)
    case QAssert => Check(v, v.status == 1, QUnlock)
    case QUnlock => v.(status := 0, pc := Idle)
    case WSpin => Exchange(v, WSpin, WCheck)
    case WCheck => v.(pc := if v.readers == 0 then Writing else WBackAssert)
    case WBackAssert => Check(v, v.status == 1, WBackUnlock)
    case WBackUnlock => v.(status := 0, pc := WSpin)
    case Writing => v.(pc := WAssert)
    case WAssert => Check(v, v.status == 1, WUnlock)
    case WUnlock => v.(status := 0, pc := Idle)
    case TTry => Exchange(v, Idle, TInside)
    case TInside => v.(pc := TAssert)
    case TAssert => Check(v, v.status == 1, TUnlock)
    case TUnlock => v.(status := 0, pc := Idle)
    case Failed => v
  }

  /** __atomic_exchange_n(&status, 1): on to `got` if the lock was free, else to `missed`. */
  function Exchange(v: View, missed: Pc, got: Pc): View {
    View(1, v.readers, if v.status == 1 then missed else got)
  }

  function Check(v: View, ok: bool, next: Pc): View {
    v.(pc := if ok then next else Failed)
  }

  function ViewOf(s: State, t: Tid): View
    requires t in s.pcs
  {
    View(s.status, s.readers, s.pcs[t])
  }

  /** Thread t takes one step. */
  function Step(s: State, t: Tid, c: Choice): (r: State)
    requires t in s.pcs
    ensures r.pcs.Keys == s.pcs.Keys
  {
    var v := Local(ViewOf(s, t), c);
    State(v.status, v.readers, s.pcs[t := v.pc])
  }

  /** The thread owns the inner lock. */
  predicate Inside(pc: Pc) {
    match pc
    case RLoad | RStore(_) | RAssert | RUnlock => true
    case QCheck | QLoad | QStore(_) | QAssert | QUnlock => true
    case WCheck | WBackAssert | WBackUnlock | Writing | WAssert | WUnlock => true
    case TInside | TAssert | TUnlock => true
    case _ => false
  }

  /** The reader count includes the thread. */
  predicate Counted(pc: Pc) {
    pc.RAssert? || pc.RUnlock? || pc.Reading? || pc.QSpin? || pc.QCheck? || pc.QLoad? || pc.QStore?
  }

  /** Between the return of rwlock_r_acquire and the unlocking of rwlock_r_release's lock. */
  predicate HoldsRead(pc: Pc) {
    pc.Reading? || pc.QSpin?
  }

  predicate HoldsWrite(pc: Pc) {
    pc.Writing? || pc.WAssert? || pc.WUnlock?
  }

  function CountedSet(pcs: map<Tid, Pc>): set<Tid> {
    set t | t in pcs && Counted(pcs[t])
  }

  function ReaderSet(pcs: map<Tid, Pc>): set<Tid> {
    set t | t in pcs && HoldsRead(pcs[t])
  }

  /** What each thread may rely on where it is. */
  predicate ThreadOk(v: View) {
    && (Inside(v.pc) ==> v.status == 1)
    && (v.pc.RStore? || v.pc.QStore? ==> v.pc.tmp == v.readers)
    && (HoldsWrite(v.pc) ==> v.readers == 0)
    && !v.pc.Failed?
  }

  function Weight(pc: Pc): nat {
    if Counted(pc) then 1 else 0
  }

  /** What a step does to the thread that takes it. */
  lemma OwnStep(v: View, c: Choice)
    requires ThreadOk(v) && 0 <= v.status <= 1 && v.readers >= Weight(v.pc)
    ensures var w := Local(v, c);
      && ThreadOk(w) && 0 <= w.status <= 1
      && w.readers == v.readers + Weight(w.pc) - Weight(v.pc)
      && (w.status == 1 && !Inside(w.pc) ==> v.status == 1 && !Inside(v.pc))
  {
  }

  /** And to any other thread. */
  lemma OtherStep(v: View, c: Choice, q: Pc)
    requires ThreadOk(v) && 0 <= v.status <= 1 && Alone(v.pc, q) && ThreadOk(v.(pc := q))
    ensures var w := Local(v, c);
      Alone(w.pc, q) && ThreadOk(w.(pc := q))
  {
  }

  /** No two threads are inside, a thread inside has the lock word set, and the word is set
      only for a thread inside. */
  ghost predicate Inv(s: State) {
    && (s.status == 0 || s.status == 1)
    && s.readers == |CountedSet(s.pcs)|
    && (forall t :: t in s.pcs ==> ThreadOk(ViewOf(s, t)))
    && (forall t, u :: t in s.pcs && u in s.pcs && t != u ==> Alone(s.pcs[t], s.pcs[u]))
    && (s.status == 1 ==> exists t :: t in s.pcs && Inside(s.pcs[t]))
  }

  predicate Alone(p: Pc, q: Pc) {
    !(Inside(p) && Inside(q))
  }

  /** A zeroed lock, and threads that have not touched it. */
  predicate Initial(s: State) {
    s.status == 0 && s.readers == 0 && forall t :: t in s.pcs ==> s.pcs[t].Idle?
  }

  lemma InitialInv(s: State)
    requires Initial(s)
    ensures Inv(s)
  {
    assert CountedSet(s.pcs) == {};
  }

  lemma CountedStep(pcs: map<Tid, Pc>, t: Tid, pc: Pc)
    requires t in pcs
    ensures |CountedSet(pcs[t := pc])| == |CountedSet(pcs)| + Weight(pc) - Weight(pcs[t])
    ensures |CountedSet(pcs)| >= Weight(pcs[t])
  {
    hide Counted;
    var rest := CountedSet(pcs) - {t};
    assert CountedSet(pcs) == if Counted(pcs[t]) then rest + {t} else rest;
    assert CountedSet(pcs[t := pc]) == if Counted(pc) then rest + {t} else rest;
  }

  lemma StepKeepsInv(s: State, t: Tid, c: Choice)
    requires Inv(s) && t in s.pcs
    ensures Inv(Step(s, t, c))
  {
    hide Local, Inside, Counted, Alone, ThreadOk, CountedSet, Weight;
    var v := ViewOf(s, t);
    var w, r := Local(v, c), Step(s, t, c);
    CountedStep(s.pcs, t, w.pc);
    OwnStep(v, c);
    forall u | u in r.pcs && u != t
      ensures ThreadOk(ViewOf(r, u)) && Alone(r.pcs[t], r.pcs[u]) && Alone(r.pcs[u], r.pcs[t])
    {
      OtherStep(v, c, s.pcs[u]);
      AloneBoth(w.pc, s.pcs[u]);
      assert ViewOf(r, u) == w.(pc := s.pcs[u]) && ViewOf(s, u) == v.(pc := s.pcs[u]);
    }
    assert ViewOf(r, t) == w;
    if r.status == 1 {
      if Inside(w.pc) {
        assert t in r.pcs && Inside(r.pcs[t]);
      } else {
        var u :| u in s.pcs && Inside(s.pcs[u]);
        assert u in r.pcs && Inside(r.pcs[u]);
      }
    }
  }

  lemma AloneBoth(p: Pc, q: Pc)
    ensures Alone(p, q) <==> Alone(q, p)
  {
  }

  lemma CountedPositive(s: State, t: Tid)
    requires Inv(s) && t in s.pcs
    ensures s.readers >= Weight(s.pcs[t])
  {
    CountedStep(s.pcs, t, s.pcs[t]);
  }

  /** A schedule: which thread steps, and what it would start if it is idle. */
  type Schedule = seq<(Tid, Choice)>

  function After(s: State, run: Schedule): (r: State)
    requires forall i :: 0 <= i < |run| ==> run[i].0 in s.pcs
    ensures r.pcs.Keys == s.pcs.Keys
  {
    if run == [] then s
    else
      var last := |run| - 1;
      Step(After(s, run[..last]), run[last].0, run[last].1)
  }

  lemma {:induction false} RunKeepsInv(s: State, run: Schedule)
    requires Initial(s) && forall i :: 0 <= i < |run| ==> run[i].0 in s.pcs
    ensures Inv(After(s, run))
  {
    if run == [] {
      InitialInv(s);
    } else {
      var last := |run| - 1;
      RunKeepsInv(s, run[..last]);
      StepKeepsInv(After(s, run[..last]), run[last].0, run[last].1);
    }
  }

  /** In every run no ASSERT fails, a thread that writes excludes all other readers and
      writers, and while the inner lock is free `readers` counts the threads that hold read
      access. */
  lemma Safety(s: State, run: Schedule)
    requires Initial(s) && forall i :: 0 <= i < |run| ==> run[i].0 in s.pcs
    ensures var r := After(s, run);
      && (forall t :: t in r.pcs ==> !r.pcs[t].Failed?)
      && (forall t, u :: t in r.pcs && u in r.pcs && t != u && HoldsWrite(r.pcs[t]) ==> !HoldsWrite(r.pcs[u]) && !HoldsRead(r.pcs[u]))
      && (r.status == 0 ==> r.readers == |ReaderSet(r.pcs)|)
  {
    hide After, Inside, Counted, HoldsWrite, HoldsRead, Inv;
    var r := After(s, run);
    RunKeepsInv(s, run);
    forall t | t in r.pcs
      ensures !r.pcs[t].Failed?
    {
      NotFailed(r, t);
    }
    forall t, u | t in r.pcs && u in r.pcs && t != u && HoldsWrite(r.pcs[t])
      ensures !HoldsWrite(r.pcs[u]) && !HoldsRead(r.pcs[u])
    {
      WriterAlone(r, t, u);
    }
    if r.status == 0 {
      FreeCount(r);
    }
  }

  lemma NotFailed(s: State, t: Tid)
    requires Inv(s) && t in s.pcs
    ensures !s.pcs[t].Failed?
  {
    assert ThreadOk(ViewOf(s, t));
  }

  lemma WriterAlone(s: State, t: Tid, u: Tid)
    requires Inv(s) && t in s.pcs && u in s.pcs && t != u && HoldsWrite(s.pcs[t])
    ensures !HoldsWrite(s.pcs[u]) && !HoldsRead(s.pcs[u])
  {
    assert Alone(s.pcs[t], s.pcs[u]) && ThreadOk(ViewOf(s, t));
    CountedPositive(s, u);
  }

  /** While the inner lock is free, the threads counted are those that hold read access. */
  lemma FreeCount(s: State)
    requires Inv(s) && s.status == 0
    ensures s.readers == |ReaderSet(s.pcs)|
  {
    hide Inside, Counted, HoldsRead;
    forall t | t in s.pcs
      ensures Counted(s.pcs[t]) == HoldsRead(s.pcs[t])
    {
      assert ThreadOk(ViewOf(s, t));
      CountedOutside(s.pcs[t]);
    }
    assert CountedSet(s.pcs) == ReaderSet(s.pcs);
  }

  lemma CountedOutside(pc: Pc)
    ensures !Inside(pc) ==> Counted(pc) == HoldsRead(pc)
  {
  }

  /** The owner of the inner lock is never blocked: its next step leaves the place where it
      is, and meanwhile no other thread changes the lock word or the reader count. */
  lemma OwnerMoves(s: State, t: Tid, c: Choice)
    requires Inv(s) && t in s.pcs && Inside(s.pcs[t])
    ensures Step(s, t, c).pcs[t] != s.pcs[t]
    ensures forall u :: u in s.pcs && u != t ==> Step(s, u, c).status == 1 && Step(s, u, c).readers == s.readers
  {
    assert ThreadOk(ViewOf(s, t));
    forall u | u in s.pcs && u != t
      ensures Step(s, u, c).status == 1 && Step(s, u, c).readers == s.readers
    {
      assert Alone(s.pcs[t], s.pcs[u]);
      Outsider(ViewOf(s, u), c);
    }
  }

  lemma Outsider(v: View, c: Choice)
    requires v.status == 1 && !Inside(v.pc)
    ensures Local(v, c).status == 1 && Local(v, c).readers == v.readers
  {
  }

  /** Where a thread is while it acquires for reading, releases that, acquires for writing,
      releases that, or tries. */
  predicate Acquiring(pc: Pc) { pc.RSpin? || pc.RLoad? || pc.RStore? || pc.RAssert? || pc.RUnlock? }

  predicate Releasing(pc: Pc) {
    pc.QSpin? || pc.QCheck? || pc.QLoad? || pc.QStore? || pc.QAssert? || pc.QUnlock?
  }

  predicate Waiting(pc: Pc) { pc.WSpin? || pc.WCheck? || pc.WBackAssert? || pc.WBackUnlock? }

  predicate Leaving(pc: Pc) { pc.WAssert? || pc.WUnlock? }

  /** An acquiring thread goes on until it has what it wants, a releasing one until it is
      idle. */
  predicate GoesOn(pc: Pc, next: Pc, c: Choice) {
    && (Acquiring(pc) ==> Acquiring(next) || next == Reading)
    && (pc == Reading || Releasing(pc) ==> Releasing(next) || (pc == QUnlock && next == Idle))
    && (Waiting(pc) ==> Waiting(next) || next == Writing)
    && (pc == Writing || Leaving(pc) ==> Leaving(next) || (pc == WUnlock && next == Idle))
    && (pc == Idle ==> next == if c.ToRead? then RSpin else if c.ToWrite? then WSpin else TTry)
  }

  lemma LocalGoesOn(v: View, c: Choice)
    requires ThreadOk(v) && v.readers >= 0
    ensures GoesOn(v.pc, Local(v, c).pc, c)
  {
  }

  /** No operation is given up. */
  lemma NothingGivenUp(s: State, t: Tid, c: Choice)
    requires Inv(s) && t in s.pcs
    ensures GoesOn(s.pcs[t], Step(s, t, c).pcs[t], c)
  {
    hide Inside, GoesOn, Alone, CountedSet;
    LocalGoesOn(ViewOf(s, t), c);
  }

  /** Steps that the owner of the inner lock takes before it hands the lock back, at most. */
  function StepsInside(pc: Pc): nat {
    match pc
    case QCheck => 5
    case RLoad | QLoad | WCheck => 4
    case RStore(_) | QStore(_) | Writing | TInside => 3
    case RAssert | QAssert | WBackAssert | WAssert | TAssert => 2
    case RUnlock | QUnlock | WBackUnlock | WUnlock | TUnlock => 1
    case _ => 0
  }

  predicate Trying(pc: Pc) { pc.RSpin? || pc.QSpin? || pc.WSpin? || pc.TTry? }

  lemma LocalInnerLock(v: View, c: Choice)
    requires ThreadOk(v) && v.readers >= 0 && 0 <= v.status <= 1
    ensures var w := Local(v, c);
      && (Trying(v.pc) ==> (Inside(w.pc) <==> v.status == 0))
      && (Inside(v.pc) && Inside(w.pc) ==> StepsInside(w.pc) < StepsInside(v.pc))
      && (Inside(v.pc) && !Inside(w.pc) ==> w.status == 0)
      && (!Inside(v.pc) && Inside(w.pc) ==> Trying(v.pc))
  {
  }

  /** Whoever tries gets the inner lock with its next step exactly if it is free, nobody
      else gets it, and its owner hands it back after at most five steps. */
  lemma InnerLock(s: State, t: Tid, c: Choice)
    requires Inv(s) && t in s.pcs
    ensures var pc, s' := s.pcs[t], Step(s, t, c);
      && (Trying(pc) ==> (Inside(s'.pcs[t]) <==> s.status == 0))
      && (Inside(pc) && Inside(s'.pcs[t]) ==> StepsInside(s'.pcs[t]) < StepsInside(pc) <= 5)
      && (Inside(pc) && !Inside(s'.pcs[t]) ==> s'.status == 0)
      && (!Inside(pc) && Inside(s'.pcs[t]) ==> Trying(pc))
  {
    hide Inside, Trying, Alone, CountedSet;
    LocalInnerLock(ViewOf(s, t), c);
  }

  /** A waiting writer gets in by two steps of its own exactly when the lock is free and no
      thread holds read access. */
  lemma WriterEntersIff(s: State, t: Tid, c: Choice)
    requires Inv(s) && t in s.pcs && s.pcs[t] == WSpin
    ensures Step(Step(s, t, c), t, c).pcs[t] == Writing <==> s.status == 0 && ReaderSet(s.pcs) == {}
  {
    hide Inside, Counted, HoldsRead, Alone, ThreadOk, ReaderSet;
    var v := ViewOf(s, t);
    assert Local(v, c) == View(1, v.readers, if v.status == 1 then WSpin else WCheck);
    if s.status == 0 {
      FreeCount(s);
    }
  }
}
