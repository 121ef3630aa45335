/** The spinning reader-writer lock: one 32-bit word, changed only by atomic loads, stores and
    compare-and-exchange operations, which may fail spuriously. Threads take these steps in any
    order. The model keeps, next to the word, who holds the lock and how often the data behind it
    has been modified. `ndebug` tells a release build, whose calls make no assertions. */
module RwLock {
  import opened Basics

  const WFLAG := 0x8000_0000
  const RMASK := 0x7fff_ffff
  const WORD_MAX := 0xffff_ffff

  datatype Call = TryRead | TryWrite | TryUpgrade | Downgrade | EndRead | EndWrite | End

  /** Where a thread stands: outside the lock's code, or inside a call, before the load of its
      retry loop or between that load and the exchange. */
  datatype Pc = Idle | Busy(call: Call, temp: Option<int>)

  /** `readers` holds a thread once for each read lock it has. */
  datatype State = State(
    lock: int, pc: map<int, Pc>, readers: multiset<int>, writer: Option<int>, version: nat, panic: bool)

  datatype Step =
    | Start(t: int, call: Call)
    | Load(t: int)
    | Exchange(t: int, spurious: bool)
    | Atomic(t: int)
    | Modify(t: int)

  function PcOf(s: State, t: int): Pc {
    if t in s.pc then s.pc[t] else Idle
  }

  predicate Holds(s: State, t: int) {
    t in s.readers || s.writer == Some(t)
  }

  // ---- Steps --------------------------------------------------------------------------------

  /** Callers end and convert only locks that they hold, and modify the data only as writers. */
  predicate MayCall(s: State, t: int, call: Call) {
    match call
    case TryRead => true
    case TryWrite => true
    case TryUpgrade => t in s.readers
    case EndRead => t in s.readers
    case Downgrade => s.writer == Some(t)
    case EndWrite => s.writer == Some(t)
    case End => Holds(s, t)
  }

  /** In release builds these are a single store or decrement without a loop. */
  predicate IsAtomic(ndebug: bool, call: Call) {
    call.TryWrite? || (ndebug && (call.EndRead? || call.EndWrite? || call.Downgrade?))
  }

  predicate Legal(ndebug: bool, s: State, step: Step) {
    && !s.panic
    && var pc := PcOf(s, step.t);
       match step
       case Start(t, call) => pc.Idle? && MayCall(s, t, call)
       case Load(_) => pc.Busy? && pc.temp.None? && !IsAtomic(ndebug, pc.call)
       case Exchange(_, _) => pc.Busy? && pc.temp.Some?
       case Atomic(_) => pc.Busy? && pc.temp.None? && IsAtomic(ndebug, pc.call)
       case Modify(t) => pc.Idle? && s.writer == Some(t)
  }

  /** The assertions that a call makes about the word it has loaded. */
  predicate AssertsOk(call: Call, temp: int) {
    match call
    case TryRead => temp >= WFLAG || temp != RMASK
    case EndRead => temp < WFLAG && temp != 0
    case EndWrite => temp >= WFLAG
    case End => if temp >= WFLAG then temp == WFLAG else temp != 0
    case Downgrade => temp == WFLAG
    case TryUpgrade => true
    case TryWrite => true
  }

  /** The call gives up on the word it has loaded and returns false. */
  predicate GivesUp(call: Call, temp: int) {
    (call.TryRead? && temp >= WFLAG) || (call.TryUpgrade? && temp != 1)
  }

  /** One less, wrapping around below zero. */
  function Decremented(temp: int): int {
    if temp == 0 then WORD_MAX else temp - 1
  }

  /** What the exchange writes. */
  function NewWord(call: Call, temp: int): int {
    match call
    case TryRead => temp + 1
    case TryWrite => WFLAG
    case TryUpgrade => WFLAG
    case Downgrade => 1
    case EndRead => Decremented(temp)
    case EndWrite => 0
    case End => if temp >= WFLAG then 0 else Decremented(temp)
  }

  /** The holders once a call has gone through. */
  function Granted(s: State, t: int, call: Call, temp: int): State {
    var word := s.(lock := NewWord(call, temp));
    match call
    case TryRead => word.(readers := s.readers + multiset{t})
    case TryWrite => word.(writer := Some(t))
    case TryUpgrade => word.(readers := s.readers - multiset{t}, writer := Some(t))
    case Downgrade => word.(readers := s.readers + multiset{t}, writer := None)
    case EndRead => word.(readers := s.readers - multiset{t})
    case EndWrite => word.(writer := None)
    case End => if s.writer == Some(t) then word.(writer := None) else word.(readers := s.readers - multiset{t})
  }

  function SetPc(s: State, t: int, pc: Pc): State {
    s.(pc := s.pc[t := pc])
  }

  function Next(ndebug: bool, s: State, step: Step): State {
    var t := step.t;
    var pc := PcOf(s, t);
    match step
    case Start(_, call) => SetPc(s, t, Busy(call, None))
    case Load(_) =>
      if pc.Idle? then s
      else if !ndebug && !AssertsOk(pc.call, s.lock) then s.(panic := true)
      else if GivesUp(pc.call, s.lock) then SetPc(s, t, Idle)
      else SetPc(s, t, Busy(pc.call, Some(s.lock)))
    case Exchange(_, spurious) =>
      if pc.Idle? || pc.temp.None? then s
      else if s.lock == pc.temp.value && !spurious then SetPc(Granted(s, t, pc.call, pc.temp.value), t, Idle)
      else SetPc(s, t, Busy(pc.call, None))
    case Atomic(_) =>
      if pc.Idle? then s
      else if pc.call.TryWrite? && s.lock != 0 then SetPc(s, t, Idle)
      else SetPc(Granted(s, t, pc.call, s.lock), t, Idle)
    case Modify(_) => s.(version := s.version + 1)
  }

  // ---- The invariant ------------------------------------------------------------------------

  /** The word says exactly who holds the lock, and a writer excludes everybody else. */
  ghost predicate WordOk(s: State) {
    if s.writer.Some? then s.lock == WFLAG && s.readers == multiset{}
    else s.lock == |s.readers| && s.lock <= RMASK
  }

  /** What a call may have loaded: a word that passes its tests. A release build goes on with a
      full count as well. */
  predicate Passes(ndebug: bool, call: Call, temp: int) {
    !GivesUp(call, temp) && (AssertsOk(call, temp) || (ndebug && call.TryRead? && temp == RMASK))
  }

  /** A thread inside a call still holds what it is about to end or convert, and the word it has
      loaded is one that passed the tests. */
  ghost predicate ThreadOk(ndebug: bool, s: State, t: int) {
    var pc := PcOf(s, t);
    pc.Busy? ==>
      && MayCall(s, t, pc.call)
      && (pc.temp.Some? ==> Passes(ndebug, pc.call, pc.temp.value) && !pc.call.TryWrite?)
  }

  ghost predicate Inv(ndebug: bool, s: State) {
    WordOk(s) && forall t :: t in s.pc ==> ThreadOk(ndebug, s, t)
  }

  /** The conditions under which a call goes through. */
  ghost predicate Grants(s: State, t: int, call: Call, temp: int) {
    && MayCall(s, t, call) && temp == s.lock && !GivesUp(call, temp)
    && if call.TryWrite? then temp == 0 else AssertsOk(call, temp)
  }

  lemma GrantKeepsWord(s: State, t: int, call: Call, temp: int)
    requires WordOk(s) && Grants(s, t, call, temp)
    ensures WordOk(Granted(s, t, call, temp))
  {
  }

  /** Nobody else's lock is touched. */
  lemma GrantKeepsOthers(s: State, t: int, call: Call, temp: int, u: int)
    requires WordOk(s) && Grants(s, t, call, temp) && u != t
    ensures Granted(s, t, call, temp).readers[u] == s.readers[u]
    ensures Granted(s, t, call, temp).writer == Some(u) <==> s.writer == Some(u)
  {
  }

  lemma GrantKeepsThreads(ndebug: bool, s: State, t: int, call: Call, temp: int)
    requires Inv(ndebug, s) && Grants(s, t, call, temp)
    ensures Inv(ndebug, SetPc(Granted(s, t, call, temp), t, Idle))
  {
    GrantKeepsWord(s, t, call, temp);
    var s' := SetPc(Granted(s, t, call, temp), t, Idle);
    forall u | u in s'.pc ensures ThreadOk(ndebug, s', u) {
      if u != t {
        assert ThreadOk(ndebug, s, u);
        GrantKeepsOthers(s, t, call, temp, u);
      }
    }
  }

  lemma SetPcKeepsInv(ndebug: bool, s: State, t: int, pc: Pc)
    requires Inv(ndebug, s) && ThreadOk(ndebug, SetPc(s, t, pc), t)
    ensures Inv(ndebug, SetPc(s, t, pc))
  {
    var s' := SetPc(s, t, pc);
    forall u | u in s'.pc ensures ThreadOk(ndebug, s', u) {
      if u != t { assert ThreadOk(ndebug, s, u); }
    }
  }

  /** The step of a release build that takes one read lock more than the word can count */
  ghost predicate Overflows(ndebug: bool, s: State, step: Step) {
    && ndebug && step.Exchange? && !step.spurious && s.lock == RMASK
    && PcOf(s, step.t) == Busy(TryRead, Some(RMASK))
  }

  lemma OverflowCounts(s: State, step: Step)
    requires WordOk(s) && Overflows(true, s, step)
    ensures |Next(true, s, step).readers| == RMASK + 1 && !WordOk(Next(true, s, step))
  {
  }

  /** Every step keeps the invariant, unless it takes a read lock too many. */
  lemma NextKeepsInv(ndebug: bool, s: State, step: Step)
    requires Inv(ndebug, s) && Legal(ndebug, s, step)
    ensures Inv(ndebug, Next(ndebug, s, step)) <==> !Overflows(ndebug, s, step)
  {
    if Overflows(ndebug, s, step) {
      OverflowCounts(s, step);
    } else {
      NextKeepsInvUnlessFull(ndebug, s, step);
    }
  }

  lemma NextKeepsInvUnlessFull(ndebug: bool, s: State, step: Step)
    requires Inv(ndebug, s) && Legal(ndebug, s, step) && !Overflows(ndebug, s, step)
    ensures Inv(ndebug, Next(ndebug, s, step))
  {
    var t := step.t;
    var pc := PcOf(s, t);
    assert ThreadOk(ndebug, s, t);
    match step
    case Start(_, call) => SetPcKeepsInv(ndebug, s, t, Busy(call, None));
    case Load(_) =>
      LoadPasses(ndebug, s, t);
      if ndebug || AssertsOk(pc.call, s.lock) {
        SetPcKeepsInv(ndebug, s, t, if GivesUp(pc.call, s.lock) then Idle else Busy(pc.call, Some(s.lock)));
      } else {
        PanicKeepsInv(ndebug, s);
      }
    case Exchange(_, spurious) =>
      if s.lock == pc.temp.value && !spurious {
        GrantKeepsThreads(ndebug, s, t, pc.call, s.lock);
      } else {
        SetPcKeepsInv(ndebug, s, t, Busy(pc.call, None));
      }
    case Atomic(_) =>
      if pc.call.TryWrite? && s.lock != 0 {
        SetPcKeepsInv(ndebug, s, t, Idle);
      } else {
        GrantKeepsThreads(ndebug, s, t, pc.call, s.lock);
      }
    case Modify(_) =>
      forall u | u in s.pc ensures ThreadOk(ndebug, Next(ndebug, s, step), u) { assert ThreadOk(ndebug, s, u); }
  }

  /** What the loop of a call loads meets its assertions, but for a full count. */
  lemma LoadPasses(ndebug: bool, s: State, t: int)
    requires Inv(ndebug, s) && PcOf(s, t).Busy?
    ensures AssertsOk(PcOf(s, t).call, s.lock) <==> !(PcOf(s, t).call.TryRead? && |s.readers| == RMASK)
  {
    assert ThreadOk(ndebug, s, t);
    if t in s.readers { assert |s.readers| > 0; }
  }

  lemma PanicKeepsInv(ndebug: bool, s: State)
    requires Inv(ndebug, s)
    ensures Inv(ndebug, s.(panic := true))
  {
    forall u | u in s.pc ensures ThreadOk(ndebug, s.(panic := true), u) { assert ThreadOk(ndebug, s, u); }
  }

  // ---- What it means ------------------------------------------------------------------------

  /** The step goes through with the call that its thread is in. */
  predicate Completes(s: State, step: Step) {
    var pc := PcOf(s, step.t);
    && pc.Busy?
    && match step
       case Exchange(_, spurious) => !spurious && pc.temp == Some(s.lock)
       case Atomic(_) => pc.call.TryWrite? ==> s.lock == 0
       case _ => false
  }

  /** What a call has done to the lock once it is through. */
  ghost predicate Outcome(call: Call, t: int, s: State, s': State) {
    match call
    case TryRead =>
      && s.writer.None? && s'.writer.None?
      && s'.readers == s.readers + multiset{t} && s'.lock == s.lock + 1
    case TryWrite =>
      s.writer.None? && s.readers == multiset{} == s'.readers && s'.writer == Some(t) && s'.lock == 0x8000_0000
    case TryUpgrade =>
      && s.writer.None? && s.readers == multiset{t}
      && s'.writer == Some(t) && s'.readers == multiset{} && s'.lock == 0x8000_0000
    case Downgrade => s.writer == Some(t) && s'.writer.None? && s'.readers == multiset{t} && s'.lock == 1
    case EndRead => EndsReading(t, s, s')
    case EndWrite => EndsWriting(t, s, s')
    case End => if s.writer == Some(t) then EndsWriting(t, s, s') else EndsReading(t, s, s')
  }

  ghost predicate EndsReading(t: int, s: State, s': State) {
    && s.writer.None? && s'.writer.None? && t in s.readers
    && s'.readers + multiset{t} == s.readers && s'.lock == s.lock - 1
  }

  ghost predicate EndsWriting(t: int, s: State, s': State) {
    s.writer == Some(t) && s'.writer.None? && s'.readers == multiset{} && s'.lock == 0
  }

  /** Each of the seven calls takes, converts or gives back the one lock that it is for, in the step
      that completes it; no other step changes the word or the holders. */
  lemma StepsExactly(ndebug: bool, s: State, step: Step)
    requires Inv(ndebug, s) && Legal(ndebug, s, step) && !Overflows(ndebug, s, step)
    ensures
      var s', t := Next(ndebug, s, step), step.t;
      && s'.version == s.version + (if step.Modify? then 1 else 0)
      && (Completes(s, step) ==> Outcome(PcOf(s, t).call, t, s, s') && PcOf(s', t).Idle?)
      && (!Completes(s, step) ==> s'.lock == s.lock && s'.readers == s.readers && s'.writer == s.writer)
      && (step.Start? ==> PcOf(s', t) == Busy(step.call, None))
  {
    if Completes(s, step) {
      CompletionExactly(ndebug, s, step);
    } else {
      OtherStepsKeepTheLock(ndebug, s, step);
    }
  }

  lemma CompletionExactly(ndebug: bool, s: State, step: Step)
    requires Inv(ndebug, s) && Legal(ndebug, s, step) && !Overflows(ndebug, s, step) && Completes(s, step)
    ensures
      var s', t := Next(ndebug, s, step), step.t;
      Outcome(PcOf(s, t).call, t, s, s') && PcOf(s', t).Idle? && s'.version == s.version
  {
    var t, call := step.t, PcOf(s, step.t).call;
    assert ThreadOk(ndebug, s, t);
    assert Next(ndebug, s, step) == SetPc(Granted(s, t, call, s.lock), t, Idle);
    GrantOutcome(s, t, call);
  }

  lemma OtherStepsKeepTheLock(ndebug: bool, s: State, step: Step)
    requires Legal(ndebug, s, step) && !Completes(s, step)
    ensures
      var s' := Next(ndebug, s, step);
      && s'.lock == s.lock && s'.readers == s.readers && s'.writer == s.writer
      && s'.version == s.version + (if step.Modify? then 1 else 0)
      && (step.Start? ==> PcOf(s', step.t) == Busy(step.call, None))
  {
  }

  lemma GrantOutcome(s: State, t: int, call: Call)
    requires WordOk(s) && Grants(s, t, call, s.lock)
    ensures Outcome(call, t, s, Granted(s, t, call, s.lock))
  {
    if t in s.readers {
      assert s.readers == s.readers - multiset{t} + multiset{t} && |s.readers| > 0;
    }
    if call.TryUpgrade? { OnlyReader(s, t); }
  }

  lemma OnlyReader(s: State, t: int)
    requires t in s.readers && |s.readers| == 1
    ensures s.readers == multiset{t}
  {
    assert s.readers == multiset{t} + (s.readers - multiset{t});
    assert |s.readers - multiset{t}| == 0;
  }

  /** A thread that nobody disturbs leaves its call after one turn of the loop, with or without the
      lock, or fails an assertion. */
  lemma UndisturbedCallReturns(ndebug: bool, s: State, t: int)
    requires PcOf(s, t).Busy? && PcOf(s, t).temp.None? && !s.panic
    ensures
      var call := PcOf(s, t).call;
      if IsAtomic(ndebug, call) then Legal(ndebug, s, Atomic(t)) && PcOf(Next(ndebug, s, Atomic(t)), t).Idle?
      else
        var s1 := Next(ndebug, s, Load(t));
        && Legal(ndebug, s, Load(t))
        && (|| s1.panic || PcOf(s1, t).Idle?
            || (Completes(s1, Exchange(t, false)) && PcOf(Next(ndebug, s1, Exchange(t, false)), t).Idle?))
  {
  }

  /** What the assertions tell, whoever makes the call: that the lock is held in the way that the
      call is about to end or convert. */
  lemma AssertionsCatchMisuse(s: State, call: Call)
    requires WordOk(s)
    ensures
      AssertsOk(call, s.lock) <==>
      match call
      case EndRead => s.readers != multiset{}
      case EndWrite => s.writer.Some?
      case Downgrade => s.writer.Some?
      case End => s.writer.Some? || s.readers != multiset{}
      case TryRead => |s.readers| != 0x7fff_ffff
      case _ => true
  {
  }

  /** No assertion of the lock can fail, but one: in a debug build, acquiring a read lock does so
      exactly when as many read locks are held as the word can count, 2^31 - 1. */
  lemma PanicsOnlyOnOverflow(ndebug: bool, s: State, step: Step)
    requires Inv(ndebug, s) && Legal(ndebug, s, step)
    ensures Next(ndebug, s, step).panic <==>
            !ndebug && step.Load? && PcOf(s, step.t).call.TryRead? && |s.readers| == 0x7fff_ffff
  {
    if step.Load? { LoadPasses(ndebug, s, step.t); }
  }

  /** A call that returns "the lock has become free" is right, and so is one that does not. */
  lemma EndReportsFree(s: State, t: int, call: Call)
    requires WordOk(s) && (call.EndRead? || call.End?) && Grants(s, t, call, s.lock)
    ensures
      var s' := Granted(s, t, call, s.lock);
      s'.lock == 0 <==> s'.writer.None? && s'.readers == multiset{}
  {
    GrantKeepsWord(s, t, call, s.lock);
  }

  function Run(ndebug: bool, s: State, steps: seq<Step>): State
    decreases |steps|
  {
    if steps == [] then s else Run(ndebug, Next(ndebug, s, steps[0]), steps[1..])
  }

  predicate LegalRun(ndebug: bool, s: State, steps: seq<Step>)
    decreases |steps|
  {
    steps != [] ==> Legal(ndebug, s, steps[0]) && LegalRun(ndebug, Next(ndebug, s, steps[0]), steps[1..])
  }

  const FREE := State(0, map[], multiset{}, None, 0, false)

  /** Throughout a run at most `n` read locks are held. */
  predicate AtMost(ndebug: bool, s: State, steps: seq<Step>, n: nat)
    decreases |steps|
  {
    |s.readers| <= n && (steps != [] ==> AtMost(ndebug, Next(ndebug, s, steps[0]), steps[1..], n))
  }

  /** No more than the word can count */
  predicate WithinCount(ndebug: bool, s: State, steps: seq<Step>) {
    AtMost(ndebug, s, steps, RMASK)
  }

  ghost predicate WordOkThroughout(ndebug: bool, s: State, steps: seq<Step>)
    decreases |steps|
  {
    WordOk(s) && (steps != [] ==> WordOkThroughout(ndebug, Next(ndebug, s, steps[0]), steps[1..]))
  }

  lemma NoOverflowWithinCount(ndebug: bool, s: State, steps: seq<Step>)
    requires WordOk(s) && steps != [] && (ndebug ==> WithinCount(ndebug, s, steps))
    ensures !Overflows(ndebug, s, steps[0])
    ensures ndebug ==> WithinCount(ndebug, Next(ndebug, s, steps[0]), steps[1..])
  {
    if Overflows(ndebug, s, steps[0]) { OverflowCounts(s, steps[0]); }
  }

  /** The word says who holds the lock in every state of a run exactly when the read locks stay
      within its count. In a debug build they always do. */
  lemma {:induction false} WordOkExactly(ndebug: bool, s: State, steps: seq<Step>)
    requires Inv(ndebug, s) && LegalRun(ndebug, s, steps)
    ensures WordOkThroughout(ndebug, s, steps) <==> WithinCount(ndebug, s, steps)
    ensures !ndebug ==> WithinCount(ndebug, s, steps)
    ensures WithinCount(ndebug, s, steps) ==> Inv(ndebug, Run(ndebug, s, steps))
    decreases |steps|
  {
    if steps != [] {
      var s' := Next(ndebug, s, steps[0]);
      NextKeepsInv(ndebug, s, steps[0]);
      if Overflows(ndebug, s, steps[0]) {
        OverflowCounts(s, steps[0]);
        assert !AtMost(ndebug, s', steps[1..], RMASK);
      } else {
        WordOkExactly(ndebug, s', steps[1..]);
      }
    }
  }

  /** A writer is alone. */
  ghost predicate Exclusive(s: State) {
    s.writer.Some? ==> s.readers == multiset{} && forall u :: Holds(s, u) ==> s.writer == Some(u)
  }

  /** In every state of every interleaving within the count, a writer is alone. */
  lemma ExclusiveWithinCount(ndebug: bool, steps: seq<Step>)
    requires LegalRun(ndebug, FREE, steps) && (ndebug ==> WithinCount(ndebug, FREE, steps))
    ensures Exclusive(Run(ndebug, FREE, steps))
  {
    WordOkExactly(ndebug, FREE, steps);
  }

  /** Throughout a run, thread `t` holds the lock and does not itself modify the data. */
  predicate HeldThroughout(ndebug: bool, s: State, t: int, steps: seq<Step>)
    decreases |steps|
  {
    && Holds(s, t)
    && (steps != [] ==> steps[0] != Modify(t) && HeldThroughout(ndebug, Next(ndebug, s, steps[0]), t, steps[1..]))
  }

  /** As long as a thread holds the lock, as a reader, as a writer or while its upgrade turns the
      one into the other, nobody else modifies the data. */
  lemma {:induction false} DataStableWhileHeld(ndebug: bool, s: State, t: int, steps: seq<Step>)
    requires Inv(ndebug, s) && LegalRun(ndebug, s, steps) && HeldThroughout(ndebug, s, t, steps)
    requires ndebug ==> WithinCount(ndebug, s, steps)
    ensures Run(ndebug, s, steps).version == s.version
    decreases |steps|
  {
    if steps != [] {
      NextKeepsInv(ndebug, s, steps[0]);
      NoOverflowWithinCount(ndebug, s, steps);
      DataStableWhileHeld(ndebug, Next(ndebug, s, steps[0]), t, steps[1..]);
    }
  }

  /** Only the holder gives its lock away: whatever others do, it stays held. */
  lemma OthersCannotRevoke(ndebug: bool, s: State, step: Step, u: int)
    requires Inv(ndebug, s) && Legal(ndebug, s, step) && step.t != u
    ensures Next(ndebug, s, step).readers[u] == s.readers[u]
    ensures Next(ndebug, s, step).writer == Some(u) <==> s.writer == Some(u)
  {
    var pc := PcOf(s, step.t);
    assert ThreadOk(ndebug, s, step.t);
    if step.Exchange? && s.lock == pc.temp.value && !Overflows(ndebug, s, step) && !step.spurious {
      GrantKeepsOthers(s, step.t, pc.call, s.lock, u);
    } else if step.Atomic? && !(pc.call.TryWrite? && s.lock != 0) {
      GrantKeepsOthers(s, step.t, pc.call, s.lock, u);
    }
  }

  /** An upgrade that goes through makes a thread that was the only reader the writer in one step,
      so that it never lets go of the lock. */
  lemma UpgradeIsSeamless(ndebug: bool, s: State, step: Step)
    requires Inv(ndebug, s) && step.Exchange? && !step.spurious
    requires PcOf(s, step.t) == Busy(TryUpgrade, Some(1)) && s.lock == 1
    ensures s.readers == multiset{step.t} && s.writer.None?
    ensures
      var s' := Next(ndebug, s, step);
      s'.writer == Some(step.t) && s'.readers == multiset{} && Holds(s', step.t)
  {
    assert ThreadOk(ndebug, s, step.t);
    OnlyReader(s, step.t);
  }

  /** A call returns without having gone through exactly when the lock cannot be given: reading while
      there is a writer, upgrading while there are other read locks, writing while anybody holds it.
      In all other cases it goes on. */
  lemma RefusalsAreJustified(ndebug: bool, s: State, step: Step)
    requires Inv(ndebug, s) && Legal(ndebug, s, step) && PcOf(s, step.t).Busy?
    ensures
      var refused := PcOf(Next(ndebug, s, step), step.t).Idle? && !Completes(s, step);
      refused <==>
      match PcOf(s, step.t).call
      case TryRead => step.Load? && s.writer.Some?
      case TryUpgrade => step.Load? && |s.readers| != 1
      case TryWrite => s.writer.Some? || |s.readers| != 0
      case _ => false
  {
    assert ThreadOk(ndebug, s, step.t);
    if step.t in s.readers { assert |s.readers| > 0; }
  }

  /** Every step of a run is taken while fewer than 2^31 - 1 read locks are held. */
  predicate NeverFull(ndebug: bool, s: State, steps: seq<Step>)
    decreases |steps|
  {
    steps != [] ==> |s.readers| < RMASK && NeverFull(ndebug, Next(ndebug, s, steps[0]), steps[1..])
  }

  /** No assertion fails in a run that never holds that many, and none at all in a release build. */
  lemma {:induction false} NoPanicUnlessFull(ndebug: bool, s: State, steps: seq<Step>)
    requires !s.panic && LegalRun(ndebug, s, steps) && (!ndebug ==> Inv(ndebug, s) && NeverFull(ndebug, s, steps))
    ensures !Run(ndebug, s, steps).panic
    decreases |steps|
  {
    if steps != [] {
      if !ndebug {
        NextKeepsInv(ndebug, s, steps[0]);
        PanicsOnlyOnOverflow(ndebug, s, steps[0]);
      }
      NoPanicUnlessFull(ndebug, Next(ndebug, s, steps[0]), steps[1..]);
    }
  }

  // ---- What a release build does with one read lock too many --------------------------------

  /** One thread holds `n` read locks, and nobody else does anything. */
  ghost function Crowd(t: int, n: nat): State {
    State(n, if n == 0 then map[] else map[t := Idle], multiset{}[t := n], None, 0, false)
  }

  /** Takes the read locks from the k-th to the n-th. */
  ghost function PileUp(t: int, k: nat, n: nat): seq<Step>
    requires k <= n
    decreases n - k
  {
    if k == n then [] else [Start(t, TryRead), Load(t), Exchange(t, false)] + PileUp(t, k + 1, n)
  }

  lemma OneMoreReader(t: int, k: nat)
    requires k < RMASK
    ensures
      var steps := [Start(t, TryRead), Load(t), Exchange(t, false)];
      && LegalRun(true, Crowd(t, k), steps) && Run(true, Crowd(t, k), steps) == Crowd(t, k + 1)
      && AtMost(true, Crowd(t, k), steps, RMASK)
  {
    var s := Crowd(t, k);
    var s1 := Next(true, s, Start(t, TryRead));
    var s2 := Next(true, s1, Load(t));
    var s3 := Next(true, s2, Exchange(t, false));
    assert s3.readers == Crowd(t, k + 1).readers && s3.pc == Crowd(t, k + 1).pc;
    ThreeSteps(s, Start(t, TryRead), Load(t), Exchange(t, false));
  }

  lemma ThreeSteps(s: State, a: Step, b: Step, c: Step)
    ensures
      var s1 := Next(true, s, a);
      var s2 := Next(true, s1, b);
      && Run(true, s, [a, b, c]) == Next(true, s2, c)
      && (LegalRun(true, s, [a, b, c]) <==> Legal(true, s, a) && Legal(true, s1, b) && Legal(true, s2, c))
      && forall n: nat ::
           AtMost(true, s, [a, b, c], n) <==>
           |s.readers| <= n && |s1.readers| <= n && |s2.readers| <= n && |Next(true, s2, c).readers| <= n
  {
    var s1 := Next(true, s, a);
    var s2 := Next(true, s1, b);
    assert [a, b, c][1..] == [b, c] && [b, c][1..] == [c];
    assert Run(true, s2, [c]) == Next(true, s2, c) && Run(true, s1, [b, c]) == Run(true, s2, [c]);
    assert LegalRun(true, s2, [c]) <==> Legal(true, s2, c);
    assert LegalRun(true, s1, [b, c]) <==> Legal(true, s1, b) && LegalRun(true, s2, [c]);
    forall n: nat
      ensures AtMost(true, s1, [b, c], n) <==>
              |s1.readers| <= n && |s2.readers| <= n && |Next(true, s2, c).readers| <= n
    {
      assert AtMost(true, s2, [c], n) <==> |s2.readers| <= n && |Next(true, s2, c).readers| <= n;
    }
  }

  lemma {:induction false} RunOn(ndebug: bool, s: State, a: seq<Step>, b: seq<Step>)
    ensures Run(ndebug, s, a + b) == Run(ndebug, Run(ndebug, s, a), b)
    ensures LegalRun(ndebug, s, a + b) <==> LegalRun(ndebug, s, a) && LegalRun(ndebug, Run(ndebug, s, a), b)
    decreases |a|
  {
    if a == [] {
      assert a + b == b;
    } else {
      assert (a + b)[1..] == a[1..] + b;
      RunOn(ndebug, Next(ndebug, s, a[0]), a[1..], b);
    }
  }

  lemma {:induction false} AtMostOn(ndebug: bool, s: State, a: seq<Step>, b: seq<Step>, n: nat)
    ensures AtMost(ndebug, s, a + b, n) <==> AtMost(ndebug, s, a, n) && AtMost(ndebug, Run(ndebug, s, a), b, n)
    decreases |a|
  {
    if a == [] {
      assert a + b == b;
    } else {
      assert (a + b)[1..] == a[1..] + b;
      AtMostOn(ndebug, Next(ndebug, s, a[0]), a[1..], b, n);
    }
  }

  lemma {:induction false} AtMostMono(ndebug: bool, s: State, steps: seq<Step>, m: nat, n: nat)
    requires AtMost(ndebug, s, steps, m) && m <= n
    ensures AtMost(ndebug, s, steps, n)
    decreases |steps|
  {
    if steps != [] { AtMostMono(ndebug, Next(ndebug, s, steps[0]), steps[1..], m, n); }
  }

  lemma {:induction false} CrowdGathers(t: int, k: nat, n: nat)
    requires k <= n <= RMASK
    ensures LegalRun(true, Crowd(t, k), PileUp(t, k, n)) && Run(true, Crowd(t, k), PileUp(t, k, n)) == Crowd(t, n)
    ensures AtMost(true, Crowd(t, k), PileUp(t, k, n), RMASK)
    decreases n - k
  {
    if k < n {
      OneMoreReader(t, k);
      CrowdGathers(t, k + 1, n);
      RunOn(true, Crowd(t, k), [Start(t, TryRead), Load(t), Exchange(t, false)], PileUp(t, k + 1, n));
      AtMostOn(true, Crowd(t, k), [Start(t, TryRead), Load(t), Exchange(t, false)], PileUp(t, k + 1, n), RMASK);
    }
  }

  /** The state a run of three steps leaves: nobody is inside a call. */
  ghost predicate Leaves(s: State, steps: seq<Step>,
      lock: int, readers: multiset<int>, writer: Option<int>, version: nat)
  {
    && LegalRun(true, s, steps) && AtMost(true, s, steps, RMASK + 1)
    && var s' := Run(true, s, steps);
       s'.lock == lock && s'.readers == readers && s'.writer == writer && s'.version == version && Quiet(s')
  }

  ghost predicate Quiet(s: State) {
    !s.panic && forall t :: t in s.pc ==> s.pc[t].Idle?
  }

  /** The count becomes the mark of a writer. */
  lemma OneReaderTooMany(s: State, u: int)
    requires Quiet(s) && s.lock == RMASK == |s.readers|
    ensures
      var steps := [Start(u, TryRead), Load(u), Exchange(u, false)];
      Leaves(s, steps, WFLAG, s.readers + multiset{u}, s.writer, s.version)
  {
    ThreeSteps(s, Start(u, TryRead), Load(u), Exchange(u, false));
  }

  /** A reader that ends its lock is taken for that writer. */
  lemma ReaderEndsAsWriter(s: State, t: int)
    requires Quiet(s) && s.lock == WFLAG && t in s.readers && s.writer.None? && |s.readers| == RMASK + 1
    ensures Leaves(s, [Start(t, End), Load(t), Exchange(t, false)], 0, s.readers - multiset{t}, None, s.version)
  {
    ThreeSteps(s, Start(t, End), Load(t), Exchange(t, false));
  }

  lemma WriterEnters(s: State, w: int)
    requires Quiet(s) && s.lock == 0 && |s.readers| <= RMASK
    ensures Leaves(s, [Start(w, TryWrite), Atomic(w), Modify(w)], WFLAG, s.readers, Some(w), s.version + 1)
  {
    ThreeSteps(s, Start(w, TryWrite), Atomic(w), Modify(w));
  }

  /** No reader notices. */
  lemma ReaderStays(s: State, u: int, w: int)
    requires Quiet(s) && s.lock == 0 && u in s.readers && u != w
    ensures HeldThroughout(true, s, u, [Start(w, TryWrite), Atomic(w), Modify(w)])
  {
    var a, b, c := Start(w, TryWrite), Atomic(w), Modify(w);
    var s1 := Next(true, s, a);
    var s2 := Next(true, s1, b);
    assert [a, b, c][1..] == [b, c] && [b, c][1..] == [c];
    assert HeldThroughout(true, s2, u, [c]);
    assert HeldThroughout(true, s1, u, [b, c]);
  }

  /** As many read locks as the word can count, one more by `u`, and one of the others ended */
  ghost function Overflow(t: int, u: int): seq<Step> {
    PileUp(t, 0, RMASK)
    + [Start(u, TryRead), Load(u), Exchange(u, false)]
    + [Start(t, End), Load(t), Exchange(t, false)]
  }

  /** That leaves a word that says "free". */
  lemma OverflowFreesTheWord(t: int, u: int)
    requires t != u
    ensures LegalRun(true, FREE, Overflow(t, u)) && AtMost(true, FREE, Overflow(t, u), RMASK + 1)
    ensures
      var s := Run(true, FREE, Overflow(t, u));
      s.lock == 0 && u in s.readers && |s.readers| == RMASK && s.writer.None? && s.version == 0 && Quiet(s)
  {
    var p := PileUp(t, 0, RMASK);
    var a := [Start(u, TryRead), Load(u), Exchange(u, false)];
    var b := [Start(t, End), Load(t), Exchange(t, false)];
    var full := Crowd(t, RMASK);
    assert Crowd(t, 0).readers == multiset{} && Crowd(t, 0) == FREE;
    CrowdGathers(t, 0, RMASK);
    AtMostMono(true, FREE, p, RMASK, RMASK + 1);
    OneReaderTooMany(full, u);
    ReaderEndsAsWriter(Run(true, full, a), t);
    RunOn(true, FREE, p, a);
    RunOn(true, FREE, p + a, b);
    AtMostOn(true, FREE, p, a, RMASK + 1);
    AtMostOn(true, FREE, p + a, b, RMASK + 1);
  }

  /** A release build then lets a writer in beside 2^31 - 1 readers and modify the data they read. */
  lemma OverflowBreaksExclusion(t: int, u: int, w: int)
    requires t != u && u != w
    ensures
      var writes := [Start(w, TryWrite), Atomic(w), Modify(w)];
      var run := Overflow(t, u) + writes;
      var s := Run(true, FREE, run);
      && LegalRun(true, FREE, run) && AtMost(true, FREE, run, RMASK + 1)
      && HeldThroughout(true, Run(true, FREE, Overflow(t, u)), u, writes)
      && s.writer == Some(w) && u in s.readers && |s.readers| == RMASK
      && s.version == 1 && Run(true, FREE, Overflow(t, u)).version == 0
  {
    var writes := [Start(w, TryWrite), Atomic(w), Modify(w)];
    OverflowFreesTheWord(t, u);
    var s := Run(true, FREE, Overflow(t, u));
    WriterEnters(s, w);
    ReaderStays(s, u, w);
    RunOn(true, FREE, Overflow(t, u), writes);
    AtMostOn(true, FREE, Overflow(t, u), writes, RMASK + 1);
  }

  // ---- The guarantees over all runs ---------------------------------------------------------

  /** Every run that holds at most `n` read locks at a time excludes. */
  ghost predicate AlwaysExclusive(ndebug: bool, n: nat) {
    forall steps :: LegalRun(ndebug, FREE, steps) && AtMost(ndebug, FREE, steps, n) ==>
      Exclusive(Run(ndebug, FREE, steps))
  }

  /** In every state of every interleaving a writer is alone: in a debug build always, and in a
      release build exactly for as many read locks as the word can count. */
  lemma MutualExclusion(ndebug: bool, n: nat)
    ensures AlwaysExclusive(ndebug, n) <==> !ndebug || n <= 0x7fff_ffff
  {
    if !ndebug || n <= RMASK {
      forall steps | LegalRun(ndebug, FREE, steps) && AtMost(ndebug, FREE, steps, n)
        ensures Exclusive(Run(ndebug, FREE, steps))
      {
        if ndebug { AtMostMono(ndebug, FREE, steps, n, RMASK); }
        ExclusiveWithinCount(ndebug, steps);
      }
    } else {
      var steps := Overflow(0, 1) + [Start(2, TryWrite), Atomic(2), Modify(2)];
      OverflowBreaksExclusion(0, 1, 2);
      AtMostMono(true, FREE, steps, RMASK + 1, n);
      assert !Exclusive(Run(true, FREE, steps));
    }
  }

  /** In every such run, nobody else modifies the data from any point at which a thread holds the
      lock until it lets go. */
  ghost predicate AlwaysStable(ndebug: bool, n: nat) {
    forall a, b, t ::
      LegalRun(ndebug, FREE, a + b) && AtMost(ndebug, FREE, a + b, n)
      && HeldThroughout(ndebug, Run(ndebug, FREE, a), t, b) ==>
        Run(ndebug, FREE, a + b).version == Run(ndebug, FREE, a).version
  }

  lemma StableWithinCount(ndebug: bool, a: seq<Step>, b: seq<Step>, t: int)
    requires LegalRun(ndebug, FREE, a + b) && (ndebug ==> WithinCount(ndebug, FREE, a + b))
    requires HeldThroughout(ndebug, Run(ndebug, FREE, a), t, b)
    ensures Run(ndebug, FREE, a + b).version == Run(ndebug, FREE, a).version
  {
    RunOn(ndebug, FREE, a, b);
    AtMostOn(ndebug, FREE, a, b, RMASK);
    WordOkExactly(ndebug, FREE, a);
    DataStableWhileHeld(ndebug, Run(ndebug, FREE, a), t, b);
  }

  /** Likewise for the data: stable in a debug build always, and in a release build exactly for as
      many read locks as the word can count. */
  lemma DataStability(ndebug: bool, n: nat)
    ensures AlwaysStable(ndebug, n) <==> !ndebug || n <= 0x7fff_ffff
  {
    if !ndebug || n <= RMASK {
      forall a, b, t |
        LegalRun(ndebug, FREE, a + b) && AtMost(ndebug, FREE, a + b, n)
        && HeldThroughout(ndebug, Run(ndebug, FREE, a), t, b)
        ensures Run(ndebug, FREE, a + b).version == Run(ndebug, FREE, a).version
      {
        if ndebug { AtMostMono(ndebug, FREE, a + b, n, RMASK); }
        StableWithinCount(ndebug, a, b, t);
      }
    } else {
      var a, b := Overflow(0, 1), [Start(2, TryWrite), Atomic(2), Modify(2)];
      OverflowBreaksExclusion(0, 1, 2);
      AtMostMono(true, FREE, a + b, RMASK + 1, n);
      assert HeldThroughout(true, Run(true, FREE, a), 1, b);
    }
  }
}
