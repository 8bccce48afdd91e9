/** Atomic operations built from compare-and-exchange, as an interleaving of any number of
    threads in their retry loops and of arbitrary other writers.

    `log` records the order in which operations took effect.  The code never looks at it, nor
    at the fields `since`, `seen` and `done`; they state what a run has shown so far. */
module CasLoops {
  import Emulated32

  type word = int  // a signed 64-bit number; arithmetic wraps

  const UNUSUAL: word := Emulated32.Wrap64(0x8181_8181_8181_8181)

  /** Operations on a word, and operations on a 32-bit atomic that lives in a word. */
  datatype Op =
    | Xchg(val: word) | AddRead(val: word) | ReadBand(val: word) | ReadBor(val: word) | Set(val: word) | Read
    | On32(op: Emulated32.Op)

  datatype Response = Nothing | Value(w: word)

  predicate IsRead(op: Op) {
    op.Read? || (op.On32? && op.op.Read?)
  }

  /** A cmpxchg of the interface is native and needs no loop; it is one of the other writers. */
  predicate HasLoop(op: Op) {
    op.On32? ==> !op.op.CmpXchg?
  }

  /** What an operation does when nobody interferes: the new contents and the response. */
  function Effect(op: Op, old_: word): (word, Response) {
    match op
    case Xchg(val) => (val, Value(old_))
    case AddRead(val) => (Emulated32.Wrap64(old_ + val), Value(Emulated32.Wrap64(old_ + val)))
    case ReadBand(val) => (Emulated32.And(old_, val), Value(old_))
    case ReadBor(val) => (Emulated32.Or(old_, val), Value(old_))
    case Set(val) => (val, Nothing)
    case Read => (old_, Value(old_))
    case On32(o) =>
      var e := Emulated32.Loop(o, old_);
      (e.0, if o.Set? then Nothing else Value(e.1))
  }

  // ------------------------------------------------------------------ the code

  /** Where a thread is: in front of the read of the loop, or in front of a cmpxchg with the
      value `exp` it expects.  A read without a native operation is a cmpxchg of an unusual
      value against itself. */
  datatype Local =
    | Idle
    | FirstRead(op: Op)
    | Try(op: Op, exp: word, guessed: bool, seen: nat)
    | TryRead(op: Op)

  datatype Done = Done(op: Op, response: Response, since: nat, at: nat)

  datatype Thread = Thread(local: Local, since: nat, done: seq<Done>)

  datatype Entry = Entry(who: int, op: Op, response: Response)  // who < 0: another writer

  datatype State = State(cell: word, threads: seq<Thread>, log: seq<Entry>)

  /** The statements OPS of the retry macro: result and new value, from the value read.  For a
      32-bit atomic the value read is narrowed first. */
  function Ops(op: Op, act: word): (Response, word)
    requires !IsRead(op) && HasLoop(op)
  {
    match op
    case Xchg(val) => (Value(act), val)
    case AddRead(val) => var aval := Emulated32.Wrap64(act + val); (Value(aval), aval)
    case ReadBand(val) => (Value(act), Emulated32.And(act, val))
    case ReadBor(val) => (Value(act), Emulated32.Or(act, val))
    case Set(val) => (Nothing, val)  // an xchg whose result is dropped
    case On32(o) =>
      var aval := Emulated32.Wrap32(act);
      match o
      case Xchg(val) => (Value(aval), val)
      case AddRead(val) => var sum := Emulated32.Wrap32(aval + val); (Value(sum), sum)
      case ReadBand(val) => (Value(aval), Emulated32.And(aval, val))
      case ReadBor(val) => (Value(aval), Emulated32.Or(aval, val))
      case Set(val) => (Nothing, val)
  }

  /** What a read makes of the value its cmpxchg returned. */
  function ReadResult(op: Op, act: word): Response {
    Value(if op.On32? then Emulated32.Wrap32(act) else act)
  }

  /** `cmpxchg(var, new, exp)`: the contents afterwards; it returns the contents before. */
  function CmpXchg(cell: word, new_: word, exp: word): word {
    if cell == exp then new_ else cell
  }

  ghost predicate Invoke(s: State, s': State, t: nat, op: Op) {
    && t < |s.threads| && s.threads[t].local.Idle? && HasLoop(op)
    && s' == s.(threads := s.threads[t := s.threads[t].(
         local := if IsRead(op) then TryRead(op) else FirstRead(op), since := |s.log|)])
  }

  /** The read in front of the loop: a native read, or the guess 0. */
  ghost predicate ReadStep(s: State, s': State, t: nat, nativeRead: bool) {
    && t < |s.threads| && s.threads[t].local.FirstRead?
    && var act := if nativeRead then s.cell else 0;
       s' == s.(threads := s.threads[t := s.threads[t].(
         local := Try(s.threads[t].local.op, act, !nativeRead, |s.log|))])
  }

  function Finish(s: State, t: nat, op: Op, response: Response, cell: word): State
    requires t < |s.threads|
  {
    var th := s.threads[t];
    State(cell,
          s.threads[t := Thread(Idle, th.since, th.done + [Done(op, response, th.since, |s.log|)])],
          s.log + [Entry(t, op, response)])
  }

  /** One cmpxchg of the retry loop. */
  ghost predicate LoopStep(s: State, s': State, t: nat) {
    && t < |s.threads| && s.threads[t].local.Try? && !IsRead(s.threads[t].local.op) && HasLoop(s.threads[t].local.op)
    && var l := s.threads[t].local;
       var (response, new_) := Ops(l.op, l.exp);
       var act := s.cell;
       var cell := CmpXchg(s.cell, new_, l.exp);
       if act == l.exp then s' == Finish(s, t, l.op, response, cell)
       else s' == State(cell, s.threads[t := s.threads[t].(local := Try(l.op, act, false, |s.log|))], s.log)
  }

  /** A read by a cmpxchg with equal operands. */
  ghost predicate ReadByCmpXchg(s: State, s': State, t: nat) {
    && t < |s.threads| && s.threads[t].local.TryRead? && IsRead(s.threads[t].local.op)
    && var op := s.threads[t].local.op;
       s' == Finish(s, t, op, ReadResult(op, s.cell), CmpXchg(s.cell, UNUSUAL, UNUSUAL))
  }

  /** Any other writer stores anything. */
  ghost predicate OtherWriter(s: State, s': State, v: word) {
    s' == s.(cell := v, log := s.log + [Entry(-1, Set(v), Nothing)])
  }

  ghost predicate Step(s: State, s': State, nativeRead: bool) {
    || (exists v: word :: OtherWriter(s, s', v))
    || (exists t: nat, op: Op :: Invoke(s, s', t, op))
    || exists t: nat :: ReadStep(s, s', t, nativeRead) || LoopStep(s, s', t) || ReadByCmpXchg(s, s', t)
  }

  ghost predicate Run(run: seq<State>, nativeRead: bool) {
    && run != [] && run[0].log == []
    && (forall t :: 0 <= t < |run[0].threads| ==> run[0].threads[t] == Thread(Idle, 0, []))
    && forall k :: 0 <= k < |run| - 1 ==> Step(run[k], run[k + 1], nativeRead)
  }

  // ---------------------------------------------------------- linearizability

  /** The contents after the logged operations, one after the other. */
  function Replay(start: word, log: seq<Entry>): word {
    if log == [] then start else Effect(log[|log| - 1].op, Replay(start, log[..|log| - 1])).0
  }

  /** Every logged response is what the operation returns at its place in the log. */
  ghost predicate Legal(start: word, log: seq<Entry>) {
    forall k :: 0 <= k < |log| ==> log[k].response == Effect(log[k].op, Replay(start, log[..k])).1
  }

  /** The places in the log where thread t took effect. */
  function Places(log: seq<Entry>, t: nat): seq<nat> {
    if log == [] then []
    else Places(log[..|log| - 1], t) + if log[|log| - 1].who == t then [|log| - 1] else []
  }

  function DonePlaces(done: seq<Done>): seq<nat> {
    if done == [] then [] else DonePlaces(done[..|done| - 1]) + [done[|done| - 1].at]
  }

  /** Thread t's completed operations are exactly its log entries, in program order; each took
      effect once, after it was invoked and before the next one was. */
  ghost predicate Accounted(s: State, t: nat)
    requires t < |s.threads|
  {
    var th := s.threads[t];
    && DonePlaces(th.done) == Places(s.log, t)
    && th.since <= |s.log|
    && (forall d <- th.done ::
          d.since <= d.at < |s.log| && s.log[d.at] == Entry(t, d.op, d.response))
    && (!th.local.Idle? ==> forall d <- th.done :: d.at < th.since)
  }

  ghost predicate Linearized(start: word, s: State) {
    && s.cell == Replay(start, s.log) && Legal(start, s.log)
    && forall t :: 0 <= t < |s.threads| ==> Accounted(s, t)
  }

  /** A value that was read, not guessed, was the contents when `seen` operations were logged. */
  ghost predicate Tracked(start: word, s: State) {
    && (forall t :: 0 <= t < |s.threads| && s.threads[t].local.FirstRead? ==>
          !IsRead(s.threads[t].local.op) && HasLoop(s.threads[t].local.op))
    && (forall t :: 0 <= t < |s.threads| && s.threads[t].local.Try? ==>
          var l := s.threads[t].local;
          && !IsRead(l.op) && HasLoop(l.op) && l.seen <= |s.log|
          && (!l.guessed ==> l.exp == Replay(start, s.log[..l.seen])))
  }

  ghost predicate Inv(start: word, s: State) {
    Linearized(start, s) && Tracked(start, s)
  }

  lemma LogSnoc(start: word, log: seq<Entry>, e: Entry)
    requires Legal(start, log) && e.response == Effect(e.op, Replay(start, log)).1
    ensures Legal(start, log + [e])
    ensures Replay(start, log + [e]) == Effect(e.op, Replay(start, log)).0
    ensures forall k :: 0 <= k <= |log| ==> (log + [e])[..k] == log[..k]
    ensures forall t :: Places(log + [e], t) == Places(log, t) + if e.who == t then [|log|] else []
  {
    var log' := log + [e];
    assert log'[..|log|] == log;
    forall k | 0 <= k < |log'|
      ensures log'[k].response == Effect(log'[k].op, Replay(start, log'[..k])).1
    {
      assert k < |log| ==> log'[..k] == log[..k];
    }
  }

  lemma DonePlacesSnoc(done: seq<Done>, d: Done)
    ensures DonePlaces(done + [d]) == DonePlaces(done) + [d.at]
  {
    assert (done + [d])[..|done|] == done;
  }

  /** Logging somebody else's operation disturbs no thread's account. */
  lemma AccountKept(start: word, s: State, s': State, t: nat, e: Entry)
    requires t < |s.threads| && |s'.threads| == |s.threads| && s'.threads[t] == s.threads[t]
    requires Accounted(s, t) && s'.log == s.log + [e] && e.who != t
    requires Legal(start, s.log) && e.response == Effect(e.op, Replay(start, s.log)).1
    ensures Accounted(s', t)
  {
    LogSnoc(start, s.log, e);
  }

  lemma AccountFinished(start: word, s: State, t: nat, op: Op, response: Response, cell: word)
    requires Linearized(start, s) && t < |s.threads| && !s.threads[t].local.Idle?
    requires (cell, response) == Effect(op, s.cell)
    ensures Accounted(Finish(s, t, op, response, cell), t)
  {
    hide Effect, Replay, Places, DonePlaces;
    LogSnoc(start, s.log, Entry(t, op, response));
    assert Accounted(s, t);
    DonePlacesSnoc(s.threads[t].done, Done(op, response, s.threads[t].since, |s.log|));
  }

  /** A completed operation that had its sequential effect on the contents is a valid next
      entry of the log. */
  lemma FinishInv(start: word, s: State, t: nat, op: Op, response: Response, cell: word)
    requires Inv(start, s) && t < |s.threads| && !s.threads[t].local.Idle?
    requires (cell, response) == Effect(op, s.cell)
    ensures Inv(start, Finish(s, t, op, response, cell))
  {
    hide Effect, Replay, Places, DonePlaces;
    var s' := Finish(s, t, op, response, cell);
    var e := Entry(t, op, response);
    LogSnoc(start, s.log, e);
    forall u | 0 <= u < |s.threads|
      ensures Accounted(s', u)
    {
      if u != t {
        AccountKept(start, s, s', u, e);
      } else {
        AccountFinished(start, s, t, op, response, cell);
      }
    }
  }

  lemma OtherWriterInv(start: word, s: State, s': State, v: word)
    requires Inv(start, s) && OtherWriter(s, s', v)
    ensures Inv(start, s')
  {
    var e := Entry(-1, Set(v), Nothing);
    LogSnoc(start, s.log, e);
    forall u | 0 <= u < |s.threads|
      ensures Accounted(s', u)
    {
      AccountKept(start, s, s', u, e);
    }
  }

  /** A step that only moves thread t within its loop. */
  lemma LocalInv(start: word, s: State, s': State, t: nat)
    requires Inv(start, s) && t < |s.threads|
    requires |s'.threads| == |s.threads| && s' == s.(threads := s.threads[t := s'.threads[t]])
    requires s'.threads[t].done == s.threads[t].done && !s'.threads[t].local.Idle?
    requires s'.threads[t].since == if s.threads[t].local.Idle? then |s.log| else s.threads[t].since
    requires Tracked(start, s')
    ensures Inv(start, s')
  {
    forall u | 0 <= u < |s.threads|
      ensures Accounted(s', u)
    {
      assert Accounted(s, u);
    }
  }

  lemma ReadStepInv(start: word, s: State, s': State, t: nat, nativeRead: bool)
    requires Inv(start, s) && ReadStep(s, s', t, nativeRead)
    ensures Inv(start, s')
  {
    assert s.log[..|s.log|] == s.log;
    LocalInv(start, s, s', t);
  }

  /** The statements of the loop body compute the sequential effect. */
  lemma OpsEffect(op: Op, aval: word)
    requires !IsRead(op) && HasLoop(op)
    ensures Ops(op, aval) == (Effect(op, aval).1, Effect(op, aval).0)
  {
    hide Emulated32.And, Emulated32.Or, Emulated32.Wrap32, Emulated32.Wrap64;
  }

  lemma FailedLoopStepInv(start: word, s: State, s': State, t: nat)
    requires Inv(start, s) && LoopStep(s, s', t) && s.cell != s.threads[t].local.exp
    ensures Inv(start, s')
  {
    hide Ops, Effect, Legal;
    assert s.log[..|s.log|] == s.log;
    LocalInv(start, s, s', t);
  }

  lemma LoopStepInv(start: word, s: State, s': State, t: nat)
    requires Inv(start, s) && LoopStep(s, s', t)
    ensures Inv(start, s')
  {
    hide Ops, Effect, Accounted, Legal, Tracked, Finish;
    var l := s.threads[t].local;
    if s.cell == l.exp {
      OpsEffect(l.op, l.exp);
      FinishInv(start, s, t, l.op, Ops(l.op, l.exp).0, Ops(l.op, l.exp).1);
    } else {
      FailedLoopStepInv(start, s, s', t);
    }
  }

  lemma ReadByCmpXchgInv(start: word, s: State, s': State, t: nat)
    requires Inv(start, s) && ReadByCmpXchg(s, s', t)
    ensures Inv(start, s')
  {
    var op := s.threads[t].local.op;
    FinishInv(start, s, t, op, ReadResult(op, s.cell), s.cell);
  }

  lemma InvokeInv(start: word, s: State, s': State, t: nat, op: Op)
    requires Inv(start, s) && Invoke(s, s', t, op)
    ensures Inv(start, s')
  {
    LocalInv(start, s, s', t);
  }

  lemma StepInv(start: word, s: State, s': State, nativeRead: bool)
    requires Inv(start, s) && Step(s, s', nativeRead)
    ensures Inv(start, s') && |s'.threads| == |s.threads|
  {
    StepThreads(s, s', nativeRead);
    hide Inv, OtherWriter, Invoke, ReadStep, LoopStep, ReadByCmpXchg;
    if v: word :| OtherWriter(s, s', v) {
      OtherWriterInv(start, s, s', v);
    } else if t: nat, op: Op :| Invoke(s, s', t, op) {
      InvokeInv(start, s, s', t, op);
    } else {
      var t: nat :| ReadStep(s, s', t, nativeRead) || LoopStep(s, s', t) || ReadByCmpXchg(s, s', t);
      if ReadStep(s, s', t, nativeRead) {
        ReadStepInv(start, s, s', t, nativeRead);
      } else if LoopStep(s, s', t) {
        LoopStepInv(start, s, s', t);
      } else {
        ReadByCmpXchgInv(start, s, s', t);
      }
    }
  }

  lemma StepThreads(s: State, s': State, nativeRead: bool)
    requires Step(s, s', nativeRead)
    ensures |s'.threads| == |s.threads|
  {
    hide Ops, Effect;
  }

  /** Linearizability: at every moment of every run the contents and all responses are those
      of executing the log one operation at a time, and every completed operation is one entry
      of the log between its invocation and its response. */
  lemma {:induction false} RunLinearized(run: seq<State>, nativeRead: bool, k: nat)
    requires Run(run, nativeRead) && k < |run|
    ensures Inv(run[0].cell, run[k]) && |run[k].threads| == |run[0].threads|
    decreases k
  {
    if k > 0 {
      RunLinearized(run, nativeRead, k - 1);
      assert Step(run[k - 1], run[k], nativeRead);
      StepInv(run[0].cell, run[k - 1], run[k], nativeRead);
    } else {
      forall t | 0 <= t < |run[0].threads|
        ensures Accounted(run[0], t)
      {
        assert run[0].threads[t] == Thread(Idle, 0, []);
      }
    }
  }

  /** An operation that was complete when another one was invoked precedes it in the log. */
  lemma RealTimeOrder(run: seq<State>, nativeRead: bool, i: nat, k: nat, t: nat, u: nat, d: Done, e: Done)
    requires Run(run, nativeRead) && i < |run| && k < |run|
    requires t < |run[i].threads| && d in run[i].threads[t].done
    requires u < |run[k].threads| && e in run[k].threads[u].done && |run[i].log| <= e.since
    ensures d.at < e.at
  {
    RunLinearized(run, nativeRead, i);
    RunLinearized(run, nativeRead, k);
    assert Accounted(run[i], t) && Accounted(run[k], u);
  }

  /** A cmpxchg on a value that was read can fail only if an operation took effect since; so
      of competing loops some loop always gets ahead. */
  lemma FailureMeansProgress(run: seq<State>, nativeRead: bool, k: nat, t: nat)
    requires Run(run, nativeRead) && k < |run| && t < |run[k].threads|
    requires run[k].threads[t].local.Try? && !run[k].threads[t].local.guessed
    ensures run[k].cell != run[k].threads[t].local.exp ==> run[k].threads[t].local.seen < |run[k].log|
  {
    RunLinearized(run, nativeRead, k);
    var s := run[k];
    assert s.log[..|s.log|] == s.log;
  }

  /** Every step either takes effect as exactly one logged operation or leaves the contents. */
  lemma EffectIsLogged(run: seq<State>, nativeRead: bool, k: nat)
    requires Run(run, nativeRead) && k + 1 < |run|
    ensures (run[k].log == run[k + 1].log && run[k].cell == run[k + 1].cell)
         || (|run[k + 1].log| == |run[k].log| + 1
             && run[k + 1].cell == Effect(run[k + 1].log[|run[k].log|].op, run[k].cell).0)
  {
    RunLinearized(run, nativeRead, k);
    RunLinearized(run, nativeRead, k + 1);
    assert Step(run[k], run[k + 1], nativeRead);
    StepLog(run[k], run[k + 1], nativeRead);
    if |run[k + 1].log| == |run[k].log| + 1 {
      assert run[k + 1].log[..|run[k].log|] == run[k].log;
    }
  }

  lemma StepLog(s: State, s': State, nativeRead: bool)
    requires Step(s, s', nativeRead)
    ensures (s'.log == s.log && s'.cell == s.cell) || (|s'.log| == |s.log| + 1 && s.log <= s'.log)
  {
  }

  // ------------------------------------------------------------------ in numbers

  /** What an operation does, in numbers and bits: the contents before and after it, and the
      response.  An operation on a 32-bit atomic works on the 32-bit value c that the contents
      stand for, and leaves one. */
  ghost predicate Lawful(op: Op, before: int, after: int, response: Response) {
    match op
    case Xchg(val) => response == Value(before) && after == val
    case AddRead(val) =>
      && response == Value(after) && -0x8000_0000_0000_0000 <= after < 0x8000_0000_0000_0000
      && (after - (before + val)) % 0x1_0000_0000_0000_0000 == 0
    case ReadBand(val) =>
      && response == Value(before)
      && forall k: nat :: Emulated32.BitOf(after, k) <==> Emulated32.BitOf(before, k) && Emulated32.BitOf(val, k)
    case ReadBor(val) =>
      && response == Value(before)
      && forall k: nat :: Emulated32.BitOf(after, k) <==> Emulated32.BitOf(before, k) || Emulated32.BitOf(val, k)
    case Set(val) => response == Nothing && after == val
    case Read => response == Value(before) && after == before
    case On32(o) =>
      var c := Emulated32.Wrap32(before);
      if o.Read? then response == Value(c) && after == before
      else if o.Set? then response == Nothing && after == o.val
      else response.Value? && Emulated32.Lawful32(o, c, after, response.w)
  }

  lemma EffectIsLawful(op: Op, before: word)
    requires HasLoop(op)
    ensures Lawful(op, before, Effect(op, before).0, Effect(op, before).1)
  {
    match op
    case AddRead(val) => Emulated32.Ranges(before + val);
    case ReadBand(val) =>
      forall k: nat {
        Emulated32.AndBits(before, val, k);
      }
    case ReadBor(val) =>
      forall k: nat {
        Emulated32.OrBits(before, val, k);
      }
    case On32(o) => Emulated32.True32IsLawful(o, Emulated32.Wrap32(before));
    case _ =>
  }

  lemma EntriesHaveLoops(s: State, s': State, nativeRead: bool)
    requires Step(s, s', nativeRead)
    requires forall t :: 0 <= t < |s.threads| && !s.threads[t].local.Idle? ==> HasLoop(s.threads[t].local.op)
    ensures |s'.threads| == |s.threads|
    ensures forall t :: 0 <= t < |s'.threads| && !s'.threads[t].local.Idle? ==> HasLoop(s'.threads[t].local.op)
    ensures |s'.log| > |s.log| ==> HasLoop(s'.log[|s.log|].op)
  {
    hide Ops, Effect;
  }

  lemma {:induction false} RunHasLoops(run: seq<State>, nativeRead: bool, k: nat)
    requires Run(run, nativeRead) && k < |run|
    ensures forall t :: 0 <= t < |run[k].threads| && !run[k].threads[t].local.Idle? ==> HasLoop(run[k].threads[t].local.op)
    decreases k
  {
    if k > 0 {
      RunHasLoops(run, nativeRead, k - 1);
      assert Step(run[k - 1], run[k], nativeRead);
      EntriesHaveLoops(run[k - 1], run[k], nativeRead);
    }
  }

  /** Every step that takes effect in a run does what its operation is for. */
  lemma StepIsLawful(run: seq<State>, nativeRead: bool, k: nat)
    requires Run(run, nativeRead) && k + 1 < |run| && |run[k + 1].log| > |run[k].log|
    ensures var e := run[k + 1].log[|run[k].log|]; Lawful(e.op, run[k].cell, run[k + 1].cell, e.response)
  {
    RunHasLoops(run, nativeRead, k);
    assert Step(run[k], run[k + 1], nativeRead);
    EntriesHaveLoops(run[k], run[k + 1], nativeRead);
    EffectIsLogged(run, nativeRead, k);
    RunLinearized(run, nativeRead, k);
    RunLinearized(run, nativeRead, k + 1);
    assert Legal(run[0].cell, run[k + 1].log);
    StepLog(run[k], run[k + 1], nativeRead);
    assert run[k + 1].log[..|run[k].log|] == run[k].log;
    var e := run[k + 1].log[|run[k].log|];
    hide Effect, Lawful, Replay, Step, Inv;
    EffectIsLawful(e.op, run[k].cell);
  }

  /** A loop left alone comes to an end: its next cmpxchg succeeds if it expects the contents,
      as it does after a native read and after a failure; so it needs two at most. */
  lemma AloneFinishes(s: State, s1: State, s2: State, t: nat)
    requires t < |s.threads| && s.threads[t].local.Try? && LoopStep(s, s1, t)
    requires s1.threads[t].local.Try? ==> LoopStep(s1, s2, t)
    ensures s1.threads[t].local.Idle? <==> s.cell == s.threads[t].local.exp
    ensures s1.threads[t].local.Idle? || s2.threads[t].local.Idle?
  {
    hide Ops;
  }

  /** Any operation can be invoked by an idle thread, and a thread within one always has a next
      step, whatever the others did. */
  lemma NeverStuck(s: State, t: nat, op: Op, nativeRead: bool)
    requires t < |s.threads|
    requires s.threads[t].local.FirstRead? || s.threads[t].local.Try? ==>
      !IsRead(s.threads[t].local.op) && HasLoop(s.threads[t].local.op)
    requires s.threads[t].local.TryRead? ==> IsRead(s.threads[t].local.op)
    ensures s.threads[t].local.Idle? && HasLoop(op) ==> exists s' :: Invoke(s, s', t, op)
    ensures s.threads[t].local.FirstRead? ==> exists s' :: ReadStep(s, s', t, nativeRead)
    ensures s.threads[t].local.Try? ==> exists s' :: LoopStep(s, s', t)
    ensures s.threads[t].local.TryRead? ==> exists s' :: ReadByCmpXchg(s, s', t)
  {
    hide Ops;
    var th := s.threads[t];
    match th.local
    case Idle =>
      var s' := s.(threads := s.threads[t := th.(local := if IsRead(op) then TryRead(op) else FirstRead(op), since := |s.log|)]);
      assert HasLoop(op) ==> Invoke(s, s', t, op);
    case FirstRead(o) =>
      var s' := s.(threads := s.threads[t := th.(local := Try(o, if nativeRead then s.cell else 0, !nativeRead, |s.log|))]);
      assert ReadStep(s, s', t, nativeRead);
    case Try(o, exp, _, _) =>
      var r := Ops(o, exp);
      var s' := if s.cell == exp then Finish(s, t, o, r.0, CmpXchg(s.cell, r.1, exp))
                else State(s.cell, s.threads[t := th.(local := Try(o, s.cell, false, |s.log|))], s.log);
      assert LoopStep(s, s', t);
    case TryRead(o) =>
      var s' := Finish(s, t, o, ReadResult(o, s.cell), CmpXchg(s.cell, UNUSUAL, UNUSUAL));
      assert ReadByCmpXchg(s, s', t);
  }

  /** The first value expected is what a native read finds, or zero; a failure brings the
      contents at that moment. */
  lemma Expects(s: State, s': State, t: nat, nativeRead: bool)
    ensures ReadStep(s, s', t, nativeRead) ==>
      s'.threads[t].local.Try? && s'.threads[t].local.exp == (if nativeRead then s.cell else 0) && s'.cell == s.cell
    ensures LoopStep(s, s', t) && s'.threads[t].local.Try? ==>
      s'.threads[t].local.exp == s.cell == s'.cell && s.cell != s.threads[t].local.exp
  {
    hide Ops;
  }

  lemma AfterNativeRead(s: State, s1: State, s2: State, t: nat)
    requires ReadStep(s, s1, t, true) && LoopStep(s1, s2, t)
    ensures s2.threads[t].local.Idle?
  {
    hide Ops;
  }

  // -------------------------------------------------------------- 32-bit atomics

  /** An operation on a 32-bit atomic, or another writer that stores a 32-bit value. */
  predicate Is32(op: Op) {
    (op.On32? && Emulated32.ValidOp(op.op)) || (op.Set? && Emulated32.In32(op.val))
  }

  function Effect32(op: Op, c: int): (int, Response) {
    if op.On32? then
      var e := Emulated32.True32(op.op, c);
      (e.0, if op.op.Set? then Nothing else Value(e.1))
    else Effect(op, c)
  }

  /** The contents of a 32-bit atomic after the logged operations. */
  function Replay32(start: int, log: seq<Entry>): int {
    if log == [] then start else Effect32(log[|log| - 1].op, Replay32(start, log[..|log| - 1])).0
  }

  ghost predicate Legal32(start: int, log: seq<Entry>) {
    forall k :: 0 <= k < |log| ==> log[k].response == Effect32(log[k].op, Replay32(start, log[..k])).1
  }

  lemma Effect32Agrees(op: Op, c: int)
    requires Is32(op) && Emulated32.In32(c)
    ensures Effect(op, c) == Effect32(op, c) && Emulated32.In32(Effect(op, c).0)
  {
    if op.On32? {
      Emulated32.LoopEmulates(op.op, c);
      Emulated32.True32Stays(op.op, c);
    }
  }

  lemma {:induction false} Replay32Agrees(start: word, log: seq<Entry>)
    requires Emulated32.In32(start) && forall e <- log :: Is32(e.op)
    ensures Replay(start, log) == Replay32(start, log) && Emulated32.In32(Replay(start, log))
  {
    if log != [] {
      Replay32Agrees(start, log[..|log| - 1]);
      Effect32Agrees(log[|log| - 1].op, Replay(start, log[..|log| - 1]));
    }
  }

  /** With interleaving, too: as long as everybody works on the 32-bit atomic, the word holds its
      sign-extended contents at every moment, and the history is one of a 32-bit atomic. */
  lemma Run32(run: seq<State>, nativeRead: bool, k: nat)
    requires Run(run, nativeRead) && k < |run| && Emulated32.In32(run[0].cell)
    requires forall e <- run[k].log :: Is32(e.op)
    ensures Emulated32.In32(run[k].cell) && run[k].cell == Replay32(run[0].cell, run[k].log)
    ensures Legal32(run[0].cell, run[k].log)
  {
    RunLinearized(run, nativeRead, k);
    var start, log := run[0].cell, run[k].log;
    Replay32Agrees(start, log);
    forall j | 0 <= j < |log|
      ensures log[j].response == Effect32(log[j].op, Replay32(start, log[..j])).1
    {
      Replay32Agrees(start, log[..j]);
      Effect32Agrees(log[j].op, Replay(start, log[..j]));
    }
  }
}
