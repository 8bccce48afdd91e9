/** The reader/writer spinlock on one 32-bit word, as an interleaving of the atomic operations
    of any number of threads.

    A thread is at the atomic operation it will do next, together with the local variable the
    operation depends on.  `exp` is what the thread read last, possibly long ago. */
module RwSpinlock {

  const FLAG := 0x4000_0000  // 1 << 30

  predicate HasFlag(x: int) {
    x / FLAG % 2 == 1
  }

  /** `x | FLAG`. */
  function SetFlag(x: int): int {
    if HasFlag(x) then x else x + FLAG
  }

  datatype Pc =
    | Idle
    | ReadTry(exp: int)  // cmpxchg(lock, exp + 1, exp)
    | ReadWait  // the word had the flag: read it again
    | Reading  // holds the lock; dec(lock) releases it
    | WriteTry(exp: int)  // cmpxchg(lock, exp | FLAG, exp)
    | WriteWait
    | Drain  // has set the flag; reads until only the flag is left
    | Writing  // holds the lock; set(lock, 0) releases it

  datatype State = State(word: int, threads: seq<Pc>)

  // ------------------------------------------------------------------ the code

  /** The spin loop on the flag, from a value just read. */
  function AfterRead(act: int, reader: bool): Pc {
    if HasFlag(act) then (if reader then ReadWait else WriteWait)
    else if reader then ReadTry(act) else WriteTry(act)
  }

  /** One atomic operation of a thread in the lock or about to release it: the new word and
      where the thread is then. */
  function Advance(word: int, pc: Pc): (int, Pc)
    requires !pc.Idle?
  {
    match pc
    case ReadTry(exp) => if word == exp then (exp + 1, Reading) else (word, AfterRead(word, true))
    case ReadWait => (word, AfterRead(word, true))
    case Reading => (word - 1, Idle)
    case WriteTry(exp) =>
      if word == exp then (SetFlag(exp), if SetFlag(word) != FLAG then Drain else Writing)
      else (word, AfterRead(word, false))
    case WriteWait => (word, AfterRead(word, false))
    case Drain => (word, if word != FLAG then Drain else Writing)
    case Writing => (0, Idle)
  }

  function Next(s: State, t: nat): State
    requires t < |s.threads| && !s.threads[t].Idle?
  {
    var (word, pc) := Advance(s.word, s.threads[t]);
    State(word, s.threads[t := pc])
  }

  ghost predicate Step(s: State, s': State, t: nat) {
    && t < |s.threads|
    && if s.threads[t].Idle? then
         s' == s.(threads := s.threads[t := ReadTry(0)]) || s' == s.(threads := s.threads[t := WriteTry(0)])
       else s' == Next(s, t)
  }

  ghost predicate Init(s: State) {
    s.word == 0 && |s.threads| < FLAG && forall t :: 0 <= t < |s.threads| ==> s.threads[t].Idle?
  }

  /** A run: thread sched[k] makes the step from run[k] to run[k + 1]. */
  ghost predicate Run(run: seq<State>, sched: seq<nat>) {
    && |run| == |sched| + 1 && Init(run[0])
    && forall k :: 0 <= k < |sched| ==> Step(run[k], run[k + 1], sched[k])
  }

  // ------------------------------------------------------------------ counting

  predicate IsReading(pc: Pc) {
    pc.Reading?
  }

  /** Owns the write flag. */
  predicate IsClaiming(pc: Pc) {
    pc.Drain? || pc.Writing?
  }

  function Count(ts: seq<Pc>, p: Pc -> bool): (n: nat)
    ensures n <= |ts|
  {
    if ts == [] then 0 else Count(ts[1..], p) + if p(ts[0]) then 1 else 0
  }

  lemma {:induction false} CountUpdate(ts: seq<Pc>, t: nat, pc: Pc, p: Pc -> bool)
    requires t < |ts|
    ensures Count(ts[t := pc], p) + (if p(ts[t]) then 1 else 0) == Count(ts, p) + if p(pc) then 1 else 0
  {
    if t == 0 {
      assert ts[t := pc][1..] == ts[1..];
    } else {
      assert ts[t := pc][1..] == ts[1..][t - 1 := pc];
      CountUpdate(ts[1..], t - 1, pc, p);
    }
  }

  lemma {:induction false} CountOne(ts: seq<Pc>, t: nat, p: Pc -> bool)
    requires t < |ts| && p(ts[t])
    ensures Count(ts, p) >= 1
    ensures forall u :: 0 <= u < |ts| && u != t && p(ts[u]) ==> Count(ts, p) >= 2
  {
    CountUpdate(ts, t, Idle, p);
    if t > 0 {
      CountOne(ts[1..], t - 1, p);
    }
    forall u | 0 <= u < |ts| && u != t && p(ts[u])
      ensures Count(ts, p) >= 2
    {
      if t == 0 {
        CountOne(ts[1..], u - 1, p);
      } else if u > 0 {
        assert ts[1..][u - 1] == ts[u];
      }
    }
  }

  lemma {:induction false} CountNone(ts: seq<Pc>, p: Pc -> bool)
    requires forall t :: 0 <= t < |ts| ==> !p(ts[t])
    ensures Count(ts, p) == 0
  {
    if ts != [] {
      CountNone(ts[1..], p);
    }
  }

  function Readers(s: State): nat {
    Count(s.threads, IsReading)
  }

  function Claimers(s: State): nat {
    Count(s.threads, IsClaiming)
  }

  // ----------------------------------------------------------------- invariant

  /** The word is the number of readers, plus the flag iff some thread owns it; one owner at
      most; a writer past its drain loop excludes readers; no remembered value has the flag. */
  ghost predicate Inv(s: State) {
    && |s.threads| < FLAG
    && Claimers(s) <= 1
    && s.word == Readers(s) + Claimers(s) * FLAG
    && (forall t :: 0 <= t < |s.threads| && s.threads[t].Writing? ==> Readers(s) == 0)
    && (forall t :: 0 <= t < |s.threads| && s.threads[t].ReadTry? ==> 0 <= s.threads[t].exp < FLAG)
    && (forall t :: 0 <= t < |s.threads| && s.threads[t].WriteTry? ==> 0 <= s.threads[t].exp < FLAG)
  }

  lemma FlagOfWord(s: State)
    requires Inv(s)
    ensures HasFlag(s.word) <==> Claimers(s) == 1
    ensures 0 <= s.word < 2 * FLAG
  {
  }

  lemma InitInv(s: State)
    requires Init(s)
    ensures Inv(s)
  {
    CountNone(s.threads, IsReading);
    CountNone(s.threads, IsClaiming);
  }

  lemma TriesKept(s: State, s': State, t: nat)
    requires Inv(s) && Step(s, s', t)
    ensures |s'.threads| == |s.threads|
    ensures forall u :: 0 <= u < |s'.threads| && s'.threads[u].ReadTry? ==> 0 <= s'.threads[u].exp < FLAG
    ensures forall u :: 0 <= u < |s'.threads| && s'.threads[u].WriteTry? ==> 0 <= s'.threads[u].exp < FLAG
  {
    FlagOfWord(s);
    hide Count;
  }

  /** What a step does to word and counts. */
  lemma WordKept(s: State, s': State, t: nat)
    requires Inv(s) && Step(s, s', t)
    ensures Claimers(s') <= 1 && s'.word == Readers(s') + Claimers(s') * FLAG
    ensures s'.threads[t].Writing? ==> Readers(s') == 0
    ensures Claimers(s) == 1 ==> Readers(s') <= Readers(s)
  {
    FlagOfWord(s);
    var pc, pc' := s.threads[t], s'.threads[t];
    CountUpdate(s.threads, t, pc', IsReading);
    CountUpdate(s.threads, t, pc', IsClaiming);
    if pc.Writing? {
      CountOne(s.threads, t, IsClaiming);
    }
    hide Count;
  }

  lemma StepInv(s: State, s': State, t: nat)
    requires Inv(s) && Step(s, s', t)
    ensures Inv(s')
  {
    TriesKept(s, s', t);
    WordKept(s, s', t);
    hide Count;
    forall u | 0 <= u < |s'.threads| && s'.threads[u].Writing?
      ensures Readers(s') == 0
    {
      if u != t {
        assert s.threads[u].Writing?;
        CountOne(s.threads, u, IsClaiming);
      }
    }
  }

  /** The invariant holds at every moment of every run. */
  lemma {:induction false} RunInv(run: seq<State>, sched: seq<nat>, k: nat)
    requires Run(run, sched) && k < |run|
    ensures Inv(run[k]) && |run[k].threads| == |run[0].threads|
    decreases k
  {
    if k == 0 {
      InitInv(run[0]);
    } else {
      RunInv(run, sched, k - 1);
      StepInv(run[k - 1], run[k], sched[k - 1]);
    }
  }

  /** Mutual exclusion: while a thread is writing, no other thread reads, writes or even owns
      the flag; two threads never own the flag together. */
  lemma Exclusion(run: seq<State>, sched: seq<nat>, k: nat, t: nat, u: nat)
    requires Run(run, sched) && k < |run| && t < |run[k].threads| && u < |run[k].threads| && t != u
    ensures run[k].threads[t].Writing? ==> !IsReading(run[k].threads[u]) && !IsClaiming(run[k].threads[u])
    ensures !(IsClaiming(run[k].threads[t]) && IsClaiming(run[k].threads[u]))
  {
    RunInv(run, sched, k);
    var s := run[k];
    if IsClaiming(s.threads[t]) {
      CountOne(s.threads, t, IsClaiming);
    }
    if IsReading(s.threads[u]) {
      CountOne(s.threads, u, IsReading);
    }
  }

  /** What the two unlock operations assert, and that the writer's plain store of 0 discards
      nothing but its own flag. */
  lemma UnlockAssertions(run: seq<State>, sched: seq<nat>, k: nat, t: nat)
    requires Run(run, sched) && k < |run| && t < |run[k].threads|
    ensures run[k].threads[t].Reading? ==> run[k].word >= 1
    ensures run[k].threads[t].Writing? ==>
      run[k].word == FLAG && Readers(run[k]) == 0 && Next(run[k], t).word == Readers(Next(run[k], t)) == 0
  {
    RunInv(run, sched, k);
    var s := run[k];
    if s.threads[t].Reading? {
      CountOne(s.threads, t, IsReading);
    } else if s.threads[t].Writing? {
      CountOne(s.threads, t, IsClaiming);
      CountUpdate(s.threads, t, Idle, IsReading);
    }
  }

  // --------------------------------------------------------------------- drain

  predicate IsReadUnlock(s: State, t: nat) {
    t < |s.threads| && s.threads[t].Reading?
  }

  /** Number of read unlocks among the steps i to j - 1. */
  function ReadUnlocks(run: seq<State>, sched: seq<nat>, i: nat, j: nat): nat
    requires i <= j <= |sched| && |run| == |sched| + 1
    decreases j
  {
    if i == j then 0 else
    ReadUnlocks(run, sched, i, j - 1) + (if IsReadUnlock(run[j - 1], sched[j - 1]) then 1 else 0)
  }

  /** Under an owned flag a step lowers the number of readers if it is a read unlock, and
      otherwise keeps it. */
  lemma OwnedStep(s: State, s': State, t: nat, w: nat)
    requires Inv(s) && Step(s, s', t) && w < |s.threads| && IsClaiming(s.threads[w])
    ensures Readers(s') + (if IsReadUnlock(s, t) then 1 else 0) == Readers(s)
  {
    CountOne(s.threads, w, IsClaiming);
    CountUpdate(s.threads, t, s'.threads[t], IsReading);
    FlagOfWord(s);
    hide Count;
  }

  /** While one thread owns the flag no reader is admitted: over any stretch of its ownership
      the number of readers falls by exactly the number of read unlocks. */
  lemma {:induction false} DrainCounts(run: seq<State>, sched: seq<nat>, i: nat, j: nat, w: nat)
    requires Run(run, sched) && i <= j <= |sched| && w < |run[0].threads|
    requires forall k :: i <= k <= j ==> |run[k].threads| == |run[0].threads| && IsClaiming(run[k].threads[w])
    ensures Readers(run[j]) + ReadUnlocks(run, sched, i, j) == Readers(run[i])
    decreases j
  {
    hide Inv, Step, Readers, Init;
    if i < j {
      DrainCounts(run, sched, i, j - 1, w);
      RunInv(run, sched, j - 1);
      OwnedStep(run[j - 1], run[j], sched[j - 1], w);
    }
  }

  /** The drain loop ends at the owner's next read exactly when the last reader has left. */
  lemma DrainEnds(run: seq<State>, sched: seq<nat>, k: nat, w: nat)
    requires Run(run, sched) && k < |run| && w < |run[k].threads| && run[k].threads[w].Drain?
    ensures Next(run[k], w).threads[w].Writing? <==> Readers(run[k]) == 0
  {
    RunInv(run, sched, k);
    CountOne(run[k].threads, w, IsClaiming);
  }

  // ------------------------------------------------------------------ progress

  /** Thread t runs alone for n steps. */
  function Alone(s: State, t: nat, n: nat): State
    requires t < |s.threads| && !s.threads[t].Idle? && !s.threads[t].Reading? && !s.threads[t].Writing?
    decreases n
  {
    if n == 0 then s else
    var s' := Next(s, t);
    if s'.threads[t].Reading? || s'.threads[t].Writing? then s' else Alone(s', t, n - 1)
  }

  predicate IsTrying(pc: Pc) {
    pc.ReadTry? || pc.ReadWait? || pc.WriteTry? || pc.WriteWait?
  }

  /** No stale value can keep a lone thread out: once nobody owns the flag, a thread that runs
      alone has the lock after at most two operations if it reads; if it writes, it owns the
      flag after two and has the lock after three if and only if there are no readers. */
  lemma AloneAcquires(run: seq<State>, sched: seq<nat>, k: nat, t: nat)
    requires Run(run, sched) && k < |run| && t < |run[k].threads|
    requires IsTrying(run[k].threads[t]) && Claimers(run[k]) == 0
    ensures var s := run[k];
            var reader := s.threads[t].ReadTry? || s.threads[t].ReadWait?;
            && (reader ==> Alone(s, t, 2).threads[t].Reading?)
            && (!reader ==> IsClaiming(Alone(s, t, 2).threads[t]))
            && (!reader ==> (Alone(s, t, 3).threads[t].Writing? <==> Readers(s) == 0))
  {
    RunInv(run, sched, k);
    var s := run[k];
    FlagOfWord(s);
    var s1 := Next(s, t);
    if s1.word == s.word {
      var s2 := Next(s1, t);
      assert Alone(s, t, 2) == Alone(s1, t, 1);
      assert Alone(s1, t, 1) == s2;
      assert Alone(s, t, 3) == Alone(s1, t, 2);
      assert IsTrying(s1.threads[t]) && s1.threads[t].exp == s.word;
    }
  }

  // -------------------------------------------------------------------- calls

  /** In a read lock, or holding the lock as a reader. */
  predicate ReadSide(pc: Pc) {
    pc.ReadTry? || pc.ReadWait? || pc.Reading?
  }

  /** In a write lock, or holding the lock as a writer. */
  predicate WriteSide(pc: Pc) {
    pc.WriteTry? || pc.WriteWait? || pc.Drain? || pc.Writing?
  }

  lemma SidesKept(s: State, s': State, t: nat, u: nat)
    requires Step(s, s', t) && u < |s.threads|
    ensures |s'.threads| == |s.threads|
    ensures !s.threads[u].Idle? && !s'.threads[u].Idle? ==>
      (ReadSide(s.threads[u]) <==> ReadSide(s'.threads[u])) && (WriteSide(s.threads[u]) <==> WriteSide(s'.threads[u]))
    ensures !s.threads[u].Idle? && s'.threads[u].Idle? ==> s.threads[u].Reading? || s.threads[u].Writing?
  {
  }

  /** A call keeps its kind: from the call until the unlock a thread that called the read lock
      tries to read or reads, and one that called the write lock tries to write, drains or
      writes.  So a read lock ends as a reader and a write lock as a writer. */
  lemma {:induction false} CallKeepsKind(run: seq<State>, sched: seq<nat>, i: nat, j: nat, t: nat)
    requires Run(run, sched) && i <= j < |run| && t < |run[0].threads|
    requires forall k :: i <= k <= j ==> |run[k].threads| == |run[0].threads| && !run[k].threads[t].Idle?
    ensures ReadSide(run[i].threads[t]) ==> ReadSide(run[j].threads[t])
    ensures WriteSide(run[i].threads[t]) ==> WriteSide(run[j].threads[t])
    decreases j
  {
    if i < j {
      CallKeepsKind(run, sched, i, j - 1, t);
      SidesKept(run[j - 1], run[j], sched[j - 1], t);
    }
  }

  /** Nobody leaves but from the lock, by its unlock. */
  lemma LeavesFromLock(run: seq<State>, sched: seq<nat>, k: nat, t: nat)
    requires Run(run, sched) && k < |sched| && t < |run[k].threads|
    ensures |run[k + 1].threads| == |run[k].threads|
    ensures !run[k].threads[t].Idle? && run[k + 1].threads[t].Idle? ==>
      sched[k] == t && (run[k].threads[t].Reading? || run[k].threads[t].Writing?)
  {
    SidesKept(run[k], run[k + 1], sched[k], t);
  }

  /** While the flag stays owned a call only waits. */
  lemma {:induction false} WaitsWhileOwned(run: seq<State>, sched: seq<nat>, i: nat, j: nat, t: nat)
    requires Run(run, sched) && i <= j < |run| && t < |run[0].threads|
    requires forall k :: i <= k <= j ==> |run[k].threads| == |run[0].threads| && Claimers(run[k]) == 1
    requires IsTrying(run[i].threads[t])
    ensures IsTrying(run[j].threads[t])
    decreases j
  {
    if i < j {
      WaitsWhileOwned(run, sched, i, j - 1, t);
      RunInv(run, sched, j - 1);
      StaysTrying(run[j - 1], run[j], sched[j - 1], t);
    }
  }

  lemma StaysTrying(s: State, s': State, t: nat, u: nat)
    requires Inv(s) && Step(s, s', t) && u < |s.threads| && Claimers(s) == 1 && IsTrying(s.threads[u])
    ensures |s'.threads| == |s.threads| && IsTrying(s'.threads[u])
  {
    FlagOfWord(s);
    assert s.word >= FLAG;
    hide Count;
  }

  /** What an operation of a call does to the word, and what it goes on with: a lock adds 1 or
      2^30 to it, an unlock takes that away, and everything else leaves it.  After a failure the
      thread waits if it saw the flag, and otherwise tries with the word it saw. */
  lemma OneOperation(s: State, t: nat)
    requires Inv(s) && t < |s.threads| && !s.threads[t].Idle?
    ensures var pc, s' := s.threads[t], Next(s, t);
            var pc' := s'.threads[t];
            && s'.word - s.word ==
                 (if !pc.Reading? && pc'.Reading? then 1 else 0) - (if pc.Reading? then 1 else 0)
                 + (if !IsClaiming(pc) && IsClaiming(pc') then 0x4000_0000 else 0)
                 - (if pc.Writing? then 0x4000_0000 else 0)
            && (IsTrying(pc) && IsTrying(pc') ==>
                  if s.word >= 0x4000_0000 then pc'.ReadWait? || pc'.WriteWait?
                  else (pc'.ReadTry? || pc'.WriteTry?) && pc'.exp == s.word)
  {
    FlagOfWord(s);
    if s.threads[t].Writing? {
      CountOne(s.threads, t, IsClaiming);
    }
    hide Count;
  }

  /** An idle thread can call either lock; nothing else starts a call. */
  lemma CallsStart(s: State, s': State, t: nat)
    requires t < |s.threads| && s.threads[t].Idle?
    ensures Step(s, s', t) <==>
      || s' == State(s.word, s.threads[t := ReadTry(0)])
      || s' == State(s.word, s.threads[t := WriteTry(0)])
  {
  }

  /** A call on a free lock takes it with its first operation. */
  lemma Uncontended(s: State, s1: State, t: nat)
    requires Inv(s) && s.word == 0 && Step(s, s1, t) && s.threads[t].Idle?
    ensures s1.word == 0 && IsTrying(s1.threads[t])
    ensures var s2 := Next(s1, t);
            if ReadSide(s1.threads[t]) then s2.threads[t].Reading? && s2.word == 1
            else s2.threads[t].Writing? && s2.word == 0x4000_0000
  {
  }
}
