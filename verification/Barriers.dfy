/** Barrier variants of atomic operations, derived from whichever native variants exist by
    memory barriers in front of and behind the native operation.

    An execution order is any transitive relation on the accesses of a program that respects
    the memory barriers, the order inside the atomic operation and what the native variant
    promises.  The derived operation has to order what its own variant promises. */
module Barriers {

  datatype Variant = Plain | Rb | Wb | Acqb | Relb | Mb

  /** Operations by the kind of access they begin and end with. */
  datatype Family = ReadModifyWrite | Reads | Sets | Inits

  datatype Kind = Load | Store

  /** A sparc-v9 style barrier: which kinds of earlier and later accesses it orders. */
  datatype Mask = Mask(loadLoad: bool, loadStore: bool, storeLoad: bool, storeStore: bool)

  const NO_BARRIER := Mask(false, false, false, false)

  predicate Covers(m: Mask, earlier: Kind, later: Kind) {
    match (earlier, later)
    case (Load, Load) => m.loadLoad
    case (Load, Store) => m.loadStore
    case (Store, Load) => m.storeLoad
    case (Store, Store) => m.storeStore
  }

  // -------------------------------------------------------------------- the tables

  /** The order in which the native variants are tried; the same for all operations. */
  function Preference(want: Variant): (s: seq<Variant>)
    ensures |s| == 6
  {
    match want
    case Plain => [Plain, Rb, Wb, Acqb, Relb, Mb]
    case Rb => [Rb, Plain, Mb, Wb, Acqb, Relb]
    case Wb => [Wb, Plain, Mb, Rb, Acqb, Relb]
    case Acqb => [Acqb, Rb, Plain, Mb, Wb, Relb]
    case Relb => [Relb, Wb, Plain, Mb, Rb, Acqb]
    case Mb => [Mb, Relb, Acqb, Wb, Rb, Plain]
  }

  function FirstOf(s: seq<Variant>, natives: set<Variant>): (v: Variant)
    requires exists k :: 0 <= k < |s| && s[k] in natives
    ensures v in natives
  {
    if s[0] in natives then s[0] else FirstOf(s[1..], natives)
  }

  lemma SomeVariant(want: Variant, natives: set<Variant>)
    requires natives != {}
    ensures exists k :: 0 <= k < |Preference(want)| && Preference(want)[k] in natives
  {
    var v :| v in natives;
    var s := Preference(want);
    assert v == s[0] || v == s[1] || v == s[2] || v == s[3] || v == s[4] || v == s[5];
  }

  function Choose(want: Variant, natives: set<Variant>): (v: Variant)
    requires natives != {}
    ensures v in natives
  {
    SomeVariant(want, natives);
    FirstOf(Preference(want), natives)
  }

  /** The barrier in front that keeps everything earlier in front of an operation. */
  function FullBefore(f: Family): Mask {
    match f
    case ReadModifyWrite => Mask(true, false, true, false)
    case Reads => Mask(true, false, true, false)
    case Sets => Mask(false, true, false, true)
    case Inits => Mask(true, true, true, true)
  }

  /** The barrier behind that keeps everything later behind an operation. */
  function FullAfter(f: Family): Mask {
    match f
    case ReadModifyWrite => Mask(true, true, true, true)
    case Reads => Mask(true, true, false, false)
    case Sets => Mask(false, false, true, true)
    case Inits => Mask(true, true, true, true)
  }

  function BarrierBefore(f: Family, want: Variant, native: Variant): Mask {
    if native == want || native == Mb then NO_BARRIER
    else match want
    case Wb => Mask(false, false, false, true)
    case Relb => if native == Wb then FullBefore(f).(storeStore := false) else FullBefore(f)
    case Mb =>
      if native == Relb then NO_BARRIER
      else if native == Wb then FullBefore(f).(storeStore := false) else FullBefore(f)
    case _ => NO_BARRIER
  }

  function BarrierAfter(f: Family, want: Variant, native: Variant): Mask {
    if native == want || native == Mb then NO_BARRIER
    else match want
    case Rb => Mask(true, false, false, false)
    case Acqb => if native == Rb then FullAfter(f).(loadLoad := false) else FullAfter(f)
    case Mb =>
      if native == Acqb then NO_BARRIER
      else if native == Rb then FullAfter(f).(loadLoad := false) else FullAfter(f)
    case _ => NO_BARRIER
  }

  // ----------------------------------------------------------------- program orders

  datatype Event = Access(kind: Kind) | Membar(mask: Mask)

  type Before = (nat, nat) -> bool  // places in a program: the first is ordered before the second

  ghost predicate Transitive(hb: Before) {
    forall i, j, k :: hb(i, j) && hb(j, k) ==> hb(i, k)
  }

  ghost predicate RespectsMembars(p: seq<Event>, hb: Before) {
    forall i, m, j | 0 <= i < m < j < |p| && p[i].Access? && p[m].Membar? && p[j].Access? ::
      Covers(p[m].mask, p[i].kind, p[j].kind) ==> hb(i, j)
  }

  ghost predicate InOrder(lo: nat, hi: nat, hb: Before) {
    forall i, j | lo <= i < j < hi :: hb(i, j)
  }

  ghost predicate LoadsOrdered(p: seq<Event>, before: nat, lo: nat, hi: nat, hb: Before)
    requires before <= lo <= hi <= |p|
  {
    forall i, j | (0 <= i < before || lo <= i < hi) && hi <= j < |p| ::
      p[i] == Access(Load) && p[j] == Access(Load) ==> hb(i, j)
  }

  ghost predicate StoresOrdered(p: seq<Event>, before: nat, lo: nat, hb: Before)
    requires before <= lo <= |p|
  {
    forall i, j | 0 <= i < before && lo <= j < |p| ::
      p[i] == Access(Store) && p[j] == Access(Store) ==> hb(i, j)
  }

  ghost predicate LaterBehind(p: seq<Event>, lo: nat, hi: nat, hb: Before)
    requires lo <= hi <= |p|
  {
    forall i, j | lo <= i < hi <= j < |p| :: p[i].Access? && p[j].Access? ==> hb(i, j)
  }

  ghost predicate EarlierInFront(p: seq<Event>, before: nat, lo: nat, hi: nat, hb: Before)
    requires before <= lo <= hi <= |p|
  {
    forall i, j | 0 <= i < before && lo <= j < hi :: p[i].Access? && p[j].Access? ==> hb(i, j)
  }

  /** What a variant promises for an operation at p[lo..hi] and the accesses in p[..before],
      as the interface documents it. */
  ghost predicate Promise(v: Variant, p: seq<Event>, before: nat, lo: nat, hi: nat, hb: Before)
    requires before <= lo <= hi <= |p|
  {
    match v
    case Plain => true
    case Rb => LoadsOrdered(p, before, lo, hi, hb)
    case Wb => StoresOrdered(p, before, lo, hb)
    case Acqb => LaterBehind(p, lo, hi, hb)
    case Relb => EarlierInFront(p, before, lo, hi, hb)
    case Mb => LaterBehind(p, lo, hi, hb) && EarlierInFront(p, before, lo, hi, hb)
  }

  /** The documentation's words: a read barrier orders loads before the operation and in it in
      front of loads behind it; a write barrier orders stores before it in front of stores in it
      and behind it; an acquire barrier lets nothing from behind into the operation or over it, a
      release barrier nothing from before; a full barrier lets nothing over it either way. */
  lemma PromiseInWords(p: seq<Event>, before: nat, lo: nat, hi: nat, hb: Before, i: nat, j: nat)
    requires before <= lo < hi <= |p| && i < |p| && j < |p| && p[i].Access? && p[j].Access?
    ensures Promise(Rb, p, before, lo, hi, hb) && (i < before || lo <= i < hi) && hi <= j ==>
      p[i].kind == p[j].kind == Load ==> hb(i, j)
    ensures Promise(Wb, p, before, lo, hi, hb) && i < before && lo <= j ==>
      p[i].kind == p[j].kind == Store ==> hb(i, j)
    ensures Promise(Acqb, p, before, lo, hi, hb) && lo <= i < hi <= j ==> hb(i, j)
    ensures Promise(Relb, p, before, lo, hi, hb) && i < before && lo <= j < hi ==> hb(i, j)
    ensures Promise(Mb, p, before, lo, hi, hb) && ((lo <= i < hi <= j) || (i < before && lo <= j < hi)) ==> hb(i, j)
    ensures Promise(Mb, p, before, lo, hi, hb) && Transitive(hb) && p[lo].Access? && i < before && hi <= j ==> hb(i, j)
  {
    assert Promise(Mb, p, before, lo, hi, hb) && Transitive(hb) && p[lo].Access? && i < before && hi <= j ==>
      hb(i, lo) && hb(lo, j);
  }

  /** With which accesses an operation begins and ends. */
  ghost predicate Profile(f: Family, p: seq<Event>, lo: nat, hi: nat)
    requires lo < hi <= |p|
  {
    match f
    case ReadModifyWrite => p[lo] == Access(Load)
    case Reads => p[lo] == Access(Load) && p[hi - 1] == Access(Load)
    case Sets => p[lo] == Access(Store) && p[hi - 1] == Access(Store)
    case Inits => true
  }

  /** The emitted code within a program: the caller's accesses up to `before`, a barrier, any
      failed attempts of a retry loop, the native operation, a barrier, anything. */
  ghost predicate Emitted(f: Family, want: Variant, native: Variant, p: seq<Event>, before: nat, lo: nat, hi: nat) {
    Between(f, BarrierBefore(f, want, native), BarrierAfter(f, want, native), p, before, lo, hi)
  }

  /** A native operation between two barriers. */
  ghost predicate Between(f: Family, front: Mask, back: Mask, p: seq<Event>, before: nat, lo: nat, hi: nat) {
    && before < lo < hi < |p| && p[before] == Membar(front) && p[hi] == Membar(back)
    && (forall k :: lo <= k < hi ==> p[k].Access?)
    && Profile(f, p, lo, hi)
  }

  /** The orders the hardware may produce. */
  ghost predicate Possible(native: Variant, p: seq<Event>, lo: nat, hi: nat, hb: Before)
    requires lo <= hi <= |p|
  {
    Transitive(hb) && RespectsMembars(p, hb) && InOrder(lo, hi, hb) && Promise(native, p, lo, lo, hi, hb)
  }

  // ------------------------------------------------------------------------- proofs

  /** A barrier in front orders earlier accesses before the first access of the operation, and
      so before all of it. */
  lemma FrontBarrier(f: Family, want: Variant, native: Variant, p: seq<Event>, before: nat, lo: nat, hi: nat, hb: Before)
    requires want.Relb? || want.Mb?
    requires Emitted(f, want, native, p, before, lo, hi) && Possible(native, p, lo, hi, hb)
    ensures EarlierInFront(p, before, lo, hi, hb)
  {
    if !native.Relb? && !native.Mb? {
      forall i, j | 0 <= i < before && lo <= j < hi && p[i].Access? && p[j].Access?
        ensures hb(i, j)
      {
        var first := if f.Inits? then j else lo;
        assert hb(i, first) by {
          assert (native.Wb? && p[i] == p[first] == Access(Store)) || Covers(p[before].mask, p[i].kind, p[first].kind);
        }
        assert first == j || hb(first, j);
      }
    }
  }

  lemma BackBarrier(f: Family, want: Variant, native: Variant, p: seq<Event>, before: nat, lo: nat, hi: nat, hb: Before)
    requires want.Acqb? || want.Mb?
    requires Emitted(f, want, native, p, before, lo, hi) && Possible(native, p, lo, hi, hb)
    ensures LaterBehind(p, lo, hi, hb)
  {
    if !native.Acqb? && !native.Mb? {
      forall i, j | lo <= i < hi <= j < |p| && p[i].Access? && p[j].Access?
        ensures hb(i, j)
      {
        var last := if f.ReadModifyWrite? || f.Inits? then i else hi - 1;
        assert hb(last, j) by {
          assert (native.Rb? && p[last] == p[j] == Access(Load)) || Covers(p[hi].mask, p[last].kind, p[j].kind);
        }
        assert last == i || hb(i, last);
      }
    }
  }

  /** A full barrier variant orders what the two one-sided store and load variants order. */
  lemma MbOrders(p: seq<Event>, before: nat, lo: nat, hi: nat, hb: Before)
    requires before <= lo < hi <= |p| && (forall k :: lo <= k < hi ==> p[k].Access?)
    requires Transitive(hb) && InOrder(lo, hi, hb) && Promise(Mb, p, lo, lo, hi, hb)
    ensures LoadsOrdered(p, before, lo, hi, hb) && StoresOrdered(p, before, lo, hb)
  {
    forall i, j | 0 <= i < lo && hi <= j < |p| && p[i].Access? && p[j].Access?
      ensures hb(i, j)
    {
      assert hb(i, lo) && hb(lo, j);
    }
  }

  /** Every variant of every operation, derived from any nonempty set of native variants,
      orders what it promises, in every program and every possible order. */
  lemma DerivedSuffices(f: Family, want: Variant, natives: set<Variant>,
                        p: seq<Event>, before: nat, lo: nat, hi: nat, hb: Before)
    requires natives != {}
    requires Emitted(f, want, Choose(want, natives), p, before, lo, hi)
    requires Possible(Choose(want, natives), p, lo, hi, hb)
    ensures Promise(want, p, before, lo, hi, hb)
  {
    hide Choose;
    var native := Choose(want, natives);
    if native.Mb? {
      MbOrders(p, before, lo, hi, hb);
    }
    if want.Relb? || want.Mb? {
      FrontBarrier(f, want, native, p, before, lo, hi, hb);
    }
    if want.Acqb? || want.Mb? {
      BackBarrier(f, want, native, p, before, lo, hi, hb);
    }
  }

  // ----------------------------------------------------------------- nothing to spare

  /** The barrier m lacks something that n has, and has nothing that n lacks. */
  predicate Weaker(m: Mask, n: Mask) {
    && m != n && (m.loadLoad ==> n.loadLoad) && (m.loadStore ==> n.loadStore)
    && (m.storeLoad ==> n.storeLoad) && (m.storeStore ==> n.storeStore)
  }

  /** The kind of an earlier and of a later access that n orders and m does not. */
  function Missing(m: Mask, n: Mask): (r: (Kind, Kind))
    requires Weaker(m, n)
    ensures Covers(n, r.0, r.1) && !Covers(m, r.0, r.1)
  {
    if n.loadLoad && !m.loadLoad then (Load, Load)
    else if n.loadStore && !m.loadStore then (Load, Store)
    else if n.storeLoad && !m.storeLoad then (Store, Load)
    else (Store, Store)
  }

  /** With these two barriers some program can run in an order that breaks the promise. */
  ghost predicate Breaks(f: Family, want: Variant, native: Variant, front: Mask, back: Mask) {
    exists p: seq<Event>, before: nat, lo: nat, hi: nat, hb: Before ::
      && Between(f, front, back, p, before, lo, hi) && Possible(native, p, lo, hi, hb)
      && !Promise(want, p, before, lo, hi, hb)
  }

  /** An order that only a one-sided native variant asks for. */
  function OneSided(native: Variant): Before {
    (i, j) => (native.Acqb? && i == 2 && j == 4) || (native.Relb? && i == 0 && j == 2)
  }

  lemma StoresNeeded(f: Family, native: Variant, m: Mask)
    requires !native.Wb? && !native.Mb? && Weaker(m, Mask(false, false, false, true))
    ensures Breaks(f, Wb, native, m, NO_BARRIER)
  {
    var p := [Access(Store), Membar(m), Access(if f.Sets? then Store else Load), Membar(NO_BARRIER), Access(Store)];
    var hb := OneSided(native);
    assert Between(f, m, NO_BARRIER, p, 1, 2, 3);
    assert RespectsMembars(p, hb);
    assert Promise(native, p, 2, 2, 3, hb);
    assert Possible(native, p, 2, 3, hb);
    assert !hb(0, 4) && !StoresOrdered(p, 1, 2, hb);
  }

  lemma LoadsNeeded(f: Family, native: Variant, m: Mask)
    requires !native.Rb? && !native.Mb? && Weaker(m, Mask(true, false, false, false))
    ensures Breaks(f, Rb, native, NO_BARRIER, m)
  {
    var p := [Access(Load), Membar(NO_BARRIER), Access(if f.Sets? then Store else Load), Membar(m), Access(Load)];
    var hb := OneSided(native);
    assert Between(f, NO_BARRIER, m, p, 1, 2, 3);
    assert RespectsMembars(p, hb);
    assert Promise(native, p, 2, 2, 3, hb);
    assert Possible(native, p, 2, 3, hb);
    assert !hb(0, 4) && !LoadsOrdered(p, 1, 2, 3, hb);
  }

  /** An earlier access of kind x slips behind the first access y of the operation. */
  lemma EarlierNeeded(f: Family, want: Variant, native: Variant, m: Mask, back: Mask, x: Kind, y: Kind)
    requires (want.Relb? || want.Mb?) && !native.Mb? && !native.Relb? && !Covers(m, x, y)
    requires native.Wb? ==> !(x == y == Store)
    requires match f case ReadModifyWrite => y == Load case Reads => y == Load case Sets => y == Store case Inits => true
    ensures Breaks(f, want, native, m, back)
  {
    var p := [Access(x), Membar(m), Access(y), Membar(back)];
    var hb: Before := (i, j) => false;
    assert Between(f, m, back, p, 1, 2, 3);
    assert RespectsMembars(p, hb);
    assert Promise(native, p, 2, 2, 3, hb);
    assert Possible(native, p, 2, 3, hb);
    assert !hb(0, 2) && !EarlierInFront(p, 1, 2, 3, hb);
  }

  /** A later access of kind y slips in front of the last access x of the operation. */
  lemma LaterNeeded(f: Family, want: Variant, native: Variant, front: Mask, m: Mask, x: Kind, y: Kind)
    requires (want.Acqb? || want.Mb?) && !native.Mb? && !native.Acqb? && !Covers(m, x, y)
    requires native.Rb? ==> !(x == y == Load)
    requires match f case ReadModifyWrite => x == Load case Reads => x == Load case Sets => x == Store case Inits => true
    ensures Breaks(f, want, native, front, m)
  {
    var p := [Membar(front), Access(x), Membar(m), Access(y)];
    var hb: Before := (i, j) => false;
    assert Between(f, front, m, p, 0, 1, 2);
    assert RespectsMembars(p, hb);
    assert Promise(native, p, 1, 1, 2, hb);
    assert Possible(native, p, 1, 2, hb);
    assert !hb(1, 3) && !LaterBehind(p, 1, 2, hb);
  }

  /** The same where the operation begins with a load and ends with a store. */
  lemma LaterThanStoreNeeded(want: Variant, native: Variant, front: Mask, m: Mask, y: Kind)
    requires (want.Acqb? || want.Mb?) && !native.Mb? && !native.Acqb? && !Covers(m, Store, y)
    ensures Breaks(ReadModifyWrite, want, native, front, m)
  {
    var p := [Membar(front), Access(Load), Access(Store), Membar(m), Access(y)];
    var hb: Before := (i, j) => i == 1 && (j == 2 || j == 4);
    assert Between(ReadModifyWrite, front, m, p, 0, 1, 3);
    assert RespectsMembars(p, hb);
    assert Promise(native, p, 1, 1, 3, hb);
    assert Possible(native, p, 1, 3, hb);
    assert !hb(2, 4) && !LaterBehind(p, 1, 3, hb);
  }

  /** No barrier in front can be weaker than it is. */
  lemma FrontIsNeeded(f: Family, want: Variant, native: Variant, m: Mask)
    requires Weaker(m, BarrierBefore(f, want, native))
    ensures Breaks(f, want, native, m, BarrierAfter(f, want, native))
  {
    hide Breaks;
    if want.Wb? {
      StoresNeeded(f, native, m);
    } else {
      var (x, y) := Missing(m, BarrierBefore(f, want, native));
      EarlierNeeded(f, want, native, m, BarrierAfter(f, want, native), x, y);
    }
  }

  /** No barrier behind can be weaker than it is. */
  lemma BackIsNeeded(f: Family, want: Variant, native: Variant, m: Mask)
    requires Weaker(m, BarrierAfter(f, want, native))
    ensures Breaks(f, want, native, BarrierBefore(f, want, native), m)
  {
    hide Breaks;
    var (x, y) := Missing(m, BarrierAfter(f, want, native));
    if want.Rb? {
      LoadsNeeded(f, native, m);
    } else if f.ReadModifyWrite? && x == Store {
      LaterThanStoreNeeded(want, native, BarrierBefore(f, want, native), m, y);
    } else {
      LaterNeeded(f, want, native, BarrierBefore(f, want, native), m, x, y);
    }
  }

  /** Which native variant is taken: the wanted one; else, for a one-sided barrier, the one that
      does half of it; then the plain one; then the full one; then the first of the others.  A
      full barrier is made of the strongest there is. */
  lemma ChoiceLaw(want: Variant, natives: set<Variant>)
    requires natives != {}
    ensures Choose(want, natives) ==
      if want in natives then want
      else if want == Mb then
        if Relb in natives then Relb else if Acqb in natives then Acqb
        else if Wb in natives then Wb else if Rb in natives then Rb else Plain
      else if want == Acqb && Rb in natives then Rb
      else if want == Relb && Wb in natives then Wb
      else if Plain in natives then Plain
      else if want != Plain && Mb in natives then Mb
      else if Rb in natives then Rb else if Wb in natives then Wb
      else if Acqb in natives then Acqb else if Relb in natives then Relb else Mb
  {
    SomeVariant(want, natives);
    FirstOfSix(Preference(want), natives);
  }

  lemma FirstOfSix(s: seq<Variant>, natives: set<Variant>)
    requires |s| == 6 && exists k :: 0 <= k < |s| && s[k] in natives
    ensures FirstOf(s, natives) ==
      if s[0] in natives then s[0] else if s[1] in natives then s[1] else if s[2] in natives then s[2]
      else if s[3] in natives then s[3] else if s[4] in natives then s[4] else s[5]
  {
    FirstOfSuffix(s, natives, 5);
    FirstOfSuffix(s, natives, 4);
    FirstOfSuffix(s, natives, 3);
    FirstOfSuffix(s, natives, 2);
    FirstOfSuffix(s, natives, 1);
    FirstOfSuffix(s, natives, 0);
    hide FirstOf;
    assert s[0..] == s;
  }

  lemma FirstOfSuffix(s: seq<Variant>, natives: set<Variant>, i: nat)
    requires i < |s|
    ensures s[i] in natives ==> Has(s[i..], natives) && FirstOf(s[i..], natives) == s[i]
    ensures s[i] !in natives && Has(s[i + 1..], natives) ==>
      Has(s[i..], natives) && FirstOf(s[i..], natives) == FirstOf(s[i + 1..], natives)
  {
    assert s[i..][0] == s[i] && s[i..][1..] == s[i + 1..];
    if s[i] !in natives && Has(s[i + 1..], natives) {
      var k :| 0 <= k < |s[i + 1..]| && s[i + 1..][k] in natives;
      assert s[i..][k + 1] in natives;
    }
  }

  predicate Has(s: seq<Variant>, natives: set<Variant>) {
    exists k :: 0 <= k < |s| && s[k] in natives
  }

  // -------------------------------------------------- which native operation is used

  /** The native variants of each operation; `update` stands for one of xchg, add_read,
      read_band and read_bor. */
  datatype Available = Available(cmpxchg: set<Variant>, xchg: set<Variant>, update: set<Variant>,
                                 read: set<Variant>, set_: set<Variant>, init: set<Variant>)

  datatype Operation = CmpXchgOp | XchgOp | UpdateOp | ReadOp | SetOp | InitOp

  /** Without native variants of its own an update is a retry loop around cmpxchg, a read a
      cmpxchg with equal operands, a set an xchg and an init a set. */
  function Source(op: Operation, a: Available): (Family, set<Variant>)
    decreases op.InitOp?, op.SetOp?
  {
    match op
    case CmpXchgOp => (ReadModifyWrite, a.cmpxchg)
    case XchgOp => (ReadModifyWrite, if a.xchg != {} then a.xchg else a.cmpxchg)
    case UpdateOp => (ReadModifyWrite, if a.update != {} then a.update else a.cmpxchg)
    case ReadOp => if a.read != {} then (Reads, a.read) else (ReadModifyWrite, a.cmpxchg)
    case SetOp => if a.set_ != {} then (Sets, a.set_) else Source(XchgOp, a)
    case InitOp => if a.init != {} then (Inits, a.init) else Source(SetOp, a)
  }

  /** Every operation uses native operations of its own if there are any; updates and reads fall
      back on cmpxchg, a set on xchg and so on cmpxchg, an init on set and so on. */
  lemma SourceLaw(a: Available)
    ensures Source(CmpXchgOp, a) == (ReadModifyWrite, a.cmpxchg)
    ensures Source(UpdateOp, a) == (ReadModifyWrite, if a.update == {} then a.cmpxchg else a.update)
    ensures Source(ReadOp, a) == if a.read == {} then (ReadModifyWrite, a.cmpxchg) else (Reads, a.read)
    ensures a.xchg == {} ==> Source(XchgOp, a) == Source(CmpXchgOp, a)
    ensures a.xchg != {} ==> Source(XchgOp, a) == (ReadModifyWrite, a.xchg)
    ensures a.set_ == {} ==> Source(SetOp, a) == Source(XchgOp, a)
    ensures a.set_ != {} ==> Source(SetOp, a) == (Sets, a.set_)
    ensures a.init == {} ==> Source(InitOp, a) == Source(SetOp, a)
    ensures a.init != {} ==> Source(InitOp, a) == (Inits, a.init)
  {
  }

  /** One native cmpxchg of any variant is enough for all variants of all operations. */
  lemma OneCmpXchgSuffices(op: Operation, want: Variant, a: Available,
                           p: seq<Event>, before: nat, lo: nat, hi: nat, hb: Before)
    requires a.cmpxchg != {}
    ensures var (f, natives) := Source(op, a);
            && natives != {}
            && (Emitted(f, want, Choose(want, natives), p, before, lo, hi)
                && Possible(Choose(want, natives), p, lo, hi, hb)
                ==> Promise(want, p, before, lo, hi, hb))
  {
    var (f, natives) := Source(op, a);
    if Emitted(f, want, Choose(want, natives), p, before, lo, hi) && Possible(Choose(want, natives), p, lo, hi, hb) {
      DerivedSuffices(f, want, natives, p, before, lo, hi, hb);
    }
  }
}
