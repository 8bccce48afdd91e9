/** 32-bit atomics kept in a 64-bit cell.  A value goes in by a cast that keeps it (sign
    extension) and comes out by a cast that wraps it into 32 bits.

    Words are signed integers of the ranges of `ethr_sint32_t` and `ethr_sint64_t`; bitwise
    operations are those of two's complement numbers, which do not depend on the width. */
module Emulated32 {

  const TWO_31 := 0x8000_0000
  const TWO_32 := 0x1_0000_0000

  predicate In32(x: int) {
    -TWO_31 <= x < TWO_31
  }

  predicate In64(x: int) {
    -TWO_31 * TWO_32 <= x < TWO_31 * TWO_32
  }

  /** `(ethr_sint32_t) x`. */
  function Wrap32(x: int): (r: int)
    ensures In32(r) && (In32(x) <==> r == x)
  {
    (x + TWO_31) % TWO_32 - TWO_31
  }

  /** 64-bit arithmetic. */
  function Wrap64(x: int): (r: int)
    ensures In64(r) && (In64(x) <==> r == x)
  {
    (x + TWO_31 * TWO_32) % (TWO_32 * TWO_32) - TWO_31 * TWO_32
  }

  // ---------------------------------------------------------- two's complement bits

  function Magnitude(x: int): nat {
    if x < 0 then -1 - x else x
  }

  function And(a: int, b: int): int
    decreases Magnitude(a) + Magnitude(b)
  {
    if Magnitude(a) == 0 && Magnitude(b) == 0 then (if a == 0 then 0 else b) else
    2 * And(a / 2, b / 2) + if a % 2 == 1 && b % 2 == 1 then 1 else 0
  }

  function Or(a: int, b: int): int {
    -1 - And(-1 - a, -1 - b)
  }

  /** Bit k of the two's complement representation. */
  function BitOf(x: int, k: nat): bool
    decreases k
  {
    if k == 0 then x % 2 == 1 else BitOf(x / 2, k - 1)
  }

  lemma {:induction false} AndBits(a: int, b: int, k: nat)
    ensures BitOf(And(a, b), k) <==> BitOf(a, k) && BitOf(b, k)
    decreases k
  {
    var r := And(a, b);
    if Magnitude(a) == 0 && Magnitude(b) == 0 {
      if k > 0 {
        AndBits(a, b, k - 1);
      }
    } else {
      assert r / 2 == And(a / 2, b / 2) && r % 2 == if a % 2 == 1 && b % 2 == 1 then 1 else 0;
      if k > 0 {
        AndBits(a / 2, b / 2, k - 1);
      }
    }
  }

  lemma {:induction false} ComplementBits(x: int, k: nat)
    ensures BitOf(-1 - x, k) <==> !BitOf(x, k)
    decreases k
  {
    if k > 0 {
      assert (-1 - x) / 2 == -1 - x / 2;
      ComplementBits(x / 2, k - 1);
    }
  }

  lemma OrBits(a: int, b: int, k: nat)
    ensures BitOf(Or(a, b), k) <==> BitOf(a, k) || BitOf(b, k)
  {
    ComplementBits(And(-1 - a, -1 - b), k);
    AndBits(-1 - a, -1 - b, k);
    ComplementBits(a, k);
    ComplementBits(b, k);
  }

  function Bound(k: nat): (n: nat)
    ensures n > 0
  {
    if k == 0 then 1 else 2 * Bound(k - 1)
  }

  lemma {:induction false} AndFits(a: int, b: int, k: nat)
    requires Magnitude(a) < Bound(k) && Magnitude(b) < Bound(k)
    ensures Magnitude(And(a, b)) < Bound(k)
    decreases k
  {
    if k > 0 {
      AndFits(a / 2, b / 2, k - 1);
    }
  }

  lemma BoundAt31()
    ensures Bound(31) == TWO_31
  {
    assert Bound(3) == 8 && Bound(5) == 0x20 && Bound(7) == 0x80 && Bound(9) == 0x200 && Bound(11) == 0x800;
    assert Bound(13) == 0x2000 && Bound(15) == 0x8000 && Bound(17) == 0x2_0000 && Bound(19) == 0x8_0000;
    assert Bound(21) == 0x20_0000 && Bound(23) == 0x80_0000 && Bound(25) == 0x200_0000 && Bound(27) == 0x800_0000;
    assert Bound(29) == 0x2000_0000;
  }

  lemma BitwiseIn32(a: int, b: int)
    requires In32(a) && In32(b)
    ensures In32(And(a, b)) && In32(Or(a, b))
  {
    BoundAt31();
    AndFits(a, b, 31);
    AndFits(-1 - a, -1 - b, 31);
  }

  // ---------------------------------------------------------------- operations

  datatype Op =
    | Read
    | Set(val: int)  // also init
    | Xchg(val: int)
    | CmpXchg(val: int, exp: int)
    | AddRead(val: int)
    | ReadBand(val: int)
    | ReadBor(val: int)

  predicate ValidOp(op: Op) {
    (op.Read? || In32(op.val)) && (op.CmpXchg? ==> In32(op.exp))
  }

  /** The operation on a real 32-bit atomic: contents afterwards and result (0 for set). */
  function True32(op: Op, c: int): (int, int) {
    match op
    case Read => (c, c)
    case Set(val) => (val, 0)
    case Xchg(val) => (val, c)
    case CmpXchg(val, exp) => (if c == exp then val else c, c)
    case AddRead(val) => (Wrap32(c + val), Wrap32(c + val))
    case ReadBand(val) => (And(c, val), c)
    case ReadBor(val) => (Or(c, val), c)
  }

  /** What a 32-bit atomic does, in numbers and bits: c before, after it, and the result. */
  ghost predicate Lawful32(op: Op, c: int, after: int, result: int) {
    match op
    case Read => after == result == c
    case Set(val) => after == val
    case Xchg(val) => after == val && result == c
    case CmpXchg(val, exp) => result == c && after == if c == exp then val else c
    case AddRead(val) =>
      result == after && -0x8000_0000 <= after < 0x8000_0000 && (after - (c + val)) % 0x1_0000_0000 == 0
    case ReadBand(val) => result == c && forall k: nat :: BitOf(after, k) <==> BitOf(c, k) && BitOf(val, k)
    case ReadBor(val) => result == c && forall k: nat :: BitOf(after, k) <==> BitOf(c, k) || BitOf(val, k)
  }

  lemma True32IsLawful(op: Op, c: int)
    ensures Lawful32(op, c, True32(op, c).0, True32(op, c).1)
  {
    hide And, Or, BitOf;
    match op
    case ReadBand(val) =>
      forall k: nat ensures BitOf(And(c, val), k) <==> BitOf(c, k) && BitOf(val, k) {
        AndBits(c, val, k);
      }
    case ReadBor(val) =>
      forall k: nat ensures BitOf(Or(c, val), k) <==> BitOf(c, k) || BitOf(val, k) {
        OrBits(c, val, k);
      }
    case _ =>
  }

  /** The two ranges, and that wrapping into 32 bits keeps a number up to multiples of 2^32. */
  lemma Ranges(x: int)
    ensures In32(x) <==> -0x8000_0000 <= x < 0x8000_0000
    ensures In64(x) <==> -0x8000_0000_0000_0000 <= x < 0x8000_0000_0000_0000
    ensures (Wrap32(x) - x) % 0x1_0000_0000 == 0
    ensures (Wrap64(x) - x) % 0x1_0000_0000_0000_0000 == 0
  {
  }

  /** The operation by the native 64-bit operation on widened operands. */
  function Native(op: Op, y: int): (int, int) {
    match op
    case Read => (y, Wrap32(y))
    case Set(val) => (val, 0)
    case Xchg(val) => (val, Wrap32(y))
    case CmpXchg(val, exp) => (if y == exp then val else y, Wrap32(y))
    case AddRead(val) => (Wrap64(y + val), Wrap32(Wrap64(y + val)))
    case ReadBand(val) => (And(y, val), Wrap32(y))
    case ReadBor(val) => (Or(y, val), Wrap32(y))
  }

  /** The successful turn of the cmpxchg retry loop: the body works on the narrowed value and
      its result is widened again.  Read and cmpxchg have no loop. */
  function Loop(op: Op, y: int): (int, int) {
    if op.Read? || op.CmpXchg? then Native(op, y) else True32(op, Wrap32(y))
  }

  predicate Overflows(op: Op, c: int) {
    op.AddRead? && !In32(c + op.val)
  }

  lemma True32Stays(op: Op, c: int)
    requires ValidOp(op) && In32(c)
    ensures In32(True32(op, c).0) && In32(True32(op, c).1)
  {
    if op.ReadBand? || op.ReadBor? {
      BitwiseIn32(c, op.val);
    }
  }

  /** A native operation on a good cell always returns the 32-bit result, and leaves a good
      cell exactly when it is no overflowing addition. */
  lemma NativeEmulates(op: Op, c: int)
    requires ValidOp(op) && In32(c)
    ensures Native(op, c).1 == True32(op, c).1
    ensures Native(op, c).0 == True32(op, c).0 <==> !Overflows(op, c)
    ensures In32(Native(op, c).0) <==> !Overflows(op, c)
  {
    True32Stays(op, c);
  }

  /** The retry loop emulates a 32-bit atomic on a good cell without any condition; and even
      on a cell spoilt by an overflow it works on the 32-bit value meant and repairs it. */
  lemma LoopEmulates(op: Op, y: int)
    requires ValidOp(op)
    ensures In32(y) ==> Loop(op, y) == True32(op, y)
    ensures !op.Read? && !op.CmpXchg? ==> Loop(op, y) == True32(op, Wrap32(y)) && In32(Loop(op, y).0)
  {
    True32Stays(op, Wrap32(y));
  }

  /** What an overflow breaks: a thread that reads the value and then exchanges it against
      what it read does not get through, although nobody interferes. */
  lemma OverflowBlocksCmpXchg(c: int, val: int, new_: int)
    requires In32(c) && In32(val) && In32(new_) && Overflows(AddRead(val), c)
    ensures var y := Native(AddRead(val), c).0;
            var seen := Native(Read, y).1;
            seen == True32(AddRead(val), c).0 && Native(CmpXchg(new_, seen), y).0 == y != new_
  {
  }

  // ------------------------------------------------------------------ spoilt cells

  lemma AndStep(a: int, b: int)
    ensures And(a, b) == 2 * And(a / 2, b / 2) + if a % 2 == 1 && b % 2 == 1 then 1 else 0
  {
  }

  /** The low k bits of the operands decide the low k bits of the result. */
  lemma {:induction false} AndLowBits(a: int, b: int, k: nat, m: int) returns (n: int)
    ensures And(a + Bound(k) * m, b) == And(a, b) + Bound(k) * n
    decreases k
  {
    hide And;
    if k == 0 {
      n := And(a + m, b) - And(a, b);
    } else {
      var d := Bound(k - 1) * m;
      n := AndLowBits(a / 2, b / 2, k - 1, m);
      HalfShifted(a, d);
      AndStep(a, b);
      AndStep(a + 2 * d, b);
      TwiceProduct(Bound(k - 1), m);
      TwiceProduct(Bound(k - 1), n);
    }
  }

  lemma TwiceProduct(x: int, m: int)
    ensures 2 * x * m == 2 * (x * m)
  {
  }

  lemma HalfShifted(a: int, d: int)
    ensures (a + 2 * d) / 2 == a / 2 + d && (a + 2 * d) % 2 == a % 2
  {
  }

  lemma WrapPeriod(x: int, n: int)
    ensures Wrap32(x + TWO_32 * n) == Wrap32(x)
  {
  }

  lemma WrapOffset(x: int) returns (n: int)
    ensures x == Wrap32(x) + TWO_32 * n
  {
    n := (x + TWO_31) / TWO_32;
  }

  lemma BoundAt32()
    ensures Bound(32) == TWO_32
  {
    BoundAt31();
  }

  lemma AndOnSpoilt(y: int, val: int)
    ensures Wrap32(And(y, val)) == Wrap32(And(Wrap32(y), val))
  {
    hide And, Bound;
    BoundAt32();
    var m := WrapOffset(y);
    var n := AndLowBits(Wrap32(y), val, 32, m);
    WrapPeriod(And(Wrap32(y), val), n);
  }

  lemma WrapComplement(x: int)
    ensures Wrap32(-1 - x) == -1 - Wrap32(x)
  {
  }

  /** Bitwise operations on a cell are bitwise operations on the 32-bit value meant. */
  lemma BitwiseOnSpoilt(y: int, val: int)
    requires In32(val)
    ensures Wrap32(And(y, val)) == And(Wrap32(y), val) && Wrap32(Or(y, val)) == Or(Wrap32(y), val)
  {
    hide And;
    BitwiseIn32(Wrap32(y), val);
    AndOnSpoilt(y, val);
    AndOnSpoilt(-1 - y, -1 - val);
    WrapComplement(y);
    WrapComplement(And(-1 - y, -1 - val));
    WrapComplement(And(-1 - Wrap32(y), -1 - val));
  }

  lemma AddOnSpoilt(y: int, val: int)
    ensures Wrap32(Wrap64(y + val)) == Wrap32(Wrap32(y) + val)
  {
    var m := WrapOffset(y);
    WrapPeriod(Wrap32(y) + val, m);
    var n := (y + val + TWO_31 * TWO_32) / (TWO_32 * TWO_32);
    assert y + val == Wrap64(y + val) + TWO_32 * (TWO_32 * n);
    WrapPeriod(Wrap64(y + val), TWO_32 * n);
  }

  /** The exchange a 32-bit atomic would make is not made: the cell is outside the 32-bit range
      and stands for the expected value. */
  predicate LosesExchange(op: Op, y: int) {
    op.CmpXchg? && !In32(y) && Wrap32(y) == op.exp != op.val
  }

  /** On any cell, spoilt or not, a native operation returns what the 32-bit atomic returns, and
      leaves a cell that stands for its contents exactly when it loses no exchange. */
  lemma NativeOnAnyCell(op: Op, y: int)
    requires ValidOp(op)
    ensures Native(op, y).1 == True32(op, Wrap32(y)).1
    ensures Wrap32(Native(op, y).0) == True32(op, Wrap32(y)).0 <==> !LosesExchange(op, y)
  {
    if op.ReadBand? || op.ReadBor? {
      BitwiseOnSpoilt(y, op.val);
    } else if op.AddRead? {
      AddOnSpoilt(y, op.val);
    }
  }

  // ------------------------------------------------------------------ whole runs

  /** One operation and whether a native 64-bit version of it exists. */
  datatype Call = Call(op: Op, native: bool)

  function OnCell(call: Call, y: int): (int, int) {
    if call.native then Native(call.op, y) else Loop(call.op, y)
  }

  /** At every moment the cell is the contents of the 32-bit atomic, and results agree. */
  predicate Same(calls: seq<Call>, y: int, c: int) {
    y == c && (calls == [] ||
      var (y', result) := OnCell(calls[0], y);
      var (c', result') := True32(calls[0].op, c);
      result == result' && Same(calls[1..], y', c'))
  }

  /** At every moment the cell stands for the contents of the 32-bit atomic, perhaps spoilt, and
      results agree. */
  predicate Follows(calls: seq<Call>, y: int, c: int) {
    Wrap32(y) == c && (calls == [] ||
      var (y', result) := OnCell(calls[0], y);
      var (c', result') := True32(calls[0].op, c);
      result == result' && Follows(calls[1..], y', c'))
  }

  predicate AllValid(calls: seq<Call>) {
    forall k :: 0 <= k < |calls| ==> ValidOp(calls[k].op)
  }

  /** No native addition leaves the 32-bit range on the way. */
  predicate NoOverflow(calls: seq<Call>, c: int) {
    calls == [] ||
    (!(calls[0].native && Overflows(calls[0].op, c)) && NoOverflow(calls[1..], True32(calls[0].op, c).0))
  }

  /** No cmpxchg meets a spoilt cell that stands for the value it expects. */
  predicate NoLostExchange(calls: seq<Call>, y: int) {
    calls == [] || (!LosesExchange(calls[0].op, y) && NoLostExchange(calls[1..], OnCell(calls[0], y).0))
  }

  /** Over any sequence of operations the cell holds exactly the 32-bit contents if and only if
      no native addition overflows. */
  lemma {:induction false} SameIffNoOverflow(calls: seq<Call>, c: int)
    requires In32(c) && AllValid(calls)
    ensures Same(calls, c, c) <==> NoOverflow(calls, c)
    decreases calls
  {
    if calls != [] {
      var op := calls[0].op;
      NativeEmulates(op, c);
      LoopEmulates(op, c);
      True32Stays(op, c);
      SameIffNoOverflow(calls[1..], True32(op, c).0);
    }
  }

  /** Even with overflows, from whatever is in the cell: results and the value it stands for
      follow the 32-bit atomic if and only if no exchange is lost. */
  lemma {:induction false} FollowsIffNoLostExchange(calls: seq<Call>, y: int)
    requires AllValid(calls)
    ensures Follows(calls, y, Wrap32(y)) <==> NoLostExchange(calls, y)
    decreases calls
  {
    if calls != [] {
      var op := calls[0].op;
      NativeOnAnyCell(op, y);
      LoopEmulates(op, y);
      if Wrap32(OnCell(calls[0], y).0) == True32(op, Wrap32(y)).0 {
        FollowsIffNoLostExchange(calls[1..], OnCell(calls[0], y).0);
      }
    }
  }
}
