/** The PER completion step as it runs: an interpreter that keeps a write position, the number
    of free bits in the octet there, and a read position, and moves bits with shifts and ors.

    `sheet` is what was put out so far.  The invariant says that the output octets are exactly
    its bits, zeros in the free places, and the extra ones it notes. */
module PerComplete {
  import opened PerBits
  import opened PerStream
  import opened PerSheets
  import opened PerCapacity

  class Assembler {
    const inBuf: seq<octet>
    var inPtr: int
    var counter: int  // input octets left to account for
    var out: seq<octet>  // the write position is its last octet
    var unused: nat
    var bufSize: int  // octets of the output buffer
    var bufSpace: int  // how many of them the code counts as left
    ghost var sheet: Sheet

    ghost predicate Accurate()
      reads this`out, this`sheet
    {
      && out != [] && |sheet.bits| <= 8 * |out|
      && (forall k <- sheet.extra :: k < 8 * |out|)
      && Bits(out) == Written(sheet, 8 * |out|)
    }

    ghost predicate Valid()
      reads this`out, this`sheet, this`unused
    {
      Accurate() && 1 <= unused <= 8 && |sheet.bits| + unused == 8 * |out|
    }

    lemma OutSize()
      requires Valid()
      ensures |out| == |sheet.bits| / 8 + 1 && unused == 8 - |sheet.bits| % 8
    {
    }

    /** The next n input octets exist. */
    ghost predicate Readable(n: nat)
      reads this
    {
      0 <= inPtr && inPtr + n < |inBuf|
    }

    ghost function Next(n: nat): seq<octet>
      requires Readable(n)
      reads this
    {
      inBuf[inPtr + 1..inPtr + 1 + n]
    }

    lemma FrontOfNext(q: nat, payload: seq<octet>)
      requires Readable(q + 1) && q < |payload| && payload[..q + 1] == Next(q + 1)
      ensures Next(q) == payload[..q] && inBuf[inPtr + q + 1] == payload[q]
    {
      assert payload[..q] == payload[..q + 1][..q];
      assert Next(q) == Next(q + 1)[..q];
      assert payload[q] == payload[..q + 1][q] == Next(q + 1)[q];
    }

    constructor (input: seq<octet>)
      ensures Valid() && inBuf == input && inPtr == 0 && counter == |input| && sheet == BLANK && |out| == 1
      ensures bufSize == bufSpace == |input|
    {
      inBuf, inPtr, counter := input, 0, |input|;
      out, unused, sheet := [0], 8, BLANK;
      bufSize, bufSpace := |input|, |input|;
      BlankOctet();
    }

    // ---------------------------------------------------------------- single steps

    /** `*ptr |= x`. */
    method Or(x: octet, ghost t: seq<bool>, ghost j: set<nat>)
      requires Accurate() && Brings(x, 8 * |out| - 8, |sheet.bits|, t, j)
      modifies this`out, this`sheet
      ensures Accurate() && |out| == |old(out)|
      ensures sheet == Sheet(old(sheet.bits) + t, old(sheet.extra) + j)
    {
      OrWritten(out, sheet, x, t, j);
      out := out[|out| - 1 := out[|out| - 1] | x];
      sheet := Sheet(sheet.bits + t, sheet.extra + j);
    }

    /** `*++ptr = 0x00` once the octet at the write position is complete. */
    method NextOctet()
      requires Accurate() && |sheet.bits| == 8 * |out|
      modifies this`out
      ensures Accurate() && out == old(out) + [0]
    {
      ZeroWritten(out, sheet);
      out := out + [0];
    }

    /** `*ptr = x` on an octet without used bits. */
    method Store(x: octet)
      requires Valid() && unused == 8
      modifies this`out, this`sheet
      ensures Accurate() && |out| == |old(out)|
      ensures sheet == Sheet(old(sheet.bits) + Octet(x), Below(old(sheet.extra), |old(sheet.bits)|))
    {
      StoreWritten(out, sheet, x);
      out := out[|out| - 1 := x];
      sheet := Sheet(sheet.bits + Octet(x), Below(sheet.extra, |sheet.bits|));
    }

    /** Free places become used ones with nothing written. */
    ghost method Skip(n: nat)
      requires Accurate() && |sheet.bits| + n <= 8 * |out|
      modifies this`sheet
      ensures Accurate() && sheet == Sheet(old(sheet.bits) + Zeros(n), old(sheet.extra))
    {
      ZerosWritten(sheet, n, 8 * |out|);
      sheet := Sheet(sheet.bits + Zeros(n), sheet.extra);
    }

    method ReadOctet() returns (x: octet)
      requires Readable(1)
      modifies this`inPtr
      ensures inPtr == old(inPtr) + 1 && x == inBuf[inPtr]
    {
      inPtr := inPtr + 1;
      x := inBuf[inPtr];
    }

    // ------------------------------------------------------------------- insertions

    method PutBit(one: bool) returns (ret: nat)
      requires Valid()
      modifies this`out, this`unused, this`sheet
      ensures Valid() && sheet == Sheet(old(sheet.bits) + [one], old(sheet.extra)) && |old(out)| <= |out|
      ensures ret == NewOctets(|old(sheet.bits)|, 1)
    {
      hide Octet, Bits;
      OutSize();
      ret := 0;
      if one {
        OneBrings(unused, 8 * |out| - 8);
        Or(Shl(1, unused - 1), [true], {});
        assert old(sheet.extra) + {} == old(sheet.extra);
      } else {
        Skip(1);
        assert Zeros(1) == [false];
      }
      if unused == 1 {
        NextOctet();
        unused, ret := 8, 1;
      } else {
        unused := unused - 1;
      }
    }

    method InsertLeastSignBits(noBits: nat, val: octet) returns (ret: nat)
      requires Valid() && noBits < 8 + unused
      modifies this`out, this`unused, this`sheet
      ensures Valid() && |old(out)| <= |out|
      ensures sheet.bits == old(sheet.bits) + InPlaces(val, noBits)
      ensures sheet.extra == old(sheet.extra) + InFront(|old(sheet.bits)|, noBits, Octet(val))
      ensures ret == Counted(LowBits(noBits, val), |old(sheet.bits)|)
    {
      hide Octet, Bits, Brings, InFront, InPlaces;
      OutSize();
      ret := if noBits < unused then 0 else 1;
      ghost var base, p, t := 8 * |out| - 8, |sheet.bits|, InPlaces(val, noBits);
      if noBits < unused {
        LowBitsBring(val, noBits, unused, base);
        Or(Shl(val, unused - noBits), t, InFront(p, noBits, Octet(val)));
        unused := unused - noBits;
      } else if noBits == unused {
        LowBitsBring(val, noBits, unused, base);
        Or(val, t, InFront(p, noBits, Octet(val)));
        NextOctet();
        unused := 8;
      } else {
        var left := noBits - unused;
        LowBitsSplit(val, noBits, unused, base);
        Or(Shr(val, left), t[..unused], InFront(p, noBits, Octet(val)));
        NextOctet();
        Or(Shl(val, 8 - left), t[unused..], {});
        JoinParts(old(sheet.bits), t, unused);
        unused := 8 - left;
      }
    }

    method InsertMostSignBits(noBits: nat, val: octet)
      requires Valid() && noBits <= 8
      modifies this`out, this`unused, this`sheet
      ensures Valid() && |old(out)| <= |out|
      ensures sheet.bits == old(sheet.bits) + Octet(val)[..noBits]
      ensures sheet.extra == old(sheet.extra) + Behind(|old(sheet.bits)|, noBits, Octet(val))
    {
      hide Octet, Bits, Brings, Behind;
      OutSize();
      ghost var base, p, t := 8 * |out| - 8, |sheet.bits|, Octet(val)[..noBits];
      if noBits < unused {
        HighBitsBring(val, noBits, unused, base);
        Or(Shr(val, 8 - unused), t, Behind(p, noBits, Octet(val)));
        unused := unused - noBits;
      } else if noBits == unused {
        HighBitsBring(val, noBits, unused, base);
        Or(Shr(val, 8 - unused), t, Behind(p, noBits, Octet(val)));
        NextOctet();
        unused := 8;
      } else {
        HighBitsSplit(val, noBits, unused, base);
        Or(Shr(val, 8 - unused), t[..unused], {});
        NextOctet();
        Or(Shl(val, unused), t[unused..], Behind(p, noBits, Octet(val)));
        JoinParts(old(sheet.bits), t, unused);
        unused := 8 - (noBits - unused);
      }
    }

    method PadBits(n: nat) returns (ret: nat)
      requires Valid()
      modifies this`out, this`unused, this`sheet
      ensures Valid() && |old(out)| <= |out|
      ensures sheet == Sheet(old(sheet.bits) + Zeros(n), old(sheet.extra))
      ensures ret == NewOctets(|old(sheet.bits)|, n)
    {
      hide Octet, Bits, NewOctets;
      NewOctetsAdd(|sheet.bits|, 0);
      var noBits := n;
      ret := 0;
      assert sheet.bits + Zeros(0) == sheet.bits;
      while noBits > 0
        invariant 0 <= noBits <= n && Valid() && |old(out)| <= |out|
        invariant sheet == Sheet(old(sheet.bits) + Zeros(n - noBits), old(sheet.extra))
        invariant ret == NewOctets(|old(sheet.bits)|, n - noBits)
      {
        var begun := PutBit(false);
        NewOctetsAdd(|old(sheet.bits)|, n - noBits);
        ret := ret + begun;
        assert Zeros(n - noBits) + [false] == Zeros(n - noBits + 1);
        noBits := noBits - 1;
      }
    }

    method AlignOctet() returns (ret: nat)
      requires Valid()
      modifies this`out, this`unused, this`sheet
      ensures Valid() && unused == 8 && |old(out)| <= |out|
      ensures sheet == Sheet(Aligned(old(sheet.bits)), old(sheet.extra))
      ensures ret == Counted(Align, |old(sheet.bits)|)
    {
      hide Octet, Bits;
      OutSize();
      ret := 0;
      if unused != 8 {
        Skip(unused);
        NextOctet();
        unused, ret := 8, 1;
      } else {
        assert sheet.bits + Zeros(0) == sheet.bits;
      }
    }

    // --------------------------------------------------- insertions from the input

    /** One input octet becomes one output octet. */
    method StoreNext()
      requires Valid() && unused == 8 && Readable(1)
      modifies this`out, this`unused, this`sheet, this`inPtr
      ensures Valid() && unused == 8 && inPtr == old(inPtr) + 1 && |old(out)| <= |out|
      ensures sheet == Sheet(old(sheet.bits) + Octet(inBuf[inPtr]), Below(old(sheet.extra), |old(sheet.bits)|))
    {
      var x := ReadOctet();
      Store(x);
      NextOctet();
    }

    /** One input octet is split over two output octets. */
    method SplitNext()
      requires Valid() && unused < 8 && Readable(1)
      modifies this`out, this`unused, this`sheet, this`inPtr
      ensures Valid() && unused == old(unused) && inPtr == old(inPtr) + 1 && |old(out)| <= |out|
      ensures sheet == Sheet(old(sheet.bits) + Octet(inBuf[inPtr]), old(sheet.extra))
    {
      hide Octet, Bits;
      OutSize();
      var val := ReadOctet();
      InsertMostSignBits(8, val);
      OutSize();
      assert Octet(val)[..8] == Octet(val);
      NothingBehind(|old(sheet.bits)|, Octet(val));
      assert old(sheet.extra) + {} == old(sheet.extra);
    }

    method InsertOctets(n: nat) returns (ret: nat)
      requires Valid() && Readable(n)
      modifies this`out, this`unused, this`sheet, this`inPtr
      ensures Valid() && inPtr == old(inPtr) + n && |old(out)| <= |out|
      ensures var i := Octets(old(Next(n))); sheet == Sheet(Aligned(old(sheet.bits)) + Bits(i.octets), Extra(old(sheet), i))
      ensures ret == Counted(Octets(old(Next(n))), |old(sheet.bits)|)
    {
      hide Octet, Bits;
      ret := AlignOctet();
      ghost var start := sheet;
      NoBits(start);
      var left := n;
      assert inBuf[inPtr + 1..inPtr + 1] == [];
      while left > 0
        invariant 0 <= left <= n && inPtr == old(inPtr) + n - left && Valid() && unused == 8 && |old(out)| <= |out|
        invariant sheet == WithOctets(start, inBuf[old(inPtr) + 1..inPtr + 1])
      {
        ghost var done := inBuf[old(inPtr) + 1..inPtr + 1];
        StoreNext();
        WithOctetsSnoc(start, done, inBuf[inPtr]);
        left := left - 1;
        assert done + [inBuf[inPtr]] == inBuf[old(inPtr) + 1..inPtr + 1];
      }
      ret := ret + left;  // left is 0 by now
    }

    method InsertOctetsUnaligned(n: nat)
      requires Valid() && Readable(n)
      modifies this`out, this`unused, this`sheet, this`inPtr
      ensures Valid() && unused == old(unused) && inPtr == old(inPtr) + n && |old(out)| <= |out|
      ensures sheet == WithOctets(old(sheet), old(Next(n)))
    {
      hide Octet, Bits;
      OutSize();
      NoBits(sheet);
      var left := n;
      assert inBuf[inPtr + 1..inPtr + 1] == [];
      while left > 0
        invariant 0 <= left <= n && inPtr == old(inPtr) + n - left && Valid() && unused == old(unused)
        invariant sheet == WithOctets(old(sheet), inBuf[old(inPtr) + 1..inPtr + 1]) && |old(out)| <= |out|
      {
        ghost var done := inBuf[old(inPtr) + 1..inPtr + 1];
        if unused == 8 {
          StoreNext();
        } else {
          SplitNext();
        }
        WithOctetsSnoc(old(sheet), done, inBuf[inPtr]);
        left := left - 1;
        assert done + [inBuf[inPtr]] == inBuf[old(inPtr) + 1..inPtr + 1];
      }
    }

    /** Whole octets and the first n bits of one more; the rest of it is not masked. */
    method InsertPart(q: nat, n: nat, ghost payload: seq<octet>)
      requires Valid() && n <= 8 && Readable(q + 1) && q < |payload| && payload[..q + 1] == Next(q + 1)
      modifies this`out, this`unused, this`sheet, this`inPtr
      ensures Valid() && inPtr == old(inPtr) + q + 1 && |old(out)| <= |out|
      ensures sheet == Sheet(old(sheet.bits) + Bits(payload)[..8 * q + n], AfterPart(old(sheet), payload, q, n))
    {
      hide Octet, Bits, Behind, AfterOctets;
      FrontOfNext(q, payload);
      InsertOctetsUnaligned(q);
      var val := ReadOctet();
      InsertMostSignBits(n, val);
      PartOf(old(sheet.bits), payload, q, n);
    }

    method InsertOctetsExceptUnused(n: nat, inUnused: nat) returns (ok: bool, ret: int)
      requires Valid() && Readable(n) && (n > 0 ==> inUnused <= 8)
      modifies this`out, this`unused, this`sheet, this`inPtr
      ensures Valid() && |old(out)| <= |out|
      ensures ok <==> !(inUnused > 0 && n == 0)
      ensures var i := OctetsExcept(inUnused, old(Next(n)));
              ok ==> inPtr == old(inPtr) + n && Denote(old(sheet), i) == Some(sheet) && ret == Counted(i, |old(sheet.bits)|)
      ensures !ok ==> sheet == old(sheet)
    {
      hide Octet, Bits;
      ghost var payload := Next(n);
      if inUnused == 0 {
        InsertOctetsUnaligned(n);
        assert Bits(payload)[..8 * n] == Bits(payload);
        return true, n;
      }
      ret := n - 1;
      if n == 0 {
        return false, ret;  // the helper's count, n - 1, reads as the error value
      }
      OutSize();
      if 8 - inUnused >= unused {
        ret := ret + 1;
      }
      assert payload[..n - 1 + 1] == payload;
      assert 8 * (n - 1) + (8 - inUnused) == 8 * n - inUnused;
      InsertPart(n - 1, 8 - inUnused, payload);
      return true, ret;
    }

    method InsertOctetsAsBits(n: nat) returns (ok: bool, ret: nat)
      requires Valid() && Readable(n)
      modifies this`out, this`unused, this`sheet, this`inPtr
      ensures Valid() && |old(out)| <= |out| && |sheet.bits| <= |old(sheet.bits)| + n
      ensures ok <==> Flags(old(Next(n))).Some?
      ensures ok ==> inPtr == old(inPtr) + n
      ensures ok ==> sheet == Sheet(old(sheet.bits) + Flags(old(Next(n))).value, old(sheet.extra)) && ret == 0
    {
      hide Bits, Octet, Flags;
      ghost var payload := Next(n);
      var noBytes, usedBits := n, 8 - unused;
      NoFlags();
      assert payload[..0] == [] && sheet.bits + [] == sheet.bits;
      while noBytes > 0
        invariant 0 <= noBytes <= n && inPtr == old(inPtr) + n - noBytes && Valid() && |old(out)| <= |out|
        invariant Flags(payload[..n - noBytes]).Some?
        invariant sheet == Sheet(old(sheet.bits) + Flags(payload[..n - noBytes]).value, old(sheet.extra))
      {
        ghost var done := payload[..n - noBytes];
        var x := ReadOctet();
        assert payload[..n - noBytes + 1] == done + [x];
        FlagsSnoc(done, x);
        if x != 0 && x != 1 {
          FlagsPrefix(payload, n - noBytes + 1);
          return false, 0;
        }
        var begun := PutBit(x == 1);
        assert sheet.bits == old(sheet.bits) + (Flags(done).value + [x == 1]);
        noBytes := noBytes - 1;
      }
      assert payload[..n] == payload;
      return true, (usedBits + noBytes) / 8;  // noBytes is 0 by now
    }

    method InsertOctetsAsBitsExactLen(desiredLen: nat, inBuffLen: nat) returns (ok: bool, ret: nat)
      requires Valid() && Readable(inBuffLen)
      modifies this`out, this`unused, this`sheet, this`inPtr
      ensures Valid() && |old(out)| <= |out|
      ensures var i := BitOctets(desiredLen, old(Next(inBuffLen)));
              if ok then inPtr == old(inPtr) + inBuffLen && Denote(old(sheet), i) == Some(sheet)
                         && ret == Counted(i, |old(sheet.bits)|)
              else Denote(old(sheet), i) == None && |sheet.bits| <= |old(sheet.bits)| + inBuffLen
    {
      hide Octet, Bits;
      if desiredLen == inBuffLen {
        ok, ret := InsertOctetsAsBits(inBuffLen);
        FitAll(Flags(old(Next(inBuffLen))), desiredLen);
      } else if desiredLen > inBuffLen {
        ok, ret := InsertOctetsAsBits(inBuffLen);
        if !ok {
          return;
        }
        var ret2 := PadBits(desiredLen - inBuffLen);
        ret := ret + ret2;
        assert sheet.bits == old(sheet.bits) + Fit(Flags(old(Next(inBuffLen))).value, desiredLen);
      } else {
        assert old(Next(inBuffLen))[..desiredLen] == old(Next(desiredLen));
        ok, ret := InsertOctetsAsBits(desiredLen);
        FitAll(Flags(old(Next(desiredLen))), desiredLen);
        if ok {
          inPtr := inPtr + (inBuffLen - desiredLen);
        }
      }
    }

    method InsertBitsAsBits(desiredNo: nat, n: nat) returns (ret: int)
      requires Valid() && Readable(n)
      modifies this`out, this`unused, this`sheet, this`inPtr
      ensures Valid() && |old(out)| <= |out|
      ensures var i := BitString(desiredNo, old(Next(n)));
              inPtr == old(inPtr) + TakenOctets(i, n) && Denote(old(sheet), i) == Some(sheet)
              && ret == Counted(i, |old(sheet.bits)|)
    {
      hide Octet, Bits, AfterOctets, AfterPart;
      ghost var payload := Next(n);
      ret := if desiredNo == n * 8 then n else Ceil8(desiredNo);
      if desiredNo == n * 8 {
        InsertOctetsUnaligned(n);
        assert Fit(Bits(payload), desiredNo) == Bits(payload);
      } else if desiredNo < n * 8 {
        assert payload[..desiredNo / 8 + 1] == Next(desiredNo / 8 + 1);
        InsertPart(desiredNo / 8, desiredNo % 8, payload);
      } else {
        InsertOctetsUnaligned(n);
        var begun := PadBits(desiredNo - n * 8);
        assert sheet.bits == old(sheet.bits) + (Bits(payload) + Zeros(desiredNo - n * 8));
      }
    }

    // ----------------------------------------------------------------- interpreter

    /** An instruction that stood at index start was carried out, or reported as an error. */
    ghost predicate Stepped(ok: bool, start: nat, left: int, before: Sheet, a: Account)
      requires start < |inBuf| && left <= |inBuf| - start
      reads this
    {
      match Parse(inBuf[start..], left)
      case Instruction(i, size, taken) =>
        && InRange(i, |before.bits|)
        && (ok <==> Denote(before, i).Some?)
        && (ok ==> Some(sheet) == Denote(before, i) && inPtr == start + taken - 1 && counter == left - size)
        && (ok ==> Account(bufSize, bufSpace) == Booked(inBuf[start], i, |before.bits|, left - 1, a))
      case _ => !ok
    }

    ghost predicate AtInstruction()
      reads this
    {
      && Valid() && 0 <= inPtr < |inBuf| && 0 <= counter < |inBuf| - inPtr
      && match Parse(inBuf[inPtr..], counter + 1)
         case Instruction(i, _, _) => InRange(i, |sheet.bits|)
         case Rejected => true
         case BeyondInput => false
    }

    /** The operands behind the opcode; the arms of the switch differ in their widths only. */
    method ReadOperands(op: octet) returns (operand: nat, noBytes: nat)
      requires 0 <= inPtr < |inBuf| && op == inBuf[inPtr] && HasPayload(op) && inPtr + HeaderSize(op) <= |inBuf|
      modifies this`inPtr
      ensures inPtr == old(inPtr) + HeaderSize(op) - 1
      ensures noBytes == PayloadSize(inBuf[old(inPtr)..])
      ensures operand == Operand(inBuf[old(inPtr)..])
    {
      operand := 0;
      if op != 20 && op != 21 {
        var x := ReadOctet();
        operand := x as nat;
        if WideOperand(op) {
          x := ReadOctet();
          operand := operand * 256 + x as nat;
        }
      }
      var y := ReadOctet();
      noBytes := y as nat;
      if WideSize(op) {
        y := ReadOctet();
        noBytes := noBytes * 256 + y as nat;
      }
    }

    method InsertPayload(op: octet, operand: nat, noBytes: nat) returns (ok: bool, ret: int)
      requires Valid() && Readable(noBytes) && InRange(PayloadInstr(op, operand, Next(noBytes)), |sheet.bits|)
      modifies this`out, this`unused, this`sheet, this`inPtr
      ensures Valid() && |old(out)| <= |out|
      ensures var i := PayloadInstr(op, operand, old(Next(noBytes)));
              if ok then inPtr == old(inPtr) + TakenOctets(i, noBytes) && Denote(old(sheet), i) == Some(sheet)
                         && ret == Counted(i, |old(sheet.bits)|)
              else Denote(old(sheet), i) == None && |sheet.bits| <= |old(sheet.bits)| + noBytes
    {
      hide Octet, Bits, Flags, Fit, Aligned, Extra;
      ok := true;
      if op == 20 || op == 21 {
        ret := InsertOctets(noBytes);
      } else if op == 30 || op == 31 {
        ok, ret := InsertOctetsExceptUnused(noBytes, operand);
      } else if op == 40 || op == 41 || op == 42 || op == 43 {
        ok, ret := InsertOctetsAsBitsExactLen(operand, noBytes);
      } else {
        ret := InsertBitsAsBits(operand, noBytes);
      }
    }

    /** More memory if less was saved than is needed for padding. */
    method Reallocate(op: octet, desired: nat, noBytes: nat)
      requires Valid()
      modifies this`bufSize, this`bufSpace
      ensures Account(bufSize, bufSpace) == Grown(Account(old(bufSize), old(bufSpace)), counter,
                                                  NeededFor(op == 40, desired, noBytes, Free(|sheet.bits|)))
    {
      OutSize();
      var savedMem, needed := bufSpace - counter, 0;
      if op == 40 {
        var padBits := desired - noBytes - unused;
        needed := if padBits > 0 then Ceil8(padBits) else 0;
      } else {
        needed := Ceil8(desired - unused) - noBytes;
      }
      if savedMem < needed {
        bufSize, bufSpace := bufSize + needed, bufSpace + needed;
      }
    }

    /** Opcodes 20 to 47: operands, memory, the check that the payload is there, and the
        insertion. */
    method StepPayload(op: octet) returns (ok: bool)
      requires AtInstruction() && op == inBuf[inPtr] && HasPayload(op)
      modifies this
      ensures Valid() && |old(out)| <= |out|
      ensures Stepped(ok, old(inPtr), old(counter) + 1, old(sheet), Account(old(bufSize), old(bufSpace)))
      ensures !ok ==> |sheet.bits| <= |old(sheet.bits)| + old(counter)
      ensures !ok && old(bufSpace) > old(counter) ==> bufSize >= old(bufSize)
    {
      hide Octet, Bits, Denote, InRange, PayloadInstr, Parse, HasPayload, TakenOctets, Counted, NeededFor;
      hide Booked, Grown, HeaderSize, PayloadSize, Operand, Accurate;
      ghost var s, left := inBuf[inPtr..], counter + 1;
      ParsePayload(s, left);
      ghost var h := HeaderSize(op);
      var opPtr := inPtr;
      var operand, noBytes := ReadOperands(op);
      if op >= 40 {
        GrownSize(Account(bufSize, bufSpace), counter, NeededFor(op == 40, operand, noBytes, Free(|sheet.bits|)));
        Reallocate(op, operand, noBytes);
      }
      counter := counter - (inPtr - opPtr + noBytes);
      if counter < 0 {
        return false;
      }
      SliceOfRest(inBuf, opPtr, h, noBytes);
      OperandOf(op, operand, Next(noBytes));
      BookedPayload(op, operand, Next(noBytes), |sheet.bits|, left - 1, Account(old(bufSize), old(bufSpace)));
      var ret: int;
      ok, ret := InsertPayload(op, operand, noBytes);
      bufSpace := bufSpace - ret;
    }

    /** The octets up to the write position, without an empty one at the end. */
    method Output() returns (octets: seq<octet>)
      requires Valid()
      ensures IsOutput(octets, sheet)
    {
      hide Octet, Bits;
      OutSize();
      if unused == 8 && |out| > 1 {
        DropEmptyOctet(out, sheet);
        octets := out[..|out| - 1];
      } else {
        octets := out;
      }
    }

    /** Opcodes 0, 1, 2 and 10. */
    method StepBits(op: octet)
      requires AtInstruction() && op == inBuf[inPtr] && op in {0, 1, 2, 10}
      modifies this
      ensures Valid() && |old(out)| <= |out|
      ensures Stepped(true, old(inPtr), old(counter) + 1, old(sheet), Account(old(bufSize), old(bufSpace)))
    {
      hide Octet, Bits, Behind, InFront, InPlaces, HasPayload;
      var ret: nat;
      if op == 0 {
        ret := PutBit(false);
      } else if op == 1 {
        ret := PutBit(true);
      } else if op == 2 {
        ret := AlignOctet();
      } else {
        var noBits := ReadOctet();
        var val := ReadOctet();
        counter := counter - 2;
        ret := InsertLeastSignBits(noBits as nat, val);
      }
      bufSpace := bufSpace - ret;
    }

    /** One turn of the loop. */
    method Step() returns (ok: bool)
      requires AtInstruction()
      modifies this
      ensures Valid() && |old(out)| <= |out|
      ensures Stepped(ok, old(inPtr), old(counter) + 1, old(sheet), Account(old(bufSize), old(bufSpace)))
      ensures !ok ==> |sheet.bits| <= |old(sheet.bits)| + old(counter)
      ensures !ok && old(bufSpace) > old(counter) ==> bufSize >= old(bufSize)
    {
      hide Octet, Bits, Denote, Booked, InRange;
      var op := inBuf[inPtr];
      if op == 0 || op == 1 || op == 2 || op == 10 {
        StepBits(op);
        ok := true;
      } else if HasPayload(op) {
        ok := StepPayload(op);
      } else {
        ok := false;
      }
    }
  }

  // -------------------------------------------------------------- the whole stream

  /** Number of places in the output for a list of bits: whole octets, at least one. */
  function OutputSize(bits: seq<bool>): (n: nat)
    ensures n % 8 == 0 && |bits| <= n
  {
    if bits == [] then 8 else |Aligned(bits)|
  }

  ghost predicate IsOutput(octets: seq<octet>, sheet: Sheet) {
    Bits(octets) == Written(sheet, OutputSize(sheet.bits))
  }

  /** The complete encoding of a list of bits: whole octets, at least one, filled up with
      zeros (ITU-T X.691, section 11.1). */
  ghost predicate IsComplete(octets: seq<octet>, bits: seq<bool>) {
    Bits(octets) == if bits == [] then Zeros(8) else Aligned(bits)
  }

  lemma OutputOctets(octets: seq<octet>, sheet: Sheet)
    requires IsOutput(octets, sheet)
    ensures |octets| == if sheet.bits == [] then 1 else (|sheet.bits| + 7) / 8
  {
    assert |Bits(octets)| == 8 * |octets|;
  }

  lemma MeantSize(before: seq<bool>, i: Instr)
    requires InRange(i, |before|) && Meant(before, i).Some?
    ensures |Meant(before, i).value| <= |before| +
      match i
      case Bit(_) => 1
      case Align => 7
      case LowBits(count, _) => 15
      case Octets(octets) => 7 + 8 * |octets|
      case OctetsExcept(_, octets) => 8 * |octets|
      case BitOctets(desired, _) => desired
      case BitString(desired, _) => desired
  {
    hide Octet, Bits, Flags;
  }

  /** Without padding an instruction puts out less than it takes. */
  lemma StepSize(s: seq<octet>, left: int, before: seq<bool>)
    requires 0 < left <= |s| && NoPadding(s, left) && Parse(s, left).Instruction?
    requires InRange(Parse(s, left).instr, |before|) && Meant(before, Parse(s, left).instr).Some?
    ensures var p := Parse(s, left);
            NoPadding(s[p.taken..], left - p.size) && |Meant(before, p.instr).value| < |before| + 8 * p.taken
  {
    hide Meant;
    MeantSize(before, Parse(s, left).instr);
  }

  /** What was put out stays below eight times what was read. */
  predicate Frugal(bits: nat, read: nat) {
    bits < 8 * read || bits == read == 0
  }

  lemma StaysFrugal(s: seq<octet>, left: int, sheet: Sheet, read: nat)
    requires 0 < left <= |s| && NoPadding(s, left) && Frugal(|sheet.bits|, read) && Parse(s, left).Instruction?
    requires InRange(Parse(s, left).instr, |sheet.bits|) && Denote(sheet, Parse(s, left).instr).Some?
    ensures var p := Parse(s, left);
            && NoPadding(s[p.taken..], left - p.size)
            && Frugal(|Denote(sheet, p.instr).value.bits|, read + p.taken)
  {
    hide NoPadding, Parse, Meant, InRange;
    StepSize(s, left, sheet.bits);
  }

  lemma DropEmptyOctet(out: seq<octet>, sheet: Sheet)
    requires |out| > 1 && Bits(out) == Written(sheet, 8 * |out|) && |sheet.bits| == 8 * |out| - 8
    ensures IsOutput(out[..|out| - 1], sheet)
  {
    hide Octet;
    LastAt(out);
    assert Aligned(sheet.bits) == sheet.bits;
    hide Bits;
    var front, last := Bits(out[..|out| - 1]), Octet(out[|out| - 1]);
    forall k | 0 <= k < |front|
      ensures front[k] <==> Shows(sheet.bits, 0, k) || k in sheet.extra
    {
      assert front[k] == (front + last)[k];
    }
  }

  lemma MeanDone(s: seq<octet>, left: int, sheet: Sheet)
    requires left <= 0 && left <= |s|
    ensures Mean(s, left, sheet) == Denotes(sheet)
  {
  }

  lemma MeanStep(s: seq<octet>, left: int, sheet: Sheet)
    requires 0 < left <= |s| && Mean(s, left, sheet) != Unsupported
    ensures var p := Parse(s, left);
            && !p.BeyondInput?
            && (p.Rejected? ==> Mean(s, left, sheet) == Fails)
            && (p.Instruction? ==>
                  && InRange(p.instr, |sheet.bits|)
                  && Mean(s, left, sheet) == (if Denote(sheet, p.instr).None? then Fails
                                              else Mean(s[p.taken..], left - p.size, Denote(sheet, p.instr).value)))
  {
  }

  /** Runs the whole stream.  `used` is the number of output octets that were ever begun, and
      `inside` whether all of them were in the buffer when they were. */
  method Complete(inBuf: seq<octet>) returns (r: Option<seq<octet>>, used: nat, inside: bool)
    requires inBuf != [] && Mean(inBuf, |inBuf|, BLANK) != Unsupported
    ensures match Mean(inBuf, |inBuf|, BLANK)
            case Denotes(sheet) => r.Some? && IsOutput(r.value, sheet)
            case _ => r == None
    ensures NoPadding(inBuf, |inBuf|) ==> used <= |inBuf|
    ensures r.Some? ==> (inside <==> Inside(inBuf, |inBuf|, BLANK, Account(|inBuf|, |inBuf|)))
    ensures PadsWhileExact(inBuf, |inBuf|, true) ==> inside
  {
    hide Mean, Parse, Denote, InRange, NoPadding, Octet, Bits, Written, IsOutput;
    hide Inside, PadsWhileExact, Booked, Sound, Miscounts, Pads, Assembler.Accurate, Assembler.Valid;
    var a := new Assembler(inBuf);
    assert inBuf[0..] == inBuf;
    inside := true;
    ghost var frugal, sound, exact := NoPadding(inBuf, |inBuf|), PadsWhileExact(inBuf, |inBuf|, true), true;
    ghost var all := Inside(inBuf, |inBuf|, BLANK, Account(|inBuf|, |inBuf|));
    SoundAtStart(|inBuf|);
    while a.counter > 0
      invariant fresh(a) && a.inBuf == inBuf && a.Valid()
      invariant 0 <= a.inPtr <= |inBuf| && a.counter <= |inBuf| - a.inPtr
      invariant Mean(inBuf[a.inPtr..], a.counter, a.sheet) == Mean(inBuf, |inBuf|, BLANK)
      invariant frugal ==> NoPadding(inBuf[a.inPtr..], a.counter) && Frugal(|a.sheet.bits|, a.inPtr)
      invariant all <==> inside && Inside(inBuf[a.inPtr..], a.counter, a.sheet, Account(a.bufSize, a.bufSpace))
      invariant sound ==> inside && PadsWhileExact(inBuf[a.inPtr..], a.counter, exact)
      invariant sound ==>
        Sound(|a.sheet.bits|, |inBuf| - a.inPtr, a.counter, Account(a.bufSize, a.bufSpace), exact)
      decreases a.counter
    {
      ghost var s, left, before, start := inBuf[a.inPtr..], a.counter, a.sheet, a.inPtr;
      ghost var account := Account(a.bufSize, a.bufSpace);
      MeanStep(s, left, before);
      a.counter := a.counter - 1;
      var ok := a.Step();
      a.OutSize();
      inside := inside && |a.out| <= a.bufSize;
      if !ok {
        if sound {
          FailsInside(|before.bits|, |a.sheet.bits|, |s|, left, account, exact);
        }
        return None, |a.out|, inside;
      }
      a.inPtr := a.inPtr + 1;
      assert s[Parse(s, left).taken..] == inBuf[a.inPtr..];
      if frugal {
        StaysFrugal(s, left, before, start);
      }
      TurnKeeps(s, left, before, account, sound, exact);
      exact := exact && !Miscounts(Parse(s, left).instr);
    }
    a.OutSize();
    MeanDone(inBuf[a.inPtr..], a.counter, a.sheet);
    InsideDone(inBuf[a.inPtr..], a.counter, a.sheet, Account(a.bufSize, a.bufSpace));
    used := |a.out|;
    var output := a.Output();
    r := Some(output);
  }

  lemma OperandOf(op: octet, operand: nat, payload: seq<octet>)
    requires HasPayload(op)
    ensures var i := PayloadInstr(op, operand, payload);
            && (i.BitOctets? ==> i == BitOctets(operand, payload))
            && (i.BitString? ==> i == BitString(operand, payload))
            && (op >= 40 <==> i.BitOctets? || i.BitString?) && (op == 40 ==> i.BitOctets?)
  {
  }

  lemma SliceOfRest(s: seq<octet>, start: nat, h: nat, n: nat)
    requires start + h + n <= |s|
    ensures s[start..][h..h + n] == s[start + h..start + h + n]
  {
  }

  lemma FitAll(flags: Option<seq<bool>>, n: nat)
    requires flags.Some? ==> |flags.value| == n
    ensures flags.Some? ==> Fit(flags.value, n) == flags.value
  {
  }

  lemma NoFlags()
    ensures Flags([]) == Some([])
  {
  }

  lemma FlagsSnoc(s: seq<octet>, x: octet)
    ensures Flags(s + [x])
         == if Flags(s).None? || (x != 0 && x != 1) then None else Some(Flags(s).value + [x == 1])
  {
    assert (s + [x])[..|s|] == s;
  }

  lemma {:induction false} FlagsPrefix(s: seq<octet>, n: nat)
    requires n <= |s| && Flags(s[..n]).None?
    ensures Flags(s).None?
    decreases |s|
  {
    if n < |s| {
      assert s[..|s| - 1][..n] == s[..n];
      FlagsPrefix(s[..|s| - 1], n);
    } else {
      assert s[..n] == s;
    }
  }
}
