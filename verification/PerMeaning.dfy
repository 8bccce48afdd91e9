/** What streams and outputs of the PER step mean in numbers: digits of octets, octets of
    instructions.  Nothing here speaks of shifts, masks or lists of bits in between. */
module PerMeaning {
  import opened PerBits
  import opened PerStream
  import opened PerSheets
  import opened PerComplete
  import opened PerCapacity
  import opened PerNumbers

  function Pow2(n: nat): (p: nat)
    ensures p > 0
  {
    if n == 0 then 1 else 2 * Pow2(n - 1)
  }

  /** The binary digit of weight 2^r. */
  predicate Digit(x: octet, r: nat) {
    x as nat / Pow2(r) % 2 == 1
  }

  // ------------------------------------------------------------------------- octets

  lemma ZerothDigit(x: octet)
    ensures Octet(x)[0] <==> x as nat / 128 % 2 == 1
  {
  }

  lemma FirstDigit(x: octet)
    ensures Octet(x)[1] <==> x as nat / 64 % 2 == 1
  {
  }

  lemma SecondDigit(x: octet)
    ensures Octet(x)[2] <==> x as nat / 32 % 2 == 1
  {
  }

  lemma ThirdDigit(x: octet)
    ensures Octet(x)[3] <==> x as nat / 16 % 2 == 1
  {
  }

  lemma FourthDigit(x: octet)
    ensures Octet(x)[4] <==> x as nat / 8 % 2 == 1
  {
  }

  lemma FifthDigit(x: octet)
    ensures Octet(x)[5] <==> x as nat / 4 % 2 == 1
  {
  }

  lemma SixthDigit(x: octet)
    ensures Octet(x)[6] <==> x as nat / 2 % 2 == 1
  {
  }

  lemma SeventhDigit(x: octet)
    ensures Octet(x)[7] <==> x as nat / 1 % 2 == 1
  {
  }

  lemma Powers()
    ensures Pow2(0) == 1 && Pow2(1) == 2 && Pow2(2) == 4 && Pow2(3) == 8
    ensures Pow2(4) == 16 && Pow2(5) == 32 && Pow2(6) == 64 && Pow2(7) == 128
  {
    assert Pow2(3) == 8 && Pow2(5) == 32;
  }

  /** The bits of an octet are its digits, most significant first. */
  lemma OctetDigits(x: octet, k: nat)
    requires k < 8
    ensures Octet(x)[k] <==> Digit(x, 7 - k)
  {
    Powers();
    ZerothDigit(x);
    FirstDigit(x);
    SecondDigit(x);
    ThirdDigit(x);
    FourthDigit(x);
    FifthDigit(x);
    SixthDigit(x);
    SeventhDigit(x);
    hide Octet, Pow2;
  }

  lemma {:induction false} BitsDigits(s: seq<octet>, k: nat)
    requires k < 8 * |s|
    ensures Bits(s)[k] <==> Digit(s[k / 8], 7 - k % 8)
    decreases |s|
  {
    hide Octet, Digit;
    LastAt(s);
    hide Bits;
    var n := |s| - 1;
    if k < 8 * n {
      BitsDigits(s[..n], k);
      assert Bits(s)[k] == Bits(s[..n])[k];
    } else {
      assert k / 8 == n && k % 8 == k - 8 * n;
      OctetDigits(s[n], k - 8 * n);
      assert Bits(s)[k] == Octet(s[n])[k - 8 * n];
    }
  }

  // ------------------------------------------------------------------------- outputs

  /** An output has max(1, ceil(B / 8)) octets, and each of their digits is the bit meant at
      that place, zero behind the last one, or a surplus one. */
  lemma OutputDigits(octets: seq<octet>, sheet: Sheet)
    ensures IsOutput(octets, sheet) <==>
      && |octets| == (if sheet.bits == [] then 1 else (|sheet.bits| + 7) / 8)
      && forall k :: 0 <= k < 8 * |octets| ==>
           (Digit(octets[k / 8], 7 - k % 8) <==> (k < |sheet.bits| && sheet.bits[k]) || k in sheet.extra)
  {
    hide Octet, Digit;
    var r, size := Bits(octets), OutputSize(sheet.bits);
    var w := Written(sheet, size);
    assert size == 8 * if sheet.bits == [] then 1 else (|sheet.bits| + 7) / 8;
    assert |r| == 8 * |octets|;
    hide Bits, OutputSize;
    forall k | 0 <= k < 8 * |octets|
      ensures r[k] <==> Digit(octets[k / 8], 7 - k % 8)
    {
      BitsDigits(octets, k);
    }
    if |r| == size {
      assert forall k :: 0 <= k < size ==> (w[k] <==> (k < |sheet.bits| && sheet.bits[k]) || k in sheet.extra);
      if forall k :: 0 <= k < size ==> (r[k] <==> w[k]) {
        assert r == w;
      }
    }
  }

  // ---------------------------------------------------------------------- instructions

  /** The k-th bit that an instruction adds behind p bits. */
  predicate NewBit(i: Instr, p: nat, k: nat) {
    match i
    case Bit(one) => one
    case Align => false
    case LowBits(count, val) => k < count && count - 1 - k < 8 && Digit(val, count - 1 - k)
    case Octets(octets) =>
      var pad := (8 - p % 8) % 8;
      pad <= k < pad + 8 * |octets| && Digit(octets[(k - pad) / 8], 7 - (k - pad) % 8)
    case OctetsExcept(_, octets) => k < 8 * |octets| && Digit(octets[k / 8], 7 - k % 8)
    case BitOctets(_, octets) => k < |octets| && octets[k] == 1
    case BitString(_, octets) => k < 8 * |octets| && Digit(octets[k / 8], 7 - k % 8)
  }

  /** An instruction fails if it drops bits of nothing, or finds an octet that is no bit. */
  predicate Failing(i: Instr) {
    match i
    case OctetsExcept(unused, octets) => unused > 0 && octets == []
    case BitOctets(desired, octets) => exists k :: 0 <= k < |octets| && k < desired && octets[k] != 0 && octets[k] != 1
    case _ => false
  }

  lemma {:induction false} FlagsByPlace(s: seq<octet>)
    ensures Flags(s).Some? <==> forall k :: 0 <= k < |s| ==> s[k] == 0 || s[k] == 1
    ensures Flags(s).Some? ==> forall k :: 0 <= k < |s| ==> (Flags(s).value[k] <==> s[k] == 1)
  {
    if s != [] {
      FlagsByPlace(s[..|s| - 1]);
    }
  }

  /** What every instruction means, place by place: when it fails, how many bits it adds, that
      it changes none of those before, and which ones it adds. */
  lemma MeantByPlace(bits: seq<bool>, i: Instr)
    requires InRange(i, |bits|)
    ensures Meant(bits, i).None? <==> Failing(i)
    ensures Meant(bits, i).Some? ==>
      var after := Meant(bits, i).value;
      && |after| == Length(|bits|, i) && bits <= after
      && forall k :: 0 <= k < |after| - |bits| ==> (after[|bits| + k] <==> NewBit(i, |bits|, k))
  {
    hide Octet, Bits, Digit;
    if i.BitOctets? {
      var n := if i.desired < |i.octets| then i.desired else |i.octets|;
      assert i.octets[..|i.octets|] == i.octets;
      FlagsByPlace(i.octets[..n]);
      assert Failing(i) <==> exists k :: 0 <= k < n && i.octets[..n][k] != 0 && i.octets[..n][k] != 1;
    }
    if Meant(bits, i).Some? {
      MeantLength(bits, i);
      forall k | 0 <= k < Length(|bits|, i) - |bits|
        ensures Meant(bits, i).value[|bits| + k] <==> NewBit(i, |bits|, k)
      {
        MeantBit(bits, i, k);
      }
    }
  }

  lemma MeantBit(bits: seq<bool>, i: Instr, k: nat)
    requires InRange(i, |bits|) && Meant(bits, i).Some? && |bits| + k < |Meant(bits, i).value|
    ensures Meant(bits, i).value[|bits| + k] <==> NewBit(i, |bits|, k)
  {
    hide Octet, Bits, Digit, Flags, InPlaces;
    match i
    case LowBits(count, val) =>
      PlaceBit(val, count, k);
    case Octets(octets) => AlignedBit(bits, octets, k);
    case OctetsExcept(_, octets) => BitsDigits(octets, k);
    case BitOctets(desired, octets) =>
      var n := if desired < |octets| then desired else |octets|;
      assert octets[..|octets|] == octets;
      FlagsByPlace(octets[..n]);
    case BitString(desired, octets) => FitBit(octets, desired, k);
    case _ =>
  }

  lemma PlaceBit(val: octet, count: nat, k: nat)
    requires k < count
    ensures InPlaces(val, count)[k] <==> count - 1 - k < 8 && Digit(val, count - 1 - k)
  {
    hide Octet, Digit;
    if count - 1 - k < 8 {
      OctetDigits(val, 8 - count + k);
    }
  }

  lemma AlignedBit(bits: seq<bool>, octets: seq<octet>, k: nat)
    requires |bits| + k < |Aligned(bits) + Bits(octets)|
    ensures (Aligned(bits) + Bits(octets))[|bits| + k] <==> NewBit(Octets(octets), |bits|, k)
  {
    hide Octet, Bits, Digit;
    var pad := (8 - |bits| % 8) % 8;
    if pad <= k {
      BitsDigits(octets, k - pad);
    }
  }

  lemma FitBit(octets: seq<octet>, desired: nat, k: nat)
    requires k < desired
    ensures Fit(Bits(octets), desired)[k] <==> k < 8 * |octets| && Digit(octets[k / 8], 7 - k % 8)
  {
    hide Octet, Bits, Digit;
    if k < 8 * |octets| {
      BitsDigits(octets, k);
    }
  }

  // --------------------------------------------------------------------- surplus bits

  /** A one of the octet x, put with its most significant digit at place p, at place k: not
      among the first n, and not behind the octet of output that the first n end in. */
  predicate StrayBehind(x: octet, p: nat, n: int, k: nat) {
    p <= k < p + 8 && p + n <= k && (n <= 8 - p % 8 ==> k < p - p % 8 + 8) && Digit(x, 7 - (k - p))
  }

  /** The place k is set without being meant after an instruction. */
  predicate StrayAfter(sheet: Sheet, i: Instr, k: nat) {
    var p := |sheet.bits|;
    match i
    case LowBits(count, val) =>
      k in sheet.extra || (p - p % 8 <= k < p && count + (p - k) <= 8 && Digit(val, count + (p - k) - 1))
    case Octets(octets) => k in sheet.extra && (octets != [] ==> k < p + (8 - p % 8) % 8)
    case OctetsExcept(unused, octets) =>
      if unused == 0 || octets == [] then Survives(sheet, |octets|, k)
      else Survives(sheet, |octets| - 1, k)
           || StrayBehind(octets[|octets| - 1], p + 8 * (|octets| - 1), 8 - unused, k)
    case BitString(desired, octets) =>
      if desired >= 8 * |octets| then Survives(sheet, |octets|, k)
      else Survives(sheet, desired / 8, k) || StrayBehind(octets[desired / 8], p + desired / 8 * 8, desired % 8, k)
    case _ => k in sheet.extra
  }

  /** What stands in an octet whose places are all free is lost when an octet is stored there. */
  predicate Survives(sheet: Sheet, stored: nat, k: nat) {
    k in sheet.extra && (stored > 0 && |sheet.bits| % 8 == 0 ==> k < |sheet.bits|)
  }

  lemma BehindByPlace(x: octet, p: nat, n: nat, k: nat)
    ensures k in Behind(p, n, Octet(x)) <==> StrayBehind(x, p, n, k)
  {
    hide Octet, Digit;
    if p <= k < p + 8 {
      OctetDigits(x, k - p);
    }
  }

  /** The surplus ones of every instruction, place by place. */
  lemma ExtraByPlace(sheet: Sheet, i: Instr, k: nat)
    requires InRange(i, |sheet.bits|) && !Failing(i)
    ensures k in Extra(sheet, i) <==> StrayAfter(sheet, i, k)
  {
    hide Octet, Bits, Digit, Behind;
    match i
    case LowBits(count, val) =>
      var start := |sheet.bits| + count - 8;
      if start <= k < |sheet.bits| {
        OctetDigits(val, k - start);
      }
    case OctetsExcept(unused, octets) =>
      if unused > 0 {
        BehindByPlace(octets[|octets| - 1], |sheet.bits| + 8 * (|octets| - 1), 8 - unused, k);
      }
    case BitString(desired, octets) =>
      if desired < 8 * |octets| {
        BehindByPlace(octets[desired / 8], |sheet.bits| + desired / 8 * 8, desired % 8, k);
      }
    case _ =>
  }

  // --------------------------------------------------------------------- octets of streams

  /** An instruction that an opcode can carry. */
  predicate Printable(op: octet, i: Instr) {
    match i
    case Bit(one) => op == if one then 1 else 0
    case Align => op == 2
    case LowBits(count, _) => op == 10 && count < 0x100
    case Octets(s) => (op == 20 && |s| < 0x100) || (op == 21 && |s| < 0x1_0000)
    case OctetsExcept(u, s) => u < 0x100 && ((op == 30 && |s| < 0x100) || (op == 31 && |s| < 0x1_0000))
    case BitOctets(d, s) =>
      || (op == 40 && d < 0x100 && |s| < 0x100) || (op == 41 && d < 0x100 && |s| < 0x1_0000)
      || (op == 42 && d < 0x1_0000 && |s| < 0x100) || (op == 43 && d < 0x1_0000 && |s| < 0x1_0000)
    case BitString(d, s) =>
      || (op == 45 && d < 0x100 && |s| < 0x100) || (op == 46 && d < 0x1_0000 && |s| < 0x100)
      || (op == 47 && d < 0x1_0000 && |s| < 0x1_0000)
  }

  /** The octets of an instruction: opcode, operand, size of the payload, payload. */
  function Print(op: octet, i: Instr): (s: seq<octet>)
    requires Printable(op, i)
    ensures s != [] && s[0] == op
  {
    match i
    case Bit(_) => [op]
    case Align => [op]
    case LowBits(count, val) => [op] + One(count) + [val]
    case Octets(s) => [op] + (if op == 20 then One(|s|) else Two(|s|)) + s
    case OctetsExcept(u, s) => [op] + One(u) + (if op == 30 then One(|s|) else Two(|s|)) + s
    case BitOctets(d, s) =>
      [op] + (if op == 40 || op == 41 then One(d) else Two(d)) + (if op == 40 || op == 42 then One(|s|) else Two(|s|)) + s
    case BitString(d, s) =>
      [op] + (if op == 45 then One(d) else Two(d)) + (if op == 47 then Two(|s|) else One(|s|)) + s
  }

  /** How many octets the code passes over: all, but of a cut bit string only the payload up to
      the octet of the last bit used. */
  function Passed(op: octet, i: Instr): nat
    requires Printable(op, i)
  {
    if i.BitString? && i.desired < 8 * |i.octets|
    then |Print(op, i)| - |i.octets| + i.desired / 8 + 1 else |Print(op, i)|
  }

  lemma FieldPlaces(s: seq<octet>, op: octet, operand: seq<octet>, size: seq<octet>, payload: seq<octet>, rest: seq<octet>)
    requires s == [op] + operand + size + payload + rest
    ensures var h := 1 + |operand| + |size|;
            && s[0] == op && h + |payload| <= |s| && s[1..1 + |operand|] == operand
            && s[1 + |operand|..h] == size && s[h..h + |payload|] == payload
  {
  }

  lemma Widths(op: octet)
    requires HasPayload(op)
    ensures WideOperand(op) <==> op in {42, 43, 46, 47}
    ensures WideSize(op) <==> op in {21, 31, 41, 43, 47}
    ensures HeaderSize(op) == 1 + (if op in {20, 21} then 0 else if WideOperand(op) then 2 else 1)
                                + if WideSize(op) then 2 else 1
  {
  }

  lemma OperandFound(s: seq<octet>, operand: seq<octet>)
    requires s != [] && HasPayload(s[0]) && HeaderSize(s[0]) <= |s| && 1 + |operand| <= |s|
    requires |operand| == (if s[0] in {20, 21} then 0 else if WideOperand(s[0]) then 2 else 1)
    requires s[1..1 + |operand|] == operand
    ensures Operand(s) == FieldValue(operand)
  {
    hide HeaderSize;
    assert |operand| >= 1 ==> s[1..1 + |operand|][0] == s[1];
    assert |operand| >= 2 ==> s[1..1 + |operand|][1] == s[2];
  }

  lemma SizeFound(s: seq<octet>, size: seq<octet>)
    requires s != [] && HasPayload(s[0]) && HeaderSize(s[0]) <= |s|
    requires |size| == (if WideSize(s[0]) then 2 else 1) && s[HeaderSize(s[0]) - |size|..HeaderSize(s[0])] == size
    ensures PayloadSize(s) == FieldValue(size)
  {
    var h := HeaderSize(s[0]);
    hide HeaderSize, WideSize;
    var from := h - |size|;
    assert s[from..h][0] == s[from] && (|size| >= 2 ==> s[from..h][1] == s[from + 1]);
  }

  /** Fields of the right widths are found again. */
  lemma FieldsFound(s: seq<octet>, op: octet, operand: seq<octet>, size: seq<octet>, payload: seq<octet>, rest: seq<octet>)
    requires HasPayload(op) && s == [op] + operand + size + payload + rest
    requires |operand| == (if op in {20, 21} then 0 else if op in {42, 43, 46, 47} then 2 else 1)
    requires |size| == (if op in {21, 31, 41, 43, 47} then 2 else 1) && FieldValue(size) == |payload|
    ensures var h := 1 + |operand| + |size|;
            && HeaderSize(op) == h <= |s| && s[0] == op
            && Operand(s) == FieldValue(operand) && PayloadSize(s) == |payload| && s[h..h + |payload|] == payload
  {
    Widths(op);
    hide HeaderSize, WideOperand, WideSize, HasPayload, Operand, PayloadSize, FieldValue;
    FieldPlaces(s, op, operand, size, payload, rest);
    OperandFound(s, operand);
    SizeFound(s, size);
  }

  /** What the code finds where such fields stand. */
  lemma FieldsParse(s: seq<octet>, left: int, op: octet, operand: seq<octet>, size: seq<octet>, payload: seq<octet>,
                    rest: seq<octet>)
    requires HasPayload(op) && s == [op] + operand + size + payload + rest && left <= |s|
    requires |operand| == (if op in {20, 21} then 0 else if op in {42, 43, 46, 47} then 2 else 1)
    requires |size| == (if op in {21, 31, 41, 43, 47} then 2 else 1) && FieldValue(size) == |payload|
    ensures var n, i := 1 + |operand| + |size| + |payload|, PayloadInstr(op, FieldValue(operand), payload);
            Parse(s, left) == if left < n then Rejected else Instruction(i, n, n - |payload| + TakenOctets(i, |payload|))
  {
    FieldsFound(s, op, operand, size, payload, rest);
    hide HasPayload, HeaderSize, Operand, PayloadSize, PayloadInstr, TakenOctets, FieldValue, Parse;
    ParsePayload(s, left);
  }

  /** Every instruction an opcode can carry is read back from its octets, whatever follows, if
      that much input is left, and how far the code moves on; if less is left, it is an error. */
  lemma PrintParses(op: octet, i: Instr, rest: seq<octet>, left: int)
    requires Printable(op, i) && 0 < left <= |Print(op, i) + rest|
    ensures Parse(Print(op, i) + rest, left) ==
      if left < |Print(op, i)| && !i.LowBits? then Rejected else Instruction(i, |Print(op, i)|, Passed(op, i))
  {
    if i.Octets? || i.OctetsExcept? || i.BitOctets? || i.BitString? {
      PrintedFields(op, i, rest, left);
    } else {
      PrintedBits(op, i, rest, left);
    }
  }

  lemma PrintedBits(op: octet, i: Instr, rest: seq<octet>, left: int)
    requires Printable(op, i) && 0 < left <= |Print(op, i) + rest|
    requires i.Bit? || i.Align? || i.LowBits?
    ensures Parse(Print(op, i) + rest, left) == Instruction(i, |Print(op, i)|, |Print(op, i)|)
  {
    var s := Print(op, i) + rest;
    if i.LowBits? {
      ToOctetValue(i.count);
      assert s[0] == op && s[1] == One(i.count)[0] && s[2] == i.val;
    }
    hide ToOctet, HasPayload;
  }

  function OperandField(op: octet, i: Instr): seq<octet>
    requires Printable(op, i)
  {
    match i
    case OctetsExcept(u, _) => One(u)
    case BitOctets(d, _) => if op == 40 || op == 41 then One(d) else Two(d)
    case BitString(d, _) => if op == 45 then One(d) else Two(d)
    case _ => []
  }

  function SizeField(op: octet, s: seq<octet>): seq<octet>
    requires |s| < 0x1_0000 && (op !in {21, 31, 41, 43, 47} ==> |s| < 0x100)
  {
    if op in {21, 31, 41, 43, 47} then Two(|s|) else One(|s|)
  }

  lemma PrintIsFields(op: octet, i: Instr)
    requires Printable(op, i) && (i.Octets? || i.OctetsExcept? || i.BitOctets? || i.BitString?)
    ensures |i.octets| < 0x1_0000 && (op !in {21, 31, 41, 43, 47} ==> |i.octets| < 0x100) && HasPayload(op)
    ensures Print(op, i) == [op] + OperandField(op, i) + SizeField(op, i.octets) + i.octets
    ensures |OperandField(op, i)| == if op in {20, 21} then 0 else if op in {42, 43, 46, 47} then 2 else 1
    ensures |SizeField(op, i.octets)| == if op in {21, 31, 41, 43, 47} then 2 else 1
  {
    hide ToOctet;
    match i
    case Octets(_) => assert [op] + [] == [op];
    case OctetsExcept(_, _) =>
    case BitOctets(_, _) =>
    case BitString(_, _) =>
  }

  function OperandNumber(i: Instr): nat {
    match i
    case OctetsExcept(u, _) => u
    case BitOctets(d, _) => d
    case BitString(d, _) => d
    case _ => 0
  }

  lemma OperandFieldValue(op: octet, i: Instr)
    requires Printable(op, i) && (i.Octets? || i.OctetsExcept? || i.BitOctets? || i.BitString?)
    ensures FieldValue(OperandField(op, i)) == OperandNumber(i)
  {
    hide One, Two, FieldValue;
    if i.Octets? {
      EmptyField();
    } else {
      var d := OperandNumber(i);
      TwoValue(d);
      if d < 0x100 {
        OneValue(d);
      }
    }
  }

  lemma EmptyField()
    ensures FieldValue([]) == 0
  {
  }

  lemma SizeFieldValue(op: octet, s: seq<octet>)
    requires |s| < 0x1_0000 && (op !in {21, 31, 41, 43, 47} ==> |s| < 0x100)
    ensures FieldValue(SizeField(op, s)) == |s|
  {
    hide One, Two, FieldValue;
    TwoValue(|s|);
    if |s| < 0x100 {
      OneValue(|s|);
    }
  }

  lemma PayloadInstrIs(op: octet, i: Instr)
    requires Printable(op, i) && (i.Octets? || i.OctetsExcept? || i.BitOctets? || i.BitString?)
    ensures PayloadInstr(op, OperandNumber(i), i.octets) == i
  {
  }

  lemma PassedIs(op: octet, i: Instr)
    requires Printable(op, i) && (i.Octets? || i.OctetsExcept? || i.BitOctets? || i.BitString?)
    ensures Passed(op, i) == |Print(op, i)| - |i.octets| + TakenOctets(i, |i.octets|)
  {
    hide Print;
  }

  lemma PrintedFields(op: octet, i: Instr, rest: seq<octet>, left: int)
    requires Printable(op, i) && 0 < left <= |Print(op, i) + rest|
    requires i.Octets? || i.OctetsExcept? || i.BitOctets? || i.BitString?
    ensures Parse(Print(op, i) + rest, left) ==
      if left < |Print(op, i)| then Rejected else Instruction(i, |Print(op, i)|, Passed(op, i))
  {
    PrintIsFields(op, i);
    OperandFieldValue(op, i);
    SizeFieldValue(op, i.octets);
    PayloadInstrIs(op, i);
    PassedIs(op, i);
    hide Printable, Print, OperandField, SizeField, FieldValue, Parse, PayloadInstr, HasPayload, Passed, TakenOctets;
    FieldsParse(Print(op, i) + rest, left, op, OperandField(op, i), SizeField(op, i.octets), i.octets, rest);
  }

  /** What a stream means that begins with the octets of an instruction: an error if the
      instruction fails or its payload is not all there; otherwise what follows the octets the
      code passes over means, with all octets of the instruction counted as read. */
  lemma MeanPrinted(op: octet, i: Instr, rest: seq<octet>, left: int, sheet: Sheet)
    requires Printable(op, i) && 0 < left <= |Print(op, i) + rest| && InRange(i, |sheet.bits|)
    ensures var s := Print(op, i) + rest;
            && (left < |Print(op, i)| && !i.LowBits? ==> Mean(s, left, sheet) == Fails)
            && (left >= |Print(op, i)| || i.LowBits? ==>
                  if Failing(i) then Mean(s, left, sheet) == Fails
                  else
                    && Denote(sheet, i).Some?
                    && Mean(s, left, sheet) == Mean(s[Passed(op, i)..], left - |Print(op, i)|, Denote(sheet, i).value))
  {
    hide Print, Printable, Parse, Meant, Failing, InRange, Extra, Passed, NewBit, Length, Mean, Denote;
    var s := Print(op, i) + rest;
    PrintParses(op, i, rest, left);
    FailsIfFailing(sheet, i);
    if left >= |Print(op, i)| || i.LowBits? {
      MeanOfInstr(s, left, sheet, i, |Print(op, i)|, Passed(op, i));
    } else {
      MeanOfRejected(s, left, sheet);
    }
  }

  lemma FailsIfFailing(sheet: Sheet, i: Instr)
    requires InRange(i, |sheet.bits|)
    ensures Denote(sheet, i).None? <==> Failing(i)
  {
    MeantByPlace(sheet.bits, i);
    hide Meant, Failing, InRange, Extra, NewBit, Length;
  }

  lemma MeanOfInstr(s: seq<octet>, left: int, sheet: Sheet, i: Instr, size: nat, taken: nat)
    requires 0 < left <= |s| && Parse(s, left) == Instruction(i, size, taken) && InRange(i, |sheet.bits|)
    ensures Mean(s, left, sheet) ==
      if Denote(sheet, i).None? then Fails else Mean(s[taken..], left - size, Denote(sheet, i).value)
  {
    hide Parse, Denote, InRange;
  }

  lemma MeanOfRejected(s: seq<octet>, left: int, sheet: Sheet)
    requires 0 < left <= |s| && Parse(s, left) == Rejected
    ensures Mean(s, left, sheet) == Fails
  {
    hide Parse, Denote, InRange;
  }

  /** A stream means what was put out when no input is left. */
  lemma MeanAtEnd(s: seq<octet>, left: int, sheet: Sheet)
    requires left <= 0 && left <= |s|
    ensures Mean(s, left, sheet) == Denotes(sheet)
  {
  }

  /** An octet that is no opcode is an error. */
  lemma UnknownOpcode(s: seq<octet>, left: int, sheet: Sheet)
    requires 0 < left <= |s| && s[0] !in {0, 1, 2, 10, 20, 21, 30, 31, 40, 41, 42, 43, 45, 46, 47}
    ensures Mean(s, left, sheet) == Fails
  {
  }

  /** A stream of octets 0 and 1 means just these bits. */
  lemma {:induction false} BitStream(s: seq<octet>, sheet: Sheet)
    requires forall k :: 0 <= k < |s| ==> s[k] == 0 || s[k] == 1
    ensures var r := Mean(s, |s|, sheet);
            && r.Denotes? && r.sheet.extra == sheet.extra && |r.sheet.bits| == |sheet.bits| + |s|
            && sheet.bits <= r.sheet.bits
            && forall k :: 0 <= k < |s| ==> (r.sheet.bits[|sheet.bits| + k] <==> s[k] == 1)
    decreases |s|
  {
    if s != [] {
      var i := Bit(s[0] == 1);
      assert Parse(s, |s|) == Instruction(i, 1, 1);
      var next := Sheet(sheet.bits + [s[0] == 1], sheet.extra);
      assert Denote(sheet, i) == Some(next);
      BitStream(s[1..], next);
      hide Parse, Denote, Mean;
      var r := Mean(s[1..], |s[1..]|, next);
      forall k | 0 <= k < |s|
        ensures r.sheet.bits[|sheet.bits| + k] <==> s[k] == 1
      {
        if k == 0 {
          assert next.bits[|sheet.bits|] == r.sheet.bits[|sheet.bits|];
        } else {
          assert s[1..][k - 1] == s[k];
        }
      }
    }
  }
}
