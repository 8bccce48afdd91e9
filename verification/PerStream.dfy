/** The instruction stream of the PER completion step: how an instruction is laid out and
    which bits it stands for. */
module PerStream {
  import opened PerBits

  datatype Option<T> = None | Some(value: T)

  datatype Instr =
    | Bit(one: bool)  // opcodes 0 and 1
    | Align  // 2
    | LowBits(count: nat, val: octet)  // 10
    | Octets(octets: seq<octet>)  // 20, 21
    | OctetsExcept(unused: nat, octets: seq<octet>)  // 30, 31
    | BitOctets(desired: nat, octets: seq<octet>)  // 40 to 43: one octet a bit
    | BitString(desired: nat, octets: seq<octet>)  // 45 to 47

  /** An instruction, its size, and how much of it the code moves the read position past; or
      the input the code answers with an error; or an opcode whose operands would lie behind
      the input, which the code does not check for. */
  datatype Parsed = Instruction(instr: Instr, size: nat, taken: nat) | Rejected | BeyondInput

  function Word(high: octet, low: octet): nat {
    high as nat * 256 + low as nat
  }

  predicate HasPayload(op: octet) {
    op in {20, 21, 30, 31, 40, 41, 42, 43, 45, 46, 47}
  }

  predicate WideSize(op: octet) {
    op in {21, 31, 41, 43, 47}
  }

  predicate WideOperand(op: octet) {
    op in {42, 43, 46, 47}
  }

  /** Opcode, operand (not for 20 and 21) and payload size, in octets. */
  function HeaderSize(op: octet): (h: nat)
    ensures 2 <= h <= 5
  {
    1 + (if op in {20, 21} then 0 else if WideOperand(op) then 2 else 1) + (if WideSize(op) then 2 else 1)
  }

  function Operand(s: seq<octet>): nat
    requires s != [] && HeaderSize(s[0]) <= |s|
  {
    if s[0] in {20, 21} then 0 else if WideOperand(s[0]) then Word(s[1], s[2]) else s[1] as nat
  }

  function PayloadInstr(op: octet, operand: nat, payload: seq<octet>): Instr {
    if op in {20, 21} then Octets(payload)
    else if op in {30, 31} then OctetsExcept(operand, payload)
    else if op in {40, 41, 42, 43} then BitOctets(operand, payload)
    else BitString(operand, payload)
  }

  function PayloadSize(s: seq<octet>): nat
    requires s != [] && HeaderSize(s[0]) <= |s|
  {
    var h := HeaderSize(s[0]);
    if WideSize(s[0]) then Word(s[h - 2], s[h - 1]) else s[h - 1] as nat
  }

  /** How many octets of its payload an instruction takes from the input: all, but of a bit
      string that is cut only those up to the last bit that is used, and at least one. */
  function TakenOctets(i: Instr, n: nat): (k: nat)
    ensures k <= n
  {
    if i.BitString? && i.desired < 8 * n then i.desired / 8 + 1 else n
  }

  /** The instruction at the front of s, when `left` octets of input are left to account for. */
  function Parse(s: seq<octet>, left: int): (p: Parsed)
    requires s != [] && left <= |s|
    ensures p.Instruction? ==> 0 < p.taken <= p.size <= |s|
  {
    if s[0] == 0 then Instruction(Bit(false), 1, 1)
    else if s[0] == 1 then Instruction(Bit(true), 1, 1)
    else if s[0] == 2 then Instruction(Align, 1, 1)
    else if s[0] == 10 then
      if |s| < 3 then BeyondInput else Instruction(LowBits(s[1] as nat, s[2]), 3, 3)
    else if !HasPayload(s[0]) then Rejected
    else
      var h := HeaderSize(s[0]);
      if |s| < h then BeyondInput else
      var n := PayloadSize(s);
      if left < h + n then Rejected else
      var i := PayloadInstr(s[0], Operand(s), s[h..h + n]);
      Instruction(i, h + n, h + TakenOctets(i, n))
  }

  lemma ParsePayload(s: seq<octet>, left: int)
    requires s != [] && left <= |s| && HasPayload(s[0])
    ensures Parse(s, left).BeyondInput? <==> |s| < HeaderSize(s[0])
    ensures !Parse(s, left).BeyondInput? ==>
      var h, n := HeaderSize(s[0]), PayloadSize(s);
      && (left < h + n ==> Parse(s, left) == Rejected)
      && (left >= h + n ==>
            var i := PayloadInstr(s[0], Operand(s), s[h..h + n]);
            Parse(s, left) == Instruction(i, h + n, h + TakenOctets(i, n)))
  {
  }

  /** Operands for which the code has a case, with p bits put out before: a count that leaves
      a free place in the octet after the one begun, and no more unused bits than an octet
      has. */
  predicate InRange(i: Instr, p: nat) {
    match i
    case LowBits(count, _) => count <= 15 - p % 8
    case OctetsExcept(unused, octets) => octets != [] ==> unused <= 8
    case _ => true
  }

  /** No surplus: bits of an operand that are not to be put out are zero, and every octet of a
      payload holds some bit that is. */
  predicate NoSurplus(i: Instr) {
    match i
    case LowBits(count, val) => count < 8 ==> Octet(val)[..8 - count] == Zeros(8 - count)
    case OctetsExcept(unused, octets) =>
      octets != [] && unused <= 8 ==> Bits(octets)[8 * |octets| - unused..] == Zeros(unused)
    case BitString(desired, octets) =>
      desired < 8 * |octets| ==>
        8 * (|octets| - 1) <= desired && Bits(octets)[desired..] == Zeros(8 * |octets| - desired)
    case _ => true
  }

  function Aligned(bits: seq<bool>): (r: seq<bool>)
    ensures |r| % 8 == 0 && |bits| <= |r| < |bits| + 8
  {
    bits + Zeros((8 - |bits| % 8) % 8)
  }

  /** One bit per octet; no meaning if an octet is neither 0 nor 1. */
  function Flags(s: seq<octet>): (r: Option<seq<bool>>)
    ensures r.Some? ==> |r.value| == |s|
  {
    if s == [] then Some([]) else
    var front := Flags(s[..|s| - 1]);
    if front.None? || (s[|s| - 1] != 0 && s[|s| - 1] != 1) then None
    else Some(front.value + [s[|s| - 1] == 1])
  }

  /** Cut to n bits, or filled up with zeros. */
  function Fit(bits: seq<bool>, n: nat): (r: seq<bool>)
    ensures |r| == n
  {
    if n <= |bits| then bits[..n] else bits + Zeros(n - |bits|)
  }

  /** The number val in `count` binary places. */
  function InPlaces(val: octet, count: nat): (r: seq<bool>)
    ensures |r| == count
  {
    if count <= 8 then Octet(val)[8 - count..] else Zeros(count - 8) + Octet(val)
  }

  /** The bits meant after an instruction; none if the code reports an error. */
  function Meant(bits: seq<bool>, i: Instr): Option<seq<bool>>
    requires InRange(i, |bits|)
  {
    match i
    case Bit(one) => Some(bits + [one])
    case Align => Some(Aligned(bits))
    case LowBits(count, val) => Some(bits + InPlaces(val, count))
    case Octets(octets) => Some(Aligned(bits) + Bits(octets))
    case OctetsExcept(unused, octets) =>
      if unused > 0 && octets == [] then None
      else Some(bits + Bits(octets)[..8 * |octets| - unused])
    case BitOctets(desired, octets) =>
      var flags := Flags(if desired < |octets| then octets[..desired] else octets);
      if flags.None? then None else Some(bits + Fit(flags.value, desired))
    case BitString(desired, octets) => Some(bits + Fit(Bits(octets), desired))
  }

  // ------------------------------------------------------------------- surplus bits

  /** What was put out: the bits meant, and the places, counted in bits, where the code set a
      one out of the surplus of an operand. */
  datatype Sheet = Sheet(bits: seq<bool>, extra: set<nat>)

  function Below(extra: set<nat>, p: nat): set<nat> {
    set k | k in extra && k < p
  }

  /** Place k is set when s is laid down from place p on. */
  predicate Shows(s: seq<bool>, p: int, k: int) {
    0 <= k - p < |s| && s[k - p]
  }

  /** High bits of an octet are put at place p with what follows them in the octet s: up to
      the end of the octet of output that is begun or, if they cross it, all of it. */
  function Behind(p: nat, n: nat, s: seq<bool>): set<nat> {
    var end := if p % 8 + n <= 8 then p - p % 8 + 8 else p + 8;
    set k: nat | p + n <= k < end && Shows(s, p, k)
  }

  /** Low bits of an octet are put at place p with what precedes them in the octet s: back to
      the start of the octet of output that is begun. */
  function InFront(p: nat, n: nat, s: seq<bool>): set<nat> {
    var start := p + n - 8;
    set k: nat | p - p % 8 <= k < p && Shows(s, start, k)
  }

  /** Whole octets that start at an octet boundary are stored over what is there. */
  function AfterOctets(sheet: Sheet, octets: seq<octet>): set<nat> {
    if octets != [] && |sheet.bits| % 8 == 0 then Below(sheet.extra, |sheet.bits|) else sheet.extra
  }

  /** Bits of whole octets and the first n bits of the next one. */
  function AfterPart(sheet: Sheet, octets: seq<octet>, q: nat, n: nat): set<nat>
    requires q < |octets|
  {
    AfterOctets(sheet, octets[..q]) + Behind(|sheet.bits| + 8 * q, n, Octet(octets[q]))
  }

  function Extra(sheet: Sheet, i: Instr): set<nat>
    requires InRange(i, |sheet.bits|)
  {
    match i
    case LowBits(count, val) => sheet.extra + InFront(|sheet.bits|, count, Octet(val))
    case Octets(octets) =>
      if octets == [] then sheet.extra else Below(sheet.extra, |Aligned(sheet.bits)|)
    case OctetsExcept(unused, octets) =>
      if unused == 0 || octets == [] then AfterOctets(sheet, octets)
      else AfterPart(sheet, octets, |octets| - 1, 8 - unused)
    case BitString(desired, octets) =>
      if desired >= 8 * |octets| then AfterOctets(sheet, octets)
      else AfterPart(sheet, octets, desired / 8, desired % 8)
    case _ => sheet.extra
  }

  function Denote(sheet: Sheet, i: Instr): Option<Sheet>
    requires InRange(i, |sheet.bits|)
  {
    var bits := Meant(sheet.bits, i);
    if bits.None? then None else Some(Sheet(bits.value, Extra(sheet, i)))
  }

  datatype Meaning = Denotes(sheet: Sheet) | Fails | Unsupported

  /** What the rest s of a stream means, given what is put out already and how much input is
      left to account for. */
  function Mean(s: seq<octet>, left: int, sheet: Sheet): Meaning
    requires left <= |s|
    decreases |s|
  {
    if left <= 0 then Denotes(sheet) else
    match Parse(s, left)
    case Rejected => Fails
    case BeyondInput => Unsupported
    case Instruction(i, size, taken) =>
      if !InRange(i, |sheet.bits|) then Unsupported else
      var after := Denote(sheet, i);
      if after.None? then Fails else Mean(s[taken..], left - size, after.value)
  }

  const BLANK := Sheet([], {})

  /** No instruction asks for more bits than its payload has. */
  predicate NoPadding(s: seq<octet>, left: int)
    requires left <= |s|
    decreases |s|
  {
    left <= 0 ||
    match Parse(s, left)
    case Instruction(i, size, taken) =>
      && (i.BitOctets? ==> i.desired <= |i.octets|)
      && (i.BitString? ==> i.desired <= 8 * |i.octets|)
      && NoPadding(s[taken..], left - size)
    case _ => true
  }

  /** No instruction has surplus bits or octets. */
  predicate Tidy(s: seq<octet>, left: int)
    requires left <= |s|
    decreases |s|
  {
    left <= 0 ||
    match Parse(s, left)
    case Instruction(i, size, taken) => NoSurplus(i) && Tidy(s[taken..], left - size)
    case _ => true
  }
}
