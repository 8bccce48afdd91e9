/** The memory accounting of the PER completion step: the size of the output buffer, the space
    the code believes to be left in it, and for which streams every write stays inside. */
module PerCapacity {
  import opened PerBits
  import opened PerStream

  /** The macro CEIL(x, 8); the division truncates. */
  function Ceil8(x: int): int {
    if x >= 1 then (x - 1) / 8 + 1 else -((1 - x) / 8) + 1
  }

  /** Octets of buffer, and space in it that the code counts as left. */
  datatype Account = Account(size: int, space: int)

  function Free(p: nat): nat {
    8 - p % 8
  }

  /** Octets begun when n bits are put at place p. */
  function NewOctets(p: nat, n: nat): nat {
    (p % 8 + n) / 8
  }

  lemma NewOctetsAdd(p: nat, n: nat)
    ensures NewOctets(p, 0) == 0 && NewOctets(p, n) + NewOctets(p + n, 1) == NewOctets(p, n + 1)
  {
  }

  /** Octets the code wants to have saved before it pads; opcode 40 asks in its own way. */
  function NeededFor(op40: bool, desired: nat, n: nat, unused: nat): int {
    if op40 then (if desired - n - unused > 0 then Ceil8(desired - n - unused) else 0)
    else Ceil8(desired - unused) - n
  }

  function Needed(op: octet, i: Instr, unused: nat): int
    requires i.BitOctets? || i.BitString?
  {
    NeededFor(op == 40 && i.BitOctets?, i.desired, |i.octets|, unused)
  }

  /** The reallocation in front of opcodes 40 to 47, with `counter` octets of input left. */
  function Reallocated(op: octet, i: Instr, p: nat, counter: int, a: Account): Account {
    if !(i.BitOctets? || i.BitString?) then a else
    Grown(a, counter, Needed(op, i, Free(p)))
  }

  function Grown(a: Account, counter: int, needed: int): Account {
    if a.space - counter < needed then Account(a.size + needed, a.space + needed) else a
  }

  /** What the code counts as used up by an instruction. */
  function Counted(i: Instr, p: nat): int {
    match i
    case Bit(_) => NewOctets(p, 1)
    case Align => if Free(p) != 8 then 1 else 0
    case LowBits(count, _) => if count < Free(p) then 0 else 1
    case Octets(_) => if Free(p) != 8 then 1 else 0
    case OctetsExcept(unused, octets) =>
      if unused == 0 then |octets| else |octets| - 1 + if 8 - unused >= Free(p) then 1 else 0
    case BitOctets(desired, octets) =>
      if desired > |octets| then NewOctets(p + |octets|, desired - |octets|) else 0
    case BitString(desired, octets) => if desired == 8 * |octets| then |octets| else Ceil8(desired)
  }

  function Booked(op: octet, i: Instr, p: nat, counter: int, a: Account): Account {
    var b := Reallocated(op, i, p, counter, a);
    Account(b.size, b.space - Counted(i, p))
  }

  lemma GrownSize(a: Account, counter: int, needed: int)
    ensures a.space > counter ==> Grown(a, counter, needed).size >= a.size
  {
  }

  lemma BookedPayload(op: octet, operand: nat, payload: seq<octet>, p: nat, counter: int, a: Account)
    requires HasPayload(op)
    ensures var i := PayloadInstr(op, operand, payload);
            var b := if op >= 40 then Grown(a, counter, NeededFor(op == 40, operand, |payload|, Free(p))) else a;
            Booked(op, i, p, counter, a) == Account(b.size, b.space - Counted(i, p))
  {
    hide Counted, NeededFor, Grown;
  }

  /** What is asked for: the least number of octets that hold the bits behind the octet begun,
      less those of the payload; opcode 40 asks for the padding alone. */
  lemma NeededLaw(op40: bool, desired: nat, n: nat, unused: nat)
    requires unused <= 8
    ensures var bits := if op40 then desired - n - unused else desired - unused;
            var m := NeededFor(op40, desired, n, unused) + if op40 then 0 else n;
            if bits >= 1 then 8 * (m - 1) < bits <= 8 * m else m == if op40 || bits < -6 then 0 else 1
  {
  }

  /** What is counted: exactly the octets begun, but of octets none and of octets as bits those
      of the padding alone; a bit string counts as the octets its bits fill. */
  lemma CountedLaw(i: Instr, p: nat)
    requires InRange(i, p) && (i.OctetsExcept? && i.octets == [] ==> i.unused == 0)
    ensures match i
            case Octets(_) => Counted(i, p) == if p % 8 == 0 then 0 else 1
            case BitOctets(desired, octets) =>
              Counted(i, p) == if desired > |octets| then (p + desired) / 8 - (p + |octets|) / 8 else 0
            case BitString(desired, octets) =>
              (desired >= 1 ==> 8 * (Counted(i, p) - 1) < desired <= 8 * Counted(i, p))
              && (desired == 0 ==> Counted(i, p) == if octets == [] then 0 else 1)
            case _ => Counted(i, p) == Length(p, i) / 8 - p / 8
  {
  }

  /** Every octet that is begun while the stream is carried out lies in the buffer. */
  predicate Inside(s: seq<octet>, left: int, sheet: Sheet, a: Account)
    requires left <= |s|
    decreases |s|
  {
    left <= 0 ||
    match Parse(s, left)
    case Instruction(i, size, taken) =>
      InRange(i, |sheet.bits|) && Denote(sheet, i).Some? ==>
        var b := Booked(s[0], i, |sheet.bits|, left - 1, a);
        var after := Denote(sheet, i).value;
        |after.bits| / 8 + 1 <= b.size && Inside(s[taken..], left - size, after, b)
    case _ => true
  }

  // --------------------------------------------------------- which streams are safe

  /** Asks for more bits than the payload has. */
  predicate Pads(i: Instr) {
    (i.BitOctets? && i.desired > |i.octets|) || (i.BitString? && i.desired > 8 * |i.octets|)
  }

  /** Puts out octets that the code does not count. */
  predicate Miscounts(i: Instr) {
    (i.Octets? || i.BitOctets?) && i.octets != []
  }

  /** No instruction that pads stands behind one that miscounts. */
  predicate PadsWhileExact(s: seq<octet>, left: int, exact: bool)
    requires left <= |s|
    decreases |s|
  {
    left <= 0 ||
    match Parse(s, left)
    case Instruction(i, size, taken) =>
      (Pads(i) ==> exact) && PadsWhileExact(s[taken..], left - size, exact && !Miscounts(i))
    case _ => true
  }

  /** Room for one octet more than there is input left, except at the very start; the code's idea of the space is no less
      than the input left and, as long as it counted exactly, no more than the truth. */
  predicate Sound(bits: nat, rest: nat, left: int, a: Account, exact: bool) {
    && a.size - bits / 8 >= 1
    && (left > 0 ==> a.size - bits / 8 > left || (bits == 0 && a.size == left == rest))
    && (left > 0 ==> a.space >= left)
    && (exact ==> a.size - bits / 8 >= a.space)
  }

  lemma CeilBounds(x: int)
    ensures 8 * Ceil8(x) >= x && (x >= 1 ==> 8 * Ceil8(x) <= x + 7)
    ensures if x >= 1 then Ceil8(x) >= 1 else Ceil8(x) <= 1
  {
  }

  lemma CeilStep(x: nat, u: nat)
    requires u <= 8
    ensures Ceil8(x) <= Ceil8(x - u) + 1
  {
  }

  /** The number of bits an instruction puts out. */
  function Length(p: nat, i: Instr): nat
    requires InRange(i, p)
  {
    match i
    case Bit(_) => p + 1
    case Align => p + (8 - p % 8) % 8
    case LowBits(count, _) => p + count
    case Octets(octets) => p + (8 - p % 8) % 8 + 8 * |octets|
    case OctetsExcept(unused, octets) => p + if octets == [] then 0 else 8 * |octets| - unused
    case BitOctets(desired, _) => p + desired
    case BitString(desired, _) => p + desired
  }

  lemma MeantLength(bits: seq<bool>, i: Instr)
    requires InRange(i, |bits|) && Meant(bits, i).Some?
    ensures |Meant(bits, i).value| == Length(|bits|, i)
  {
    hide Octet, Bits, Flags, InPlaces;
  }

  /** An instruction of k octets at the front of `rest` octets, `left` of them to account for. */
  predicate Sized(i: Instr, k: nat, rest: nat, left: int) {
    match i
    case Bit(_) => k == 1
    case Align => k == 1
    case LowBits(_, _) => k == 3 <= rest
    case Octets(octets) => |octets| + 2 <= k <= left
    case OctetsExcept(_, octets) => |octets| + 3 <= k <= left
    case BitOctets(_, octets) => |octets| + 3 <= k <= left
    case BitString(_, octets) => |octets| + 3 <= k <= left
  }

  lemma ParseSized(s: seq<octet>, left: int)
    requires 0 < left <= |s| && Parse(s, left).Instruction?
    ensures Sized(Parse(s, left).instr, Parse(s, left).size, |s|, left)
  {
    hide Operand, PayloadSize;
  }

  /** Who does not pad needs no more memory. */
  lemma NothingNeeded(op: octet, i: Instr, p: nat, left: int, a: Account)
    requires !Pads(i) && a.space >= left
    ensures Reallocated(op, i, p, left - 1, a) == a
  {
    if i.BitOctets? || i.BitString? {
      CeilBounds(i.desired - Free(p));
    }
  }

  /** How many octets an instruction begins, and how many the code counts. */
  lemma CountBounds(i: Instr, p: nat, k: nat, rest: nat, left: int)
    requires InRange(i, p) && Sized(i, k, rest, left) && !Pads(i) && (i.OctetsExcept? && i.octets == [] ==> i.unused == 0)
    ensures var begun := Length(p, i) / 8 - p / 8;
            && 0 <= begun <= k && Counted(i, p) <= k
            && (!Miscounts(i) ==> begun <= Counted(i, p))
            && (k > 1 ==> begun < k) && (k == 1 && p == 0 ==> begun == 0) && (i.LowBits? ==> begun <= 1)
  {
    if i.BitString? {
      CeilBounds(i.desired);
    }
  }

  lemma SoundWithoutPadding(op: octet, i: Instr, p: nat, k: nat, rest: nat, left: int, a: Account, exact: bool, after: nat)
    requires InRange(i, p) && Sized(i, k, rest, left) && !Pads(i) && (i.OctetsExcept? && i.octets == [] ==> i.unused == 0)
    requires left > 0 && Sound(p, rest, left, a, exact)
    ensures Sound(Length(p, i), after, left - k, Booked(op, i, p, left - 1, a), exact && !Miscounts(i))
  {
    NothingNeeded(op, i, p, left, a);
    CountBounds(i, p, k, rest, left);
    hide InRange, Sized, Length, Counted, Reallocated, Miscounts;
  }

  /** Padding asks for as much as it begins, but for the octet it starts in. */
  lemma PaddingBounds(op: octet, i: Instr, p: nat)
    requires Pads(i)
    ensures var n, begun := |i.octets|, Length(p, i) / 8 - p / 8;
            0 <= begun <= Needed(op, i, Free(p)) + n + 1 && Counted(i, p) <= Needed(op, i, Free(p)) + n + 1
  {
    var n, u := |i.octets|, Free(p);
    if op == 40 && i.BitOctets? {
      CeilBounds(i.desired - n - u);
    }
    CeilBounds(i.desired);
    CeilStep(i.desired, u);
    CeilBounds(i.desired - u);
  }

  lemma PaddingCounted(i: Instr, p: nat)
    requires Pads(i)
    ensures var begun := Length(p, i) / 8 - p / 8; !Miscounts(i) ==> begun <= Counted(i, p)
  {
    CeilBounds(i.desired);
  }

  /** Padding behind exact counting: the memory asked for is enough. */
  lemma SoundWithPadding(op: octet, i: Instr, p: nat, k: nat, rest: nat, left: int, a: Account, after: nat)
    requires Pads(i) && Sized(i, k, rest, left) && left > 0 && Sound(p, rest, left, a, true)
    ensures Sound(Length(p, i), after, left - k, Booked(op, i, p, left - 1, a), !Miscounts(i))
  {
    PaddingBounds(op, i, p);
    PaddingCounted(i, p);
    hide Needed, Length, Counted, Miscounts;
  }

  /** If padding comes before everything the code miscounts, every write stays inside. */
  lemma {:induction false} StaysInside(s: seq<octet>, left: int, sheet: Sheet, a: Account, exact: bool)
    requires left <= |s| && PadsWhileExact(s, left, exact) && Sound(|sheet.bits|, |s|, left, a, exact)
    ensures Inside(s, left, sheet, a)
    decreases |s|
  {
    hide Parse, Denote, Booked, Sound, InRange, Pads, Miscounts;
    if left > 0 && Parse(s, left).Instruction? {
      var p := Parse(s, left);
      if InRange(p.instr, |sheet.bits|) && Denote(sheet, p.instr).Some? {
        var after := Denote(sheet, p.instr).value;
        SoundStep(s, left, sheet, a, exact);
        StaysInside(s[p.taken..], left - p.size, after, Booked(s[0], p.instr, |sheet.bits|, left - 1, a),
                    exact && !Miscounts(p.instr));
      }
    }
  }

  lemma SoundStep(s: seq<octet>, left: int, sheet: Sheet, a: Account, exact: bool)
    requires 0 < left <= |s| && Parse(s, left).Instruction? && Sound(|sheet.bits|, |s|, left, a, exact)
    requires var i := Parse(s, left).instr;
             InRange(i, |sheet.bits|) && Denote(sheet, i).Some? && (Pads(i) ==> exact)
    ensures var p := Parse(s, left);
            var b := Booked(s[0], p.instr, |sheet.bits|, left - 1, a);
            var bits := Denote(sheet, p.instr).value.bits;
            Sound(|bits|, |s| - p.taken, left - p.size, b, exact && !Miscounts(p.instr)) && |bits| / 8 + 1 <= b.size
  {
    hide Parse, Booked, Pads, Miscounts, Extra;
    var p := Parse(s, left);
    ParseSized(s, left);
    MeantLength(sheet.bits, p.instr);
    if Pads(p.instr) {
      SoundWithPadding(s[0], p.instr, |sheet.bits|, p.size, |s|, left, a, |s| - p.taken);
    } else {
      SoundWithoutPadding(s[0], p.instr, |sheet.bits|, p.size, |s|, left, a, exact, |s| - p.taken);
    }
  }

  /** From the start the account is sound. */
  lemma WholeStreamInside(s: seq<octet>)
    requires s != [] && PadsWhileExact(s, |s|, true)
    ensures Inside(s, |s|, BLANK, Account(|s|, |s|))
  {
    StaysInside(s, |s|, BLANK, Account(|s|, |s|), true);
  }

  lemma SoundAtStart(n: nat)
    requires n > 0
    ensures Sound(0, n, n, Account(n, n), true)
  {
  }

  lemma InsideStep(s: seq<octet>, left: int, sheet: Sheet, a: Account)
    requires 0 < left <= |s| && Parse(s, left).Instruction?
    requires InRange(Parse(s, left).instr, |sheet.bits|) && Denote(sheet, Parse(s, left).instr).Some?
    ensures var p := Parse(s, left);
            var b := Booked(s[0], p.instr, |sheet.bits|, left - 1, a);
            var after := Denote(sheet, p.instr).value;
            Inside(s, left, sheet, a) <==>
              |after.bits| / 8 + 1 <= b.size && Inside(s[p.taken..], left - p.size, after, b)
  {
  }

  lemma InsideDone(s: seq<octet>, left: int, sheet: Sheet, a: Account)
    requires left <= 0 && left <= |s|
    ensures Inside(s, left, sheet, a)
  {
  }

  lemma PadsStep(s: seq<octet>, left: int, exact: bool)
    requires 0 < left <= |s| && Parse(s, left).Instruction? && PadsWhileExact(s, left, exact)
    ensures var p := Parse(s, left);
            (Pads(p.instr) ==> exact) && PadsWhileExact(s[p.taken..], left - p.size, exact && !Miscounts(p.instr))
  {
  }

  /** One turn, for the whole walk and, for a sound stream, for the account. */
  lemma TurnKeeps(s: seq<octet>, left: int, sheet: Sheet, a: Account, sound: bool, exact: bool)
    requires 0 < left <= |s| && Parse(s, left).Instruction?
    requires InRange(Parse(s, left).instr, |sheet.bits|) && Denote(sheet, Parse(s, left).instr).Some?
    requires sound ==> PadsWhileExact(s, left, exact) && Sound(|sheet.bits|, |s|, left, a, exact)
    ensures var p := Parse(s, left);
            var b, after := Booked(s[0], p.instr, |sheet.bits|, left - 1, a), Denote(sheet, p.instr).value;
            var exact' := exact && !Miscounts(p.instr);
            && (Inside(s, left, sheet, a) <==>
                  |after.bits| / 8 + 1 <= b.size && Inside(s[p.taken..], left - p.size, after, b))
            && (sound ==> PadsWhileExact(s[p.taken..], left - p.size, exact') && |after.bits| / 8 + 1 <= b.size)
            && (sound ==> Sound(|after.bits|, |s| - p.taken, left - p.size, b, exact'))
  {
    hide Parse, Denote, InRange, Inside, PadsWhileExact, Sound, Booked, Miscounts, Pads;
    InsideStep(s, left, sheet, a);
    if sound {
      PadsStep(s, left, exact);
      SoundStep(s, left, sheet, a, exact);
    }
  }

  /** An instruction that is given up half-way still writes inside. */
  lemma FailsInside(bits: nat, more: nat, rest: nat, left: int, a: Account, exact: bool)
    requires 0 < left && Sound(bits, rest, left, a, exact) && more <= bits + left - 1
    ensures more / 8 + 1 <= a.size && left <= a.space
  {
  }

  /** Octets that are not counted, then padding: 3 octets are put out, and 56 zero bits where
      the code believes them saved.  Eleven octets are begun in a buffer of nine. */
  lemma CapacityExample(s: seq<octet>)
    requires s == [20, 3, 1, 2, 3, 42, 0, 56, 0]
    ensures !Inside(s, 9, BLANK, Account(9, 9)) && !PadsWhileExact(s, 9, true)
  {
    ExampleOctets(s);
    ExamplePadding(s[5..]);
    TwoSteps(s, Octets([1, 2, 3]), BitOctets(56, []));
  }

  lemma ExampleOctets(s: seq<octet>)
    requires s == [20, 3, 1, 2, 3, 42, 0, 56, 0]
    ensures Parse(s, 9) == Instruction(Octets([1, 2, 3]), 5, 5) && s[0] == 20 && s[5..] == [42, 0, 56, 0]
  {
    assert s[2..2 + 3] == [1, 2, 3];
  }

  lemma ExamplePadding(t: seq<octet>)
    requires t == [42, 0, 56, 0]
    ensures Parse(t, 4) == Instruction(BitOctets(56, []), 4, 4) && t[0] == 42
  {
    assert t[4..4] == [];
    assert Word(0, 56) == 56;
  }

  lemma TwoSteps(s: seq<octet>, i: Instr, j: Instr)
    requires |s| == 9 && Parse(s, 9) == Instruction(i, 5, 5) && i.Octets? && |i.octets| == 3 && s[0] == 20
    requires var t := s[5..]; Parse(t, 4) == Instruction(j, 4, 4) && j == BitOctets(56, []) && t[0] == 42
    ensures !Inside(s, 9, BLANK, Account(9, 9)) && !PadsWhileExact(s, 9, true)
  {
    hide Parse, Inside, PadsWhileExact, Extra, Bits;
    MeantLength([], i);
    var after := Denote(BLANK, i).value;
    InsideStep(s, 9, BLANK, Account(9, 9));
    MeantLength(after.bits, j);
    InsideStep(s[5..], 4, after, Account(9, 9));
    if PadsWhileExact(s, 9, true) {
      PadsStep(s, 9, true);
      PadsStep(s[5..], 4, false);
    }
  }
}
