/** What follows for streams and their outputs. */
module PerTheorems {
  import opened PerBits
  import opened PerStream
  import opened PerSheets
  import opened PerComplete

  // ------------------------------------------------------------------ surplus bits

  /** Every extra one falls on a place that is one anyway, or behind the output. */
  predicate Harmless(sheet: Sheet) {
    forall k <- sheet.extra :: k < OutputSize(sheet.bits) ==> Shows(sheet.bits, 0, k)
  }

  /** The output is the complete encoding of the bits meant if and only if no surplus one
      falls on a zero of it. */
  lemma CompleteIffHarmless(octets: seq<octet>, sheet: Sheet)
    requires IsOutput(octets, sheet)
    ensures IsComplete(octets, sheet.bits) <==> Harmless(sheet)
  {
    hide Bits;
    var size := OutputSize(sheet.bits);
    var r := Written(sheet, size);
    var whole := if sheet.bits == [] then Zeros(8) else Aligned(sheet.bits);
    assert |whole| == size && forall k :: 0 <= k < size ==> (whole[k] <==> Shows(sheet.bits, 0, k));
    if Harmless(sheet) {
      assert forall k :: 0 <= k < size ==> r[k] == whole[k];
      assert r == whole;
    } else {
      var k :| k in sheet.extra && k < size && !Shows(sheet.bits, 0, k);
      assert r[k] != whole[k];
    }
  }

  lemma NothingExtra(sheet: Sheet, i: Instr)
    requires sheet.extra == {} && InRange(i, |sheet.bits|) && NoSurplus(i)
    ensures Extra(sheet, i) == {}
  {
    hide Octet, Bits;
    match i
    case LowBits(count, val) =>
      var s := Octet(val);
      if count < 8 {
        assert forall k :: 0 <= k < 8 - count ==> s[k] == s[..8 - count][k];
      }
    case OctetsExcept(unused, octets) =>
      if octets != [] && unused > 0 {
        assert 8 * (|octets| - 1) + (8 - unused) == 8 * |octets| - unused;
        NothingBehindPart(|sheet.bits|, octets, |octets| - 1, 8 - unused);
      }
    case BitString(desired, octets) =>
      if desired < 8 * |octets| {
        LastPart(|sheet.bits|, octets, desired);
      }
    case _ =>
  }

  /** If the last octet of a cut bit string is needed and the surplus is zero, nothing is left. */
  lemma LastPart(p: nat, octets: seq<octet>, desired: nat)
    requires 8 * (|octets| - 1) <= desired < 8 * |octets|
    requires Bits(octets)[desired..] == Zeros(8 * |octets| - desired)
    ensures Behind(p + 8 * (desired / 8), desired % 8, Octet(octets[desired / 8])) == {}
  {
    hide Octet, Bits, Behind;
    var q, n := |octets| - 1, desired - 8 * (|octets| - 1);
    assert desired / 8 == q && desired % 8 == n;
    NothingBehindPart(p, octets, q, n);
  }

  lemma NothingBehindPart(p: nat, octets: seq<octet>, q: nat, n: nat)
    requires q == |octets| - 1 && n <= 8 && Bits(octets)[8 * q + n..] == Zeros(8 - n)
    ensures Behind(p + 8 * q, n, Octet(octets[q])) == {}
  {
    LastAt(octets);
    hide Octet, Bits;
    var front, s := Bits(octets[..q]), Octet(octets[q]);
    forall k | n <= k < 8
      ensures !s[k]
    {
      assert s[k] == (front + s)[8 * q + k];
      assert (front + s)[8 * q + k] == Bits(octets)[8 * q + n..][k - n];
    }
  }

  /** A stream without surplus puts out nothing extra. */
  lemma {:induction false} TidyMeans(s: seq<octet>, left: int, sheet: Sheet)
    requires left <= |s| && Tidy(s, left) && sheet.extra == {} && Mean(s, left, sheet).Denotes?
    ensures Mean(s, left, sheet).sheet.extra == {}
    decreases |s|
  {
    hide Parse, Meant, NoSurplus, InRange, Extra;
    if left > 0 {
      var p := Parse(s, left);
      NothingExtra(sheet, p.instr);
      TidyMeans(s[p.taken..], left - p.size, Denote(sheet, p.instr).value);
    }
  }

  /** So its output is the complete encoding of the bits it means. */
  lemma TidyIsComplete(s: seq<octet>, octets: seq<octet>)
    requires Tidy(s, |s|) && Mean(s, |s|, BLANK).Denotes? && IsOutput(octets, Mean(s, |s|, BLANK).sheet)
    ensures IsComplete(octets, Mean(s, |s|, BLANK).sheet.bits)
  {
    TidyMeans(s, |s|, BLANK);
    CompleteIffHarmless(octets, Mean(s, |s|, BLANK).sheet);
  }

  /** Four bits of an octet of ones, then a zero bit: the surplus makes that bit and the three
      behind it ones. */
  lemma SurplusExample(octets: seq<octet>)
    ensures var sheet := Sheet([true, true, true, true, false], {4, 5, 6, 7});
            && Mean([30, 4, 1, 255, 0], 5, BLANK) == Denotes(sheet)
            && !Harmless(sheet) && (IsOutput(octets, sheet) ==> octets == [255])
  {
    var s: seq<octet> := [30, 4, 1, 255, 0];
    var i := OctetsExcept(4, [255]);
    var four := Sheet([true, true, true, true], {4, 5, 6, 7});
    var sheet := Sheet([true, true, true, true, false], {4, 5, 6, 7});
    assert s[3..4] == [255] && s[4..] == [0];
    assert Parse(s, 5) == Instruction(i, 4, 4);
    FourOfAllOnes([255]);
    assert Mean(s, 5, BLANK) == Mean([0], 1, four);
    ZeroBitMeans(four);
    assert four.bits + [false] == sheet.bits;
    assert 4 in sheet.extra;
    if IsOutput(octets, sheet) {
      AllOnes();
      hide Octet, Bits;
      assert Written(sheet, 8) == Bits([255]);
      BitsInjective(octets, [255]);
    }
  }

  lemma FourOfAllOnes(octets: seq<octet>)
    requires octets == [255]
    ensures Denote(BLANK, OctetsExcept(4, octets)) == Some(Sheet([true, true, true, true], {4, 5, 6, 7}))
  {
    AllOnes();
    FourBits(octets);
    hide Octet, Bits, Meant;
    assert octets[..0] == [];
    assert Behind(0, 4, Octet(255)) == {4, 5, 6, 7};
    assert AfterPart(BLANK, octets, 0, 4) == {} + Behind(0, 4, Octet(octets[0]));
    assert Extra(BLANK, OctetsExcept(4, octets)) == {4, 5, 6, 7};
  }

  lemma FourBits(octets: seq<octet>)
    requires octets == [255]
    ensures Meant([], OctetsExcept(4, octets)) == Some([true, true, true, true])
  {
    AllOnes();
    hide Octet, Bits;
    var s := Bits(octets)[..4];
    assert s == [true, true, true, true];
    assert [] + s == s;
  }

  lemma ZeroBitMeans(sheet: Sheet)
    ensures Mean([0], 1, sheet) == Denotes(Sheet(sheet.bits + [false], sheet.extra))
  {
    assert Parse([0], 1) == Instruction(Bit(false), 1, 1);
    assert Denote(sheet, Bit(false)) == Some(Sheet(sheet.bits + [false], sheet.extra));
    assert Mean([0], 1, sheet) == Mean([0 as octet][1..], 0, Sheet(sheet.bits + [false], sheet.extra));
  }

  lemma AllOnes()
    ensures Octet(255) == Bits([255]) && forall k :: 0 <= k < 8 ==> Octet(255)[k]
  {
    assert [255 as octet][..0] == [];
  }

  // ------------------------------------------------------------------- composition

  /** Every instruction takes its whole payload from the input. */
  predicate TakesAll(s: seq<octet>)
    decreases |s|
  {
    s == [] ||
    match Parse(s, |s|)
    case Instruction(_, size, taken) => taken == size && TakesAll(s[taken..])
    case _ => true
  }

  lemma {:induction false} TidyTakesAll(s: seq<octet>)
    requires Tidy(s, |s|)
    ensures TakesAll(s)
    decreases |s|
  {
    if s != [] && Parse(s, |s|).Instruction? {
      TakenOfTidy(s);
      TidyTakesAll(s[Parse(s, |s|).taken..]);
    }
  }

  lemma TakenOfTidy(s: seq<octet>)
    requires s != [] && Parse(s, |s|).Instruction?
    requires NoSurplus(Parse(s, |s|).instr)
    ensures Parse(s, |s|).taken == Parse(s, |s|).size
  {
    hide Octet, Bits;
  }

  lemma HeaderLocal(s: seq<octet>, t: seq<octet>)
    requires s != [] && HeaderSize(s[0]) <= |s|
    ensures (s + t)[0] == s[0]
    ensures PayloadSize(s + t) == PayloadSize(s) && Operand(s + t) == Operand(s)
  {
    var h := HeaderSize(s[0]);
    assert forall k :: 0 <= k < h ==> (s + t)[k] == s[k];
  }

  lemma ParsePayloadLocal(s: seq<octet>, t: seq<octet>)
    requires s != [] && HasPayload(s[0]) && Parse(s, |s|).Instruction?
    ensures Parse(s + t, |s + t|) == Parse(s, |s|)
  {
    hide HeaderSize, PayloadSize, Operand, PayloadInstr, HasPayload, Parse, TakenOctets;
    ParsePayload(s, |s|);
    ParsePayload(s + t, |s + t|);
    HeaderLocal(s, t);
    var h, n := HeaderSize(s[0]), PayloadSize(s);
    SliceLocal(s, t, h, h + n);
  }

  lemma SliceLocal(s: seq<octet>, t: seq<octet>, from: nat, to: nat)
    requires from <= to <= |s|
    ensures (s + t)[from..to] == s[from..to]
  {
  }

  lemma ParseLocal(s: seq<octet>, t: seq<octet>)
    requires s != [] && Parse(s, |s|).Instruction?
    ensures Parse(s + t, |s + t|) == Parse(s, |s|)
  {
    if HasPayload(s[0]) {
      ParsePayloadLocal(s, t);
    } else {
      hide HeaderSize, PayloadSize, Operand, PayloadInstr, TakenOctets;
    }
  }

  /** Streams compose: putting one behind another continues with the sheet of the first, so
      alignment in the second counts from the start of the whole output. */
  lemma {:induction false} MeanAppend(s: seq<octet>, t: seq<octet>, sheet: Sheet)
    requires TakesAll(s) && Mean(s, |s|, sheet).Denotes?
    ensures Mean(s + t, |s + t|, sheet) == Mean(t, |t|, Mean(s, |s|, sheet).sheet)
    decreases |s|
  {
    hide Parse, Denote, InRange;
    if s == [] {
      assert s + t == t;
    } else {
      ParseLocal(s, t);
      var p := Parse(s, |s|);
      assert (s + t)[p.taken..] == s[p.taken..] + t;
      MeanAppend(s[p.taken..], t, Denote(sheet, p.instr).value);
    }
  }

  /** Streams without surplus compose. */
  lemma TidyAppend(s: seq<octet>, t: seq<octet>, sheet: Sheet)
    requires Tidy(s, |s|) && Mean(s, |s|, sheet).Denotes?
    ensures Mean(s + t, |s + t|, sheet) == Mean(t, |t|, Mean(s, |s|, sheet).sheet)
  {
    TidyTakesAll(s);
    MeanAppend(s, t, sheet);
  }

  /** The complete encoding is determined by the bits, and the bits by it up to the zeros at
      the end. */
  lemma CompleteUnique(s: seq<octet>, t: seq<octet>, bits: seq<bool>, more: seq<bool>)
    requires IsComplete(s, bits) && IsComplete(t, more)
    ensures bits == more ==> s == t
    ensures s == t && |bits| == |more| ==> bits == more
  {
    if bits == more {
      BitsInjective(s, t);
    }
    if s == t && |bits| == |more| {
      assert bits == Bits(s)[..|bits|] && more == Bits(t)[..|more|];
    }
  }
}
