/** Why octets do not decode, stated on the octets: which error is answered, and where. */
module BerErrors {
  import opened Ber
  import opened BerLengths
  import opened BerTheorems
  import opened BerMeaning

  /** The identifier at i cannot be read: less than two octets are left, or less than three for
      a long tag; or a long tag does not end within three octets. */
  ghost predicate BadIdentifier(b: seq<byte>, i: nat, e: Error, p: nat) {
    || (e == ValueError && p == i && (i + 2 > |b| || (b[i] % 32 == 31 && i + 3 > |b|)))
    || (e == TagError && p == i + 2 && i + 3 <= |b| && b[i] % 32 == 31 && b[i + 1] >= 128 && b[i + 2] >= 128)
  }

  /** The length field at j, behind an identifier, cannot be read: it is missing; the end mark
      has no list to end or no room; octets of it are missing; its number does not fit 32 bits,
      which is noticed at the first octet behind a prefix of 2^24 or more; or the contents it
      announces are not there, which is noticed at its last octet. */
  ghost predicate BadLength(b: seq<byte>, j: nat, constructed: bool, e: Error, p: nat) {
    || (e == TagError && p == j >= |b|)
    || (j < |b| && b[j] == 0x80 && e == IndefLenError && p == j + 1 && (!constructed || j + 2 >= |b|))
    || (j < |b| && b[j] > 0x80 && e == LenError && p == j && j + 1 + (b[j] - 128) > |b|)
    || (j < |b| && b[j] > 0x80 && e == LenError && TooLongAt(b, j, p))
    || (e == ValueError && exists k: nat, size: nat :: FieldAt(b, j, k, size) && k == p + 1 && k + size > |b| && size < TWO_32)
  }

  ghost predicate TooLongAt(b: seq<byte>, j: nat, p: nat)
    requires j < |b| && b[j] > 0x80
  {
    && j + 1 < p <= j + (b[j] - 128) < |b| && BigEndianValue(b[j + 1..p]) >= LEN_GUARD
    && (j + 2 < p ==> BigEndianValue(b[j + 1..p - 1]) < LEN_GUARD)
  }

  /** The octets at i fail with e, noticed at p: in their own identifier or length, or in the
      first element that fails. */
  ghost predicate FailsAt(b: seq<byte>, i: nat, e: Error, p: nat)
    requires i <= |b|
    decreases |b| - i, 1
  {
    || BadIdentifier(b, i, e, p)
    || exists j: nat, h :: HeaderAt(b, i, j, h, true) && i + 2 <= |b| && ValueFailsAt(b, j, h.constructed, e, p)
  }

  ghost predicate ValueFailsAt(b: seq<byte>, j: nat, constructed: bool, e: Error, p: nat)
    requires j <= |b|
    decreases |b| - j, 3
  {
    || BadLength(b, j, constructed, e, p)
    || (constructed && j < |b| && b[j] == 0x80 && MarkedFailsAt(b, j + 1, e, p))
    || (constructed && exists k: nat, size: nat ::
          FieldAt(b, j, k, size) && k + size <= |b| && ElemsFailAt(b, k, k + size, e, p))
  }

  ghost predicate ElemsFailAt(b: seq<byte>, i: nat, end: nat, e: Error, p: nat)
    requires i <= |b|
    decreases |b| - i, 2
  {
    && i < end
    && (FailsAt(b, i, e, p)
        || exists m: nat, t :: i < m <= |b| && ReadsAt(b, i, m, t, true) && ElemsFailAt(b, m, end, e, p))
  }

  ghost predicate MarkedFailsAt(b: seq<byte>, i: nat, e: Error, p: nat)
    requires i <= |b|
    decreases |b| - i, 2
  {
    && i + 1 < |b| && !(b[i] == 0 && b[i + 1] == 0)
    && (FailsAt(b, i, e, p)
        || exists m: nat, t :: i < m <= |b| && ReadsAt(b, i, m, t, true)
             && ((e == IndefLenError && p == m && m + 1 >= |b|) || MarkedFailsAt(b, m, e, p)))
  }

  // ------------------------------------------------------------------------ lengths

  lemma AccumulateParts(len: nat, s: seq<byte>, n: nat)
    requires n <= |s|
    ensures Accumulate(len, s) == Accumulate(Accumulate(len, s[..n]), s[n..])
    decreases n
  {
    if n > 0 {
      assert s[1..][..n - 1] == s[..n][1..] && s[1..][n - 1..] == s[n..];
      AccumulateParts(len * 256 + s[0], s[1..], n - 1);
    } else {
      assert s[..0] == [] && s[0..] == s;
    }
  }

  /** Where the loop gives up: at the first octet with 2^24 or more before it. */
  lemma {:induction false} LoopGivesUp(b: seq<byte>, i: nat, count: nat, len: nat, p: nat)
    requires i + count < |b|
    ensures DecodeLengthOctets(b, i, count, len) == Err(LenError, p) <==>
      && i < p <= i + count && Accumulate(len, b[i + 1..p]) >= LEN_GUARD
      && (i + 1 < p ==> Accumulate(len, b[i + 1..p - 1]) < LEN_GUARD)
    decreases count
  {
    assert b[i + 1..i + 1] == [];
    if count > 0 && len < LEN_GUARD {
      LoopGivesUp(b, i + 1, count - 1, len * 256 + b[i + 1], p);
      if i + 1 < p <= i + count {
        assert b[i + 1..p][1..] == b[i + 2..p];
        if i + 2 < p {
          assert b[i + 1..p - 1][1..] == b[i + 2..p - 1];
        }
      }
    } else if count > 0 && i < p <= i + count {
      AccumulateGrowsTo(len, b[i + 1..p]);
      if i + 1 < p {
        AccumulateGrowsTo(len, b[i + 1..p - 1]);
      }
    }
  }

  lemma AccumulateGrowsTo(len: nat, s: seq<byte>)
    ensures len <= Accumulate(len, s)
  {
    AccumulateGrows(len, s);
  }

  lemma FieldIsUnique(b: seq<byte>, j: nat, k: nat, size: nat)
    requires FieldAt(b, j, k, size)
    ensures b[j] != 0x80 && k == j + 1 + (if b[j] < 128 then 0 else b[j] - 128)
    ensures size == if b[j] < 128 then b[j] else BigEndianValue(b[j + 1..k])
  {
    var field := b[j..k];
    assert field[0] == b[j] && field[1..] == b[j + 1..k];
  }

  lemma FieldOf(b: seq<byte>, j: nat, k: nat)
    requires j < k <= |b| && b[j] != 0x80 && k == j + 1 + (if b[j] < 128 then 0 else b[j] - 128)
    ensures FieldAt(b, j, k, if b[j] < 128 then b[j] else BigEndianValue(b[j + 1..k]))
  {
    var field := b[j..k];
    assert field[0] == b[j] && field[1..] == b[j + 1..k];
  }

  lemma TooLongIsGivenUp(b: seq<byte>, j: nat, p: nat)
    requires j < |b| && b[j] > 0x80 && j + 1 + (b[j] - 128) <= |b|
    ensures DecodeLengthOctets(b, j, b[j] - 128, 0) == Err(LenError, p) <==> TooLongAt(b, j, p)
  {
    hide DecodeLengthOctets, Accumulate, BigEndianValue;
    LoopGivesUp(b, j, b[j] - 128, 0, p);
    if j < p <= j + (b[j] - 128) {
      AccumulateIsValue(b[j + 1..p]);
      if j + 2 < p {
        AccumulateIsValue(b[j + 1..p - 1]);
      } else if j + 1 < p {
        NoDigits(b[j + 1..p - 1]);
      } else {
        NoDigits(b[j + 1..p]);
      }
    }
  }

  lemma NoDigits(s: seq<byte>)
    requires s == []
    ensures Accumulate(0, s) == 0
  {
  }

  /** A definite length field fails as BadLength says. */
  lemma LengthFails(b: seq<byte>, j: nat, constructed: bool, e: Error, p: nat)
    requires |b| <= MAX_INT && j < |b| && b[j] != 0x80
    ensures DecodeLength(b, j) == Err(e, p) <==> BadLength(b, j, constructed, e, p)
  {
    var count := if b[j] < 128 then 0 else b[j] - 128;
    var k := j + 1 + count;
    if k <= |b| {
      FieldOf(b, j, k);
      var size := if b[j] < 128 then b[j] else BigEndianValue(b[j + 1..k]);
      forall k': nat, size': nat | FieldAt(b, j, k', size')
        ensures k' == k && size' == size
      {
        FieldIsUnique(b, j, k', size');
      }
      if b[j] > 128 {
        TooLongIsGivenUp(b, j, p);
        LengthLoop(b, j, count, 0);
        AccumulateIsValue(b[j + 1..k]);
      }
    } else {
      forall k': nat, size': nat | FieldAt(b, j, k', size')
        ensures false
      {
        FieldIsUnique(b, j, k', size');
      }
    }
  }

  lemma TagFails(b: seq<byte>, i: nat, e: Error, p: nat)
    requires i + 2 <= |b|
    ensures DecodeTag(b, i) == Err(e, p) <==> BadIdentifier(b, i, e, p)
  {
  }

  lemma {:induction false} FailsExactly(b: seq<byte>, i: nat, e: Error, p: nat)
    requires |b| <= MAX_INT && i <= |b|
    ensures Decode(b, i) == Err(e, p) <==> FailsAt(b, i, e, p)
    decreases |b| - i, 1
  {
    hide DecodeTag, DecodeValue, HeaderAt, ValueFailsAt;
    if i + 2 <= |b| {
      TagFails(b, i, e, p);
      hide BadIdentifier;
      forall j: nat, h | HeaderAt(b, i, j, h, true)
        ensures DecodeTag(b, i) == Ok(h, j)
      {
        DecoderIdentifies(b, i, h, j);
      }
      var r := DecodeTag(b, i);
      if r.Ok? {
        DecoderIdentifies(b, i, r.value, r.next);
        ValueFails(b, r.next, r.value.constructed, e, p);
      }
    }
  }

  lemma {:induction false} ValueFails(b: seq<byte>, j: nat, constructed: bool, e: Error, p: nat)
    requires |b| <= MAX_INT && j <= |b|
    ensures ValueFailsAt(b, j, constructed, e, p) <==>
      if j == |b| then e == TagError && p == j else DecodeValue(b, j, constructed) == Err(e, p)
    decreases |b| - j, 3
  {
    hide DecodeLength, DecodeIndefinite, DecodeDefinite, ElemsFailAt, MarkedFailsAt;
    if j < |b| {
      forall k: nat, size: nat | FieldAt(b, j, k, size)
        ensures b[j] != 0x80 && (k + size <= |b| ==> DecodeLength(b, j) == Ok(size, k))
      {
        FieldIsUnique(b, j, k, size);
        if k + size <= |b| {
          FieldDecodes(b, j, k, size);
        }
      }
      if b[j] != 0x80 {
        LengthFails(b, j, constructed, e, p);
        var r := DecodeLength(b, j);
        if r.Ok? {
          DecodedLengthDenotes(b, j);
          ElemsFail(b, r.next, r.next + r.value, e, p);
        }
      } else if j + 2 < |b| {
        MarkedFails(b, j + 1, e, p);
      } else if MarkedFailsAt(b, j + 1, e, p) {
        MarkNeedsRoom(b, j + 1, e, p);
      }
      hide FieldAt;
    }
  }

  lemma MarkNeedsRoom(b: seq<byte>, i: nat, e: Error, p: nat)
    requires i <= |b| && MarkedFailsAt(b, i, e, p)
    ensures i + 1 < |b|
  {
  }

  lemma {:induction false} ElemsFail(b: seq<byte>, i: nat, end: nat, e: Error, p: nat)
    requires |b| <= MAX_INT && i <= |b| && end <= |b|
    ensures DecodeDefinite(b, i, end) == Err(e, p) <==> ElemsFailAt(b, i, end, e, p)
    decreases |b| - i, 2
  {
    hide ReadsAt, FailsAt, Decode;
    if i < end {
      FailsExactly(b, i, e, p);
      forall m: nat, t | i < m <= |b| && ReadsAt(b, i, m, t, true)
        ensures Decode(b, i) == Ok(t, m)
      {
        DecodesWhatReads(b, i, m, t);
      }
      var r := Decode(b, i);
      if r.Ok? {
        DecodesWhatReads(b, i, r.next, r.value);
        ElemsFail(b, r.next, end, e, p);
      }
    }
  }

  lemma {:induction false} MarkedFails(b: seq<byte>, i: nat, e: Error, p: nat)
    requires |b| <= MAX_INT && i + 1 < |b|
    ensures DecodeIndefinite(b, i) == Err(e, p) <==> MarkedFailsAt(b, i, e, p)
    decreases |b| - i, 2
  {
    hide ReadsAt, FailsAt, Decode;
    if !(b[i] == 0 && b[i + 1] == 0) {
      FailsExactly(b, i, e, p);
      forall m: nat, t | i < m <= |b| && ReadsAt(b, i, m, t, true)
        ensures Decode(b, i) == Ok(t, m)
      {
        DecodesWhatReads(b, i, m, t);
      }
      var r := Decode(b, i);
      if r.Ok? {
        DecodesWhatReads(b, i, r.next, r.value);
        if r.next + 1 < |b| {
          MarkedFails(b, r.next, e, p);
        }
      }
    }
  }

  // ------------------------------------------------------------------- cut messages

  /** What a message that was cut off anywhere is answered with, whatever it contains: the
      answer depends on how much of its first identifier and length is left. */
  lemma CutMessage(t: Term, n: nat)
    requires Good(t) && |Encode(t)| <= MAX_INT && n < |Encode(t)|
    ensures var tagSize := |TagOctets(t.Constructed?, t.tag)|;
            var lenSize := |LengthOctets(|Contents(t)|)|;
            Decode(Encode(t)[..n], 0) ==
              if n < 2 || (tagSize > 1 && n < 3) then Err(ValueError, 0)
              else if n == tagSize then Err(TagError, n)
              else if n < tagSize + lenSize then Err(LenError, tagSize)
              else Err(ValueError, tagSize + lenSize - 1)
  {
    hide TagOctets, LengthOctets, DecodeTag, DecodeLength, Encode, DecodeValue;
    var b, cut := Encode(t), Encode(t)[..n];
    var body := Contents(t);
    var j := |TagOctets(t.Constructed?, t.tag)|;
    var k := j + |LengthOctets(|body|)|;
    EncodeIsParts(t);
    assert b[0..|b|] == b;
    EncodingLayout(b, 0, t.Constructed?, t.tag, body);
    assert forall q :: 0 <= q < n ==> cut[q] == b[q];
    CutIdentifier(t.Constructed?, t.tag, b, n);
    if n >= 2 && (j == 1 || n >= 3) && n > j {
      CutLength(b, j, k, n, |body|);
      ValueOfCut(cut, j, t.Constructed?);
    }
  }

  lemma ValueOfCut(b: seq<byte>, j: nat, constructed: bool)
    requires j < |b| && b[j] != 0x80 && DecodeLength(b, j).Err?
    ensures DecodeValue(b, j, constructed) == Err(DecodeLength(b, j).error, DecodeLength(b, j).pos)
  {
  }

  lemma CutIdentifier(constructed: bool, tag: nat, b: seq<byte>, n: nat)
    requires GoodTag(tag) && n <= |b| && At(b, 0, TagOctets(constructed, tag))
    ensures var size := |TagOctets(constructed, tag)|;
            && 1 <= size <= 3
            && (n >= 2 && (size == 1 || n >= 3) && n >= size ==>
                  DecodeTag(b[..n], 0) == Ok(Header(constructed, tag), size))
            && (n >= 2 && size > 1 && n < 3 ==> DecodeTag(b[..n], 0) == Err(ValueError, 0))
  {
    var s := TagOctets(constructed, tag);
    TagForms(constructed, tag);
    AtIndex(b, 0, s);
    hide TagOctets;
    assert b[0 + 0] == s[0] && (|s| > 1 ==> b[0 + 1] == s[1]) && (|s| > 2 ==> b[0 + 2] == s[2]);
    FirstOctet(tag / 0x1_0000, constructed, if |s| == 1 then tag % 0x1_0000 else 31);
  }

  lemma CutLength(b: seq<byte>, j: nat, k: nat, n: nat, size: nat)
    requires |b| <= MAX_INT && j < n < |b| && b[j] != 0x80 && DecodeLength(b, j) == Ok(size, k) && k + size == |b|
    ensures DecodeLength(b[..n], j) == if n < k then Err(LenError, j) else Err(ValueError, k - 1)
  {
    var cut := b[..n];
    DecodedLengthDenotes(b, j);
    FieldIsUnique(b, j, k, size);
    if n >= k {
      assert cut[j + 1..k] == b[j + 1..k];
      FieldOf(cut, j, k);
      assert FieldAt(cut, j, k, size);
      LengthFails(cut, j, false, ValueError, k - 1);
    } else {
      LengthFails(cut, j, false, LenError, j);
    }
  }
}
