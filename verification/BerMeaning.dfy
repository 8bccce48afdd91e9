/** What octets mean, stated on the octets themselves and apart from encoder and decoder: which
    octets identify a tag, which octets read as a term, and why octets do not read as one.
    Encoder and decoder are proved to agree with it in both directions. */
module BerMeaning {
  import opened Ber
  import opened BerLengths
  import opened BerTheorems

  // -------------------------------------------------------------------- identifiers

  /** The low seven bits of the octets as digits in base 128. */
  function Folded(s: seq<byte>): nat {
    if s == [] then 0 else Folded(s[..|s| - 1]) * 128 + s[|s| - 1] % 128
  }

  /** The octets s are the identifier of class, form and number (ITU-T X.690, section 8.1.2),
      whether or not they are the shortest ones. */
  ghost predicate Identifies(s: seq<byte>, class_: nat, constructed: bool, number: nat) {
    && s != [] && s[0] / 64 == class_ && (s[0] / 32 % 2 == 1 <==> constructed)
    && if s[0] % 32 < 31 then |s| == 1 && number == s[0] % 32
       else
         && |s| >= 2 && s[|s| - 1] < 128 && (forall k :: 1 <= k < |s| - 1 ==> s[k] >= 128)
         && number == Folded(s[1..])
  }

  lemma FoldedSnoc(s: seq<byte>, d: byte)
    ensures Folded(s + [d]) == Folded(s) * 128 + d % 128
  {
    assert (s + [d])[..|s|] == s;
  }

  lemma {:induction false} ContinuationFolds(n: nat)
    ensures Folded(ContinuationOctets(n)) == n
    decreases n
  {
    if n > 0 {
      ContinuationFolds(n / 128);
      FoldedSnoc(ContinuationOctets(n / 128), n % 128 + 128);
    }
  }

  lemma {:induction false} ContinuationIsHigh(n: nat)
    ensures forall k :: 0 <= k < |ContinuationOctets(n)| ==> ContinuationOctets(n)[k] >= 128
    ensures if n == 0 then ContinuationOctets(n) == []
            else ContinuationOctets(n) != [] && ContinuationOctets(n)[0] != 128
    decreases n
  {
    if n > 0 {
      ContinuationIsHigh(n / 128);
    }
  }

  lemma LongForm(head: byte, high: seq<byte>, last: byte)
    requires head % 32 == 31 && last < 128 && forall k :: 0 <= k < |high| ==> high[k] >= 128
    ensures var s := [head] + (high + [last]);
            && Identifies(s, head / 64, head / 32 % 2 == 1, Folded(high + [last]))
            && |s| > 1 && s[1] == if high == [] then last else high[0]
  {
    hide Folded;
    var s := [head] + (high + [last]);
    assert s[1..] == high + [last];
    assert forall k :: 1 <= k < |s| - 1 ==> s[k] == high[k - 1];
  }

  lemma LongIdentifies(head: byte, number: nat)
    requires head % 32 == 31
    ensures var s := [head] + (ContinuationOctets(number / 128) + [number % 128]);
            && Identifies(s, head / 64, head / 32 % 2 == 1, number) && |s| > 1
            && (number >= 128 ==> s[1] != 128) && (number < 128 ==> s[1] == number)
  {
    hide ContinuationOctets, Folded, Identifies;
    var high := ContinuationOctets(number / 128);
    ContinuationFolds(number / 128);
    ContinuationIsHigh(number / 128);
    FoldedSnoc(high, number % 128);
    LongForm(head, high, number % 128);
  }

  /** For every tag and form the encoder writes the identifier octets of the low two bits of
      the class and of the number below 65536, and no shorter ones exist: the long form is used
      from 31 on, and its first octet is not a leading zero. */
  lemma EncoderIdentifies(constructed: bool, tag: nat)
    ensures var s, number := TagOctets(constructed, tag), tag % 0x1_0000;
            && Identifies(s, tag / 0x1_0000 % 4, constructed, number)
            && (|s| == 1 <==> number < 31) && (|s| > 1 ==> s[1] != 128)
  {
    var class_, number := tag / 0x1_0000 % 4, tag % 0x1_0000;
    FirstOctet(class_, constructed, if number <= 30 then number else 31);
    if number > 30 {
      hide ContinuationOctets, Identifies;
      LongIdentifies((if constructed then 32 else 0) + class_ * 64 + 31, number);
    }
  }

  /** The octets from i to j are the identifier of h.  `short` asks for at most three of them
      and for a tag that is a class and a number. */
  ghost predicate HeaderAt(b: seq<byte>, i: nat, j: nat, h: Header, short: bool) {
    && i < j <= |b| && Identifies(b[i..j], h.tag / 0x1_0000 % 4, h.constructed, h.tag % 0x1_0000)
    && (short ==> j <= i + 3 && h.tag < 0x4_0000 && (j > i + 1 ==> i + 3 <= |b|))
  }

  lemma FoldedShort(s: seq<byte>)
    ensures |s| == 1 ==> Folded(s) == s[0] % 128
    ensures |s| == 2 ==> Folded(s) == (s[0] as int) % 128 * 128 + s[1] % 128
  {
    if |s| == 2 {
      FoldedSnoc(s[..1], s[1]);
      assert s == s[..1] + [s[1]];
      FoldedSnoc([], s[0]);
      assert s[..1] == [] + [s[0]];
    } else if |s| == 1 {
      FoldedSnoc([], s[0]);
      assert s == [] + [s[0]];
    }
  }

  /** The three shapes of an identifier of at most three octets. */
  lemma ShortIdentifier(b: seq<byte>, i: nat, j: nat, class_: nat, constructed: bool, number: nat)
    requires i < j <= i + 3 && j <= |b|
    ensures Identifies(b[i..j], class_, constructed, number) <==>
      && b[i] / 64 == class_ && (b[i] / 32 % 2 == 1 <==> constructed)
      && if b[i] % 32 < 31 then j == i + 1 && number == b[i] % 32
         else if j == i + 2 then b[i + 1] < 128 && number == b[i + 1]
         else j == i + 3 && b[i + 1] >= 128 && b[i + 2] < 128 && number == (b[i + 1] as int - 128) * 128 + b[i + 2]
  {
    var s := b[i..j];
    assert s[0] == b[i];
    if j == i + 2 {
      assert s[1] == b[i + 1];
      FoldedShort(s[1..]);
    } else if j == i + 3 {
      assert s[1] == b[i + 1] && s[2] == b[i + 2];
      FoldedShort(s[1..]);
    }
  }

  lemma HeaderOfShort(h: Header, class_: nat, number: nat)
    requires class_ < 4 && number < 0x1_0000 && h.tag < 0x4_0000
    ensures h.tag / 0x1_0000 % 4 == class_ && h.tag % 0x1_0000 == number <==> h.tag == class_ * 0x1_0000 + number
  {
  }

  /** The decoder reads identifiers of at most three octets, and only those. */
  lemma DecoderIdentifies(b: seq<byte>, i: nat, h: Header, j: nat)
    requires i + 2 <= |b|
    ensures DecodeTag(b, i) == Ok(h, j) <==> HeaderAt(b, i, j, h, true)
  {
    if i < j <= i + 3 && j <= |b| && h.tag < 0x4_0000 {
      var class_ := b[i] / 64;
      ShortIdentifier(b, i, j, h.tag / 0x1_0000 % 4, h.constructed, h.tag % 0x1_0000);
      hide Identifies;
      if b[i] % 32 < 31 {
        HeaderOfShort(h, class_, b[i] % 32);
      } else if i + 3 <= |b| && b[i + 1] < 128 {
        HeaderOfShort(h, class_, b[i + 1]);
      } else if i + 3 <= |b| {
        HeaderOfShort(h, class_, (b[i + 1] as int - 128) * 128 + b[i + 2] % 128);
      }
    }
    hide Identifies;
  }

  // ------------------------------------------------------------------------ values

  /** The octets from j to k are a definite length field of that size. */
  ghost predicate FieldAt(b: seq<byte>, j: nat, k: nat, size: nat) {
    j < k <= |b| && Denotes(b[j..k], size)
  }

  function HeaderOf(t: Term): Header {
    Header(t.Constructed?, t.tag)
  }

  /** The octets from i to n read as t: identifier, then length and contents.  The last element
      of a definite-length list may end behind it. */
  ghost predicate ReadsAt(b: seq<byte>, i: nat, n: nat, t: Term, short: bool)
    requires n <= |b|
    decreases t, 2
  {
    exists j: nat :: HeaderAt(b, i, j, HeaderOf(t), short) && j < n && ValueAt(b, j, n, t, short)
  }

  ghost predicate ValueAt(b: seq<byte>, j: nat, n: nat, t: Term, short: bool)
    requires j < n <= |b|
    decreases t, 1
  {
    match t
    case Primitive(_, value) =>
      exists k: nat :: FieldAt(b, j, k, |value|) && k + |value| == n && value == b[k..n]
    case Constructed(_, elems) =>
      if b[j] == 0x80 then MarkedAt(b, j + 1, n, elems, short)
      else exists k: nat, size: nat :: FieldAt(b, j, k, size) && k + size <= n && ElemsAt(b, k, n, elems, k + size, short)
  }

  /** Elements one after the other; there is one more exactly as long as `end` is not reached. */
  ghost predicate ElemsAt(b: seq<byte>, i: nat, n: nat, ts: seq<Term>, end: nat, short: bool)
    requires n <= |b|
    decreases ts, 0
  {
    if ts == [] then i == n && end <= i
    else i < end && exists m: nat :: i < m <= n && ReadsAt(b, i, m, ts[0], short) && ElemsAt(b, m, n, ts[1..], end, short)
  }

  /** Elements up to the first two zero octets where an element could start. */
  ghost predicate MarkedAt(b: seq<byte>, i: nat, n: nat, ts: seq<Term>, short: bool)
    requires n <= |b|
    decreases ts, 0
  {
    i + 2 <= n &&
    if ts == [] then n == i + 2 && b[i] == 0 && b[i + 1] == 0
    else
      && !(b[i] == 0 && b[i + 1] == 0)
      && exists m: nat :: i < m <= n && ReadsAt(b, i, m, ts[0], short) && MarkedAt(b, m, n, ts[1..], short)
  }

  /** What a length the decoder accepts denotes. */
  lemma DecodedLengthDenotes(b: seq<byte>, j: nat)
    requires j < |b| && b[j] != 0x80 && DecodeLength(b, j).Ok?
    ensures FieldAt(b, j, DecodeLength(b, j).next, DecodeLength(b, j).value)
  {
    var r := DecodeLength(b, j);
    var field := b[j..r.next];
    assert field[0] == b[j];
    if b[j] > 128 {
      var count := b[j] - 128;
      LengthLoop(b, j, count, 0);
      AccumulateIsValue(b[j + 1..j + 1 + count]);
      assert field[1..] == b[j + 1..j + 1 + count];
    }
  }

  lemma FieldDecodes(b: seq<byte>, j: nat, k: nat, size: nat)
    requires |b| <= MAX_INT && FieldAt(b, j, k, size) && k + size <= |b|
    ensures b[j] != 0x80 && DecodeLength(b, j) == Ok(size, k)
  {
    LengthAccepted(b, j, k - j, size);
  }

  lemma {:induction false} DecodedReads(b: seq<byte>, i: nat)
    requires i <= |b| && Decode(b, i).Ok?
    ensures ReadsAt(b, i, Decode(b, i).next, Decode(b, i).value, true)
    decreases |b| - i, 1
  {
    hide DecodeTag, DecodeValue, ValueAt, HeaderAt;
    var h := DecodeTag(b, i);
    var r := Decode(b, i);
    DecoderIdentifies(b, i, h.value, h.next);
    DecodedValue(b, h.next, h.value);
    assert HeaderOf(r.value) == h.value;
    assert ValueAt(b, h.next, r.next, r.value, true);
  }

  lemma {:induction false} DecodedValue(b: seq<byte>, j: nat, h: Header)
    requires j < |b| && DecodeValue(b, j, h.constructed).Ok?
    ensures var r := DecodeValue(b, j, h.constructed); ValueAt(b, j, r.next, MakeTerm(h.tag, r.value), true)
    decreases |b| - j, 3
  {
    hide DecodeLength, FieldAt, MarkedAt, ElemsAt;
    if b[j] == 0x80 {
      DecodedMarked(b, j + 1);
    } else {
      var len := DecodeLength(b, j);
      DecodedLengthDenotes(b, j);
      if h.constructed {
        DecodedElems(b, len.next, len.next + len.value);
      }
    }
  }

  lemma ReadCons(b: seq<byte>, i: nat, t: Term, ts: seq<Term>)
    ensures ([t] + ts)[0] == t && ([t] + ts)[1..] == ts && [t] + ts != []
  {
  }

  lemma {:induction false} DecodedElems(b: seq<byte>, i: nat, end: nat)
    requires i <= |b| && end <= |b| && DecodeDefinite(b, i, end).Ok?
    ensures ElemsAt(b, i, DecodeDefinite(b, i, end).next, DecodeDefinite(b, i, end).value, end, true)
    decreases |b| - i, 2
  {
    if i < end {
      var n := Decode(b, i).next;
      DecodedReads(b, i);
      DecodedElems(b, n, end);
      ReadCons(b, i, Decode(b, i).value, DecodeDefinite(b, n, end).value);
    }
  }

  lemma {:induction false} DecodedMarked(b: seq<byte>, i: nat)
    requires i + 1 < |b| && DecodeIndefinite(b, i).Ok?
    ensures MarkedAt(b, i, DecodeIndefinite(b, i).next, DecodeIndefinite(b, i).value, true)
    decreases |b| - i, 2
  {
    if !(b[i] == 0 && b[i + 1] == 0) {
      var n := Decode(b, i).next;
      DecodedReads(b, i);
      DecodedMarked(b, n);
      ReadCons(b, i, Decode(b, i).value, DecodeIndefinite(b, n).value);
    }
  }

  lemma PrimitiveDecodes(b: seq<byte>, i: nat, j: nat, n: nat, t: Term)
    requires |b| <= MAX_INT && i + 2 <= |b| && j < n <= |b| && DecodeTag(b, i) == Ok(HeaderOf(t), j)
    requires t.Primitive? && ValueAt(b, j, n, t, true)
    ensures Decode(b, i) == Ok(t, n)
  {
    hide DecodeTag, DecodeLength, FieldAt;
    var k: nat :| FieldAt(b, j, k, |t.value|) && k + |t.value| == n && t.value == b[k..n];
    FieldDecodes(b, j, k, |t.value|);
    DecodeContents(b, j, |t.value|, k);
    DecodeParts(b, i, HeaderOf(t), j, Octets(t.value), n);
  }

  lemma DefiniteDecodes(b: seq<byte>, i: nat, j: nat, k: nat, size: nat, n: nat, t: Term)
    requires i + 2 <= |b| && j < |b| && DecodeTag(b, i) == Ok(HeaderOf(t), j) && t.Constructed?
    requires b[j] != 0x80 && DecodeLength(b, j) == Ok(size, k) && DecodeDefinite(b, k, k + size) == Ok(t.elems, n)
    ensures Decode(b, i) == Ok(t, n)
  {
    hide DecodeTag, DecodeLength, DecodeDefinite;
    DecodeContents(b, j, size, k);
    DecodeParts(b, i, HeaderOf(t), j, Elems(t.elems), n);
  }

  lemma MarkedDecodes(b: seq<byte>, i: nat, j: nat, n: nat, t: Term)
    requires i + 2 <= |b| && j + 2 < |b| && DecodeTag(b, i) == Ok(HeaderOf(t), j) && t.Constructed?
    requires b[j] == 0x80 && DecodeIndefinite(b, j + 1) == Ok(t.elems, n)
    ensures Decode(b, i) == Ok(t, n)
  {
    hide DecodeTag, DecodeIndefinite;
    DecodeParts(b, i, HeaderOf(t), j, Elems(t.elems), n);
  }

  lemma {:induction false} ReadsDecode(b: seq<byte>, i: nat, n: nat, t: Term)
    requires |b| <= MAX_INT && n <= |b| && ReadsAt(b, i, n, t, true)
    ensures i + 2 <= n && Decode(b, i) == Ok(t, n)
    decreases t, 2
  {
    hide DecodeTag, DecodeLength, FieldAt, Decode, DecodeDefinite, DecodeIndefinite, DecodeValue;
    var j: nat :| HeaderAt(b, i, j, HeaderOf(t), true) && j < n && ValueAt(b, j, n, t, true);
    assert i + 2 <= n <= |b|;
    DecoderIdentifies(b, i, HeaderOf(t), j);
    hide HeaderAt;
    if t.Primitive? {
      PrimitiveDecodes(b, i, j, n, t);
    } else if b[j] == 0x80 {
      MarkedDecode(b, j + 1, n, t.elems);
      MarkedDecodes(b, i, j, n, t);
    } else {
      var k: nat, size: nat :| FieldAt(b, j, k, size) && k + size <= n && ElemsAt(b, k, n, t.elems, k + size, true);
      FieldDecodes(b, j, k, size);
      ElemsDecode(b, k, n, t.elems, k + size);
      DefiniteDecodes(b, i, j, k, size, n, t);
    }
  }

  lemma {:induction false} ElemsDecode(b: seq<byte>, i: nat, n: nat, ts: seq<Term>, end: nat)
    requires |b| <= MAX_INT && n <= |b| && end <= |b| && ElemsAt(b, i, n, ts, end, true)
    ensures i <= n && DecodeDefinite(b, i, end) == Ok(ts, n)
    decreases ts, 0
  {
    if ts != [] {
      var m: nat :| i < m <= n && ReadsAt(b, i, m, ts[0], true) && ElemsAt(b, m, n, ts[1..], end, true);
      ReadsDecode(b, i, m, ts[0]);
      ElemsDecode(b, m, n, ts[1..], end);
      assert [ts[0]] + ts[1..] == ts;
    }
  }

  lemma {:induction false} MarkedDecode(b: seq<byte>, i: nat, n: nat, ts: seq<Term>)
    requires |b| <= MAX_INT && n <= |b| && MarkedAt(b, i, n, ts, true)
    ensures i + 2 <= n && DecodeIndefinite(b, i) == Ok(ts, n)
    decreases ts, 0
  {
    if ts != [] {
      var m: nat :| i < m <= n && ReadsAt(b, i, m, ts[0], true) && MarkedAt(b, m, n, ts[1..], true);
      ReadsDecode(b, i, m, ts[0]);
      MarkedDecode(b, m, n, ts[1..]);
      assert [ts[0]] + ts[1..] == ts;
    }
  }

  /** The decoder accepts exactly the octets that read as a term, and gives that term. */
  lemma DecodesWhatReads(b: seq<byte>, i: nat, n: nat, t: Term)
    requires |b| <= MAX_INT && i <= |b| && n <= |b|
    ensures Decode(b, i) == Ok(t, n) <==> ReadsAt(b, i, n, t, true)
  {
    if Decode(b, i) == Ok(t, n) {
      DecodedReads(b, i);
    }
    if ReadsAt(b, i, n, t, true) {
      ReadsDecode(b, i, n, t);
    }
  }

  // -------------------------------------------------------------- encoder's output

  /** What the encoder writes reads as the term, for tags of any size (the class modulo 4, as
      an identifier has room for). */
  lemma {:induction false} EncodedReads(b: seq<byte>, i: nat, t: Term)
    requires At(b, i, Encode(t)) && |Encode(t)| < TWO_32
    ensures ReadsAt(b, i, i + |Encode(t)|, t, false)
    decreases t, 1
  {
    hide TagOctets, LengthOctets, EncodeAll, Encode, Identifies, Denotes, ValueAt, ElemsAt;
    var body := Contents(t);
    var tagOctets, lenOctets := TagOctets(t.Constructed?, t.tag), LengthOctets(|body|);
    var j, k := i + |tagOctets|, i + |tagOctets| + |lenOctets|;
    EncodeIsParts(t);
    AtAppend(b, i, tagOctets, lenOctets + body);
    AtAppend(b, j, lenOctets, body);
    EncoderIdentifies(t.Constructed?, t.tag);
    LengthOctetsDenote(|body|);
    if t.Constructed? {
      EncodedElemsRead(b, k, t.elems, k + |body|);
    }
    ValueReads(b, j, k, t, body);
  }

  lemma ValueReads(b: seq<byte>, j: nat, k: nat, t: Term, body: seq<byte>)
    requires FieldAt(b, j, k, |body|) && At(b, k, body)
    requires if t.Primitive? then t.value == body else ElemsAt(b, k, k + |body|, t.elems, k + |body|, false)
    ensures ValueAt(b, j, k + |body|, t, false)
  {
    FieldNotMark(b, j, k, |body|);
    hide FieldAt, ElemsAt, MarkedAt;
  }

  lemma FieldNotMark(b: seq<byte>, j: nat, k: nat, size: nat)
    requires FieldAt(b, j, k, size)
    ensures b[j] != 0x80
  {
    assert b[j..k][0] == b[j];
  }

  lemma {:induction false} EncodedElemsRead(b: seq<byte>, i: nat, ts: seq<Term>, end: nat)
    requires At(b, i, EncodeAll(ts)) && end == i + |EncodeAll(ts)| && |EncodeAll(ts)| < TWO_32
    ensures ElemsAt(b, i, end, ts, end, false)
    decreases ts, 0
  {
    hide Encode, ReadsAt;
    if ts != [] {
      AtAppend(b, i, Encode(ts[0]), EncodeAll(ts[1..]));
      EncodedReads(b, i, ts[0]);
      EncodedElemsRead(b, i + |Encode(ts[0])|, ts[1..], end);
    }
  }
}
