/** What the BER decoder and encoder promise about each other. */
module BerTheorems {
  import opened Ber
  import opened BerLengths

  /** The octets s stand in b from index i on. */
  ghost predicate At(b: seq<byte>, i: nat, s: seq<byte>) {
    i + |s| <= |b| && b[i..i + |s|] == s
  }

  lemma AtAppend(b: seq<byte>, i: nat, s: seq<byte>, t: seq<byte>)
    requires At(b, i, s + t)
    ensures At(b, i, s) && At(b, i + |s|, t)
  {
    assert b[i..i + |s + t|][..|s|] == b[i..i + |s|];
    assert b[i..i + |s + t|][|s|..] == b[i + |s|..i + |s| + |t|];
  }

  lemma AtIndex(b: seq<byte>, i: nat, s: seq<byte>)
    requires At(b, i, s)
    ensures forall k :: 0 <= k < |s| ==> b[i + k] == s[k]
  {
    forall k | 0 <= k < |s| ensures b[i + k] == s[k] {
      assert b[i..i + |s|][k] == b[i + k];
    }
  }

  // ------------------------------------------------------------------ round trip

  /** The bits of an identifier octet: class, form and the low five bits come apart again. */
  lemma FirstOctet(class_: nat, constructed: bool, low: nat)
    requires class_ < 4 && low < 32
    ensures var first := (if constructed then 32 else 0) + class_ * 64 + low;
            first / 64 == class_ && (first / 32 % 2 == 1 <==> constructed) && first % 32 == low
  {
  }

  /** Up to 16383 a tag takes one, two or three identifier octets. */
  lemma TagForms(constructed: bool, tag: nat)
    requires GoodTag(tag)
    ensures var head := (if constructed then 32 else 0) + tag / 0x1_0000 * 64;
            var number := tag % 0x1_0000;
            TagOctets(constructed, tag) ==
              if number <= 30 then [head + number]
              else if number < 128 then [head + 31, number]
              else [head + 31, number / 128 + 128, number % 128]
  {
    var high := tag % 0x1_0000 / 128;
    assert tag / 0x1_0000 % 4 == tag / 0x1_0000;
    assert high < 128;
    assert ContinuationOctets(high / 128) == [];
  }

  lemma TagRoundTrip(b: seq<byte>, i: nat, constructed: bool, tag: nat)
    requires GoodTag(tag)
    requires At(b, i, TagOctets(constructed, tag)) && i + |TagOctets(constructed, tag)| < |b|
    ensures i + 2 <= |b|
    ensures DecodeTag(b, i) == Ok(Header(constructed, tag), i + |TagOctets(constructed, tag)|)
  {
    var s := TagOctets(constructed, tag);
    var number := tag % 0x1_0000;
    TagForms(constructed, tag);
    hide TagOctets, At;
    AtIndex(b, i, s);
    assert b[i] == s[0];
    FirstOctet(tag / 0x1_0000, constructed, if number <= 30 then number else 31);
    if number > 30 {
      assert b[i + 1] == s[1];
      assert number >= 128 ==> b[i + 2] == s[2];
    }
  }

  /** A value whose tag, length and contents decode is the term they make up. */
  lemma DecodeParts(b: seq<byte>, i: nat, h: Header, j: nat, v: Value, n: nat)
    requires i + 2 <= |b| && DecodeTag(b, i) == Ok(h, j) && j < |b|
    requires DecodeValue(b, j, h.constructed) == Ok(v, n)
    ensures Decode(b, i) == Ok(MakeTerm(h.tag, v), n)
  {
  }

  lemma DecodeContents(b: seq<byte>, i: nat, size: nat, start: nat)
    requires i < |b| && b[i] != 0x80 && DecodeLength(b, i) == Ok(size, start)
    ensures DecodeValue(b, i, false) == Ok(Octets(b[start..start + size]), start + size)
    ensures var r := DecodeDefinite(b, start, start + size);
            r.Ok? ==> DecodeValue(b, i, true) == Ok(Elems(r.value), r.next)
  {
    hide DecodeLength, DecodeDefinite, DecodeIndefinite;
  }

  lemma DefiniteCons(b: seq<byte>, i: nat, end: nat, n: nat)
    requires i < end <= |b|
    requires Decode(b, i).Ok? && Decode(b, i).next == n && DecodeDefinite(b, n, end).Ok?
    ensures DecodeDefinite(b, i, end)
         == Ok([Decode(b, i).value] + DecodeDefinite(b, n, end).value, DecodeDefinite(b, n, end).next)
  {
  }

  /** Where the three parts of an encoding stand, and what tag and length decode to. */
  lemma EncodingLayout(b: seq<byte>, i: nat, constructed: bool, tag: nat, body: seq<byte>)
    requires |b| <= MAX_INT && GoodTag(tag)
    requires At(b, i, TagOctets(constructed, tag) + (LengthOctets(|body|) + body))
    ensures var j := i + |TagOctets(constructed, tag)|;
            var start := j + |LengthOctets(|body|)|;
            && i + 2 <= |b| && j < |b| && b[j] != 0x80
            && DecodeTag(b, i) == Ok(Header(constructed, tag), j)
            && DecodeLength(b, j) == Ok(|body|, start)
            && At(b, start, body)
  {
    hide TagOctets, LengthOctets, DecodeTag, DecodeLength;
    var tagOctets, lenOctets := TagOctets(constructed, tag), LengthOctets(|body|);
    AtAppend(b, i, tagOctets, lenOctets + body);
    AtAppend(b, i + |tagOctets|, lenOctets, body);
    TagRoundTrip(b, i, constructed, tag);
    LengthRoundTrip(b, i + |tagOctets|, |body|);
  }

  lemma PrimitiveRoundTrip(b: seq<byte>, i: nat, tag: nat, value: seq<byte>)
    requires |b| <= MAX_INT && GoodTag(tag)
    requires At(b, i, TagOctets(false, tag) + (LengthOctets(|value|) + value))
    ensures Decode(b, i)
         == Ok(Primitive(tag, value), i + |TagOctets(false, tag)| + |LengthOctets(|value|)| + |value|)
  {
    hide DecodeTag, DecodeLength, TagOctets, LengthOctets;
    var j := i + |TagOctets(false, tag)|;
    var start := j + |LengthOctets(|value|)|;
    EncodingLayout(b, i, false, tag, value);
    DecodeContents(b, j, |value|, start);
    assert b[start..start + |value|] == value;
    DecodeParts(b, i, Header(false, tag), j, Octets(value), start + |value|);
  }

  lemma ConstructedFromElems(b: seq<byte>, i: nat, tag: nat, body: seq<byte>, ts: seq<Term>)
    requires |b| <= MAX_INT && GoodTag(tag)
    requires At(b, i, TagOctets(true, tag) + (LengthOctets(|body|) + body))
    requires var start := i + |TagOctets(true, tag)| + |LengthOctets(|body|)|;
             start + |body| <= |b| && DecodeDefinite(b, start, start + |body|) == Ok(ts, start + |body|)
    ensures Decode(b, i)
         == Ok(Constructed(tag, ts), i + |TagOctets(true, tag)| + |LengthOctets(|body|)| + |body|)
  {
    hide DecodeTag, DecodeLength, DecodeDefinite, TagOctets, LengthOctets;
    var j := i + |TagOctets(true, tag)|;
    var start := j + |LengthOctets(|body|)|;
    EncodingLayout(b, i, true, tag, body);
    DecodeContents(b, j, |body|, start);
    DecodeParts(b, i, Header(true, tag), j, Elems(ts), start + |body|);
  }

  /** Decoding what the encoder wrote, wherever it stands in a buffer, gives the term back
      and stops right behind it. */
  lemma {:induction false} RoundTrip(b: seq<byte>, i: nat, t: Term)
    requires |b| <= MAX_INT && Good(t)
    requires At(b, i, Encode(t))
    ensures Decode(b, i) == Ok(t, i + |Encode(t)|)
    decreases t, 1
  {
    hide DecodeTag, DecodeLength, TagOctets, LengthOctets;
    match t
    case Primitive(tag, value) =>
      PrimitiveRoundTrip(b, i, tag, value);
    case Constructed(tag, elems) =>
      var body := EncodeAll(elems);
      var start := i + |TagOctets(true, tag)| + |LengthOctets(|body|)|;
      EncodingLayout(b, i, true, tag, body);
      RoundTripAll(b, start, elems, start + |body|);
      ConstructedFromElems(b, i, tag, body, elems);
  }

  lemma {:induction false} RoundTripAll(b: seq<byte>, i: nat, ts: seq<Term>, end: nat)
    requires |b| <= MAX_INT && GoodAll(ts)
    requires At(b, i, EncodeAll(ts)) && end == i + |EncodeAll(ts)|
    ensures DecodeDefinite(b, i, end) == Ok(ts, end)
    decreases ts, 0
  {
    hide Decode, Encode;
    if ts != [] {
      var first, others := Encode(ts[0]), EncodeAll(ts[1..]);
      var n := i + |first|;
      assert EncodeAll(ts) == first + others;
      AtAppend(b, i, first, others);
      RoundTrip(b, i, ts[0]);
      RoundTripAll(b, n, ts[1..], end);
      DefiniteCons(b, i, end, n);
      assert [ts[0]] + ts[1..] == ts;
    }
  }

  /** The documented use: a whole message followed by any bytes. */
  lemma DecodeEncoded(t: Term, rest: seq<byte>)
    requires Good(t) && |Encode(t)| + |rest| <= MAX_INT
    ensures Decode(Encode(t) + rest, 0) == Ok(t, |Encode(t)|)
  {
    RoundTrip(Encode(t) + rest, 0, t);
  }

  /** No encoding begins another one; in particular the encoder is injective. */
  lemma EncodePrefixFree(t: Term, u: Term)
    requires Good(t) && Good(u) && |Encode(u)| <= MAX_INT
    requires Encode(t) <= Encode(u)
    ensures t == u
  {
    RoundTrip(Encode(u), 0, u);
    RoundTrip(Encode(u), 0, t);
  }

  // ------------------------------------------------------------ self-delimitation

  lemma TagSelfDelimiting(b: seq<byte>, c: seq<byte>, i: nat, n: nat)
    requires i + 2 <= |b| && DecodeTag(b, i).Ok? && DecodeTag(b, i).next < n <= |b| && n <= |c|
    requires forall k :: 0 <= k < n ==> c[k] == b[k]
    ensures i + 2 <= |c| && DecodeTag(c, i) == DecodeTag(b, i)
  {
  }

  lemma SamePrefix(b: seq<byte>, c: seq<byte>, n: nat)
    requires n <= |b| && At(c, 0, b[..n])
    ensures n <= |c| && forall k :: 0 <= k < n ==> c[k] == b[k]
  {
    AtIndex(c, 0, b[..n]);
    assert forall k :: 0 <= k < n ==> c[0 + k] == b[..n][k];
  }

  /** A successful decode depends on the consumed octets alone: any buffer that agrees on
      them decodes to the same term and stops at the same index. */
  lemma {:induction false} SelfDelimiting(b: seq<byte>, c: seq<byte>, i: nat)
    requires i <= |b| && i <= |c| && Decode(b, i).Ok?
    requires At(c, 0, b[..Decode(b, i).next])
    ensures Decode(c, i) == Decode(b, i)
    decreases |b| - i, 1
  {
    hide DecodeTag, DecodeLength;
    var n := Decode(b, i).next;
    SamePrefix(b, c, n);
    var tag := DecodeTag(b, i);
    TagSelfDelimiting(b, c, i, n);
    ValueSelfDelimiting(b, c, tag.next, tag.value.constructed);
  }

  lemma {:induction false} ValueSelfDelimiting(b: seq<byte>, c: seq<byte>, i: nat, constructed: bool)
    requires i < |b| && i < |c| && DecodeValue(b, i, constructed).Ok?
    requires At(c, 0, b[..DecodeValue(b, i, constructed).next])
    ensures DecodeValue(c, i, constructed) == DecodeValue(b, i, constructed)
    decreases |b| - i, 3
  {
    hide DecodeTag, DecodeLength;
    var n := DecodeValue(b, i, constructed).next;
    SamePrefix(b, c, n);
    if b[i] == 0x80 {
      IndefiniteSelfDelimiting(b, c, i + 1);
    } else {
      LengthSelfDelimiting(b, c, i, n);
      var len := DecodeLength(b, i);
      if constructed {
        DefiniteSelfDelimiting(b, c, len.next, len.next + len.value);
      } else {
        assert c[len.next..n] == b[len.next..n];
      }
    }
  }

  lemma {:induction false} LengthLoopLocal(b: seq<byte>, c: seq<byte>, i: nat, count: nat, len: nat)
    requires i + count < |b| && i + count < |c|
    requires forall k :: i < k <= i + count ==> c[k] == b[k]
    ensures DecodeLengthOctets(c, i, count, len) == DecodeLengthOctets(b, i, count, len)
    decreases count
  {
    if count > 0 && len < LEN_GUARD {
      LengthLoopLocal(b, c, i + 1, count - 1, len * 256 + b[i + 1]);
    }
  }

  lemma LengthSelfDelimiting(b: seq<byte>, c: seq<byte>, i: nat, n: nat)
    requires i < n <= |b| && n <= |c| && b[i] != 0x80 && c[i] != 0x80
    requires forall k :: 0 <= k < n ==> c[k] == b[k]
    requires DecodeLength(b, i).Ok? && DecodeLength(b, i).next + DecodeLength(b, i).value <= n
    ensures DecodeLength(c, i) == DecodeLength(b, i)
  {
    if b[i] > 128 {
      LengthLoopLocal(b, c, i, b[i] - 128, 0);
    }
  }

  lemma {:induction false} DefiniteSelfDelimiting(b: seq<byte>, c: seq<byte>, i: nat, end: nat)
    requires i <= |b| && i <= |c| && end <= |b| && end <= |c| && DecodeDefinite(b, i, end).Ok?
    requires At(c, 0, b[..DecodeDefinite(b, i, end).next])
    ensures DecodeDefinite(c, i, end) == DecodeDefinite(b, i, end)
    decreases |b| - i, 2
  {
    hide DecodeTag, DecodeLength;
    if i < end {
      var n := Decode(b, i).next;
      var m := DecodeDefinite(b, i, end).next;
      assert b[..m] == b[..n] + b[n..m];
      AtAppend(c, 0, b[..n], b[n..m]);
      SelfDelimiting(b, c, i);
      DefiniteSelfDelimiting(b, c, n, end);
    }
  }

  lemma {:induction false} IndefiniteSelfDelimiting(b: seq<byte>, c: seq<byte>, i: nat)
    requires i + 1 < |b| && i + 1 < |c| && DecodeIndefinite(b, i).Ok?
    requires At(c, 0, b[..DecodeIndefinite(b, i).next])
    ensures DecodeIndefinite(c, i) == DecodeIndefinite(b, i)
    decreases |b| - i, 2
  {
    hide DecodeTag, DecodeLength;
    var m := DecodeIndefinite(b, i).next;
    SamePrefix(b, c, m);
    if !(b[i] == 0 && b[i + 1] == 0) {
      var n := Decode(b, i).next;
      assert b[..m] == b[..n] + b[n..m];
      AtAppend(c, 0, b[..n], b[n..m]);
      SelfDelimiting(b, c, i);
      IndefiniteSelfDelimiting(b, c, n);
    }
  }

  /** Replacing the bytes after a decoded term changes neither the term nor its size. */
  lemma TrailingBytesIrrelevant(b: seq<byte>, x: seq<byte>)
    requires Decode(b, 0).Ok?
    ensures var n := Decode(b, 0).next;
            Decode(b[..n] + x, 0) == Decode(b, 0) && (b[..n] + x)[n..] == x
  {
    var n := Decode(b, 0).next;
    hide Decode;
    assert (b[..n] + x)[..n] == b[..n];
    SelfDelimiting(b, b[..n] + x, 0);
  }

  /** No exactly consumed input is a proper prefix of another. */
  lemma AcceptedPrefixFree(b: seq<byte>, c: seq<byte>)
    requires Decode(b, 0).Ok? && Decode(b, 0).next == |b|
    requires Decode(c, 0).Ok? && Decode(c, 0).next == |c|
    requires b <= c
    ensures b == c
  {
    hide Decode;
    assert b[..|b|] == b && c[..|b|] == b;
    SelfDelimiting(b, c, 0);
  }
}
