/** Non-canonical input: indefinite lengths, long length fields, elements that overrun their
    parent.  What such input decodes to, and that re-encoding is a normal form for it. */
module BerForms {
  import opened Ber
  import opened BerLengths
  import opened BerTheorems
  import opened BerRoom

  // -------------------------------------------------------------- indefinite length

  /** The indefinite form of ITU-T X.690, section 8.1.3.6, over encoded elements. */
  function EncodeIndefinite(tag: nat, elems: seq<Term>): seq<byte> {
    TagOctets(true, tag) + ([0x80] + (EncodeAll(elems) + [0, 0]))
  }

  /** The one term whose encoding is the end-of-contents mark. */
  const END_LOOKALIKE := Primitive(0, [])

  /** Number of elements in front of the first one that looks like the end mark. */
  function Visible(ts: seq<Term>): (k: nat)
    ensures k <= |ts|
    ensures k == |ts| <==> END_LOOKALIKE !in ts
  {
    if ts == [] || ts[0] == END_LOOKALIKE then 0 else 1 + Visible(ts[1..])
  }

  lemma StartsWithZeros(t: Term)
    requires Good(t)
    ensures Encode(t)[0] == 0 && Encode(t)[1] == 0 <==> t == END_LOOKALIKE
  {
    TagForms(t.Constructed?, t.tag);
    var body := if t.Constructed? then EncodeAll(t.elems) else t.value;
    assert Encode(t) == TagOctets(t.Constructed?, t.tag) + (LengthOctets(|body|) + body);
    if |TagOctets(t.Constructed?, t.tag)| == 1 {
      assert Encode(t)[1] == LengthOctets(|body|)[0];
    }
  }

  lemma IndefiniteCons(b: seq<byte>, i: nat, n: nat)
    requires i + 1 < |b| && !(b[i] == 0 && b[i + 1] == 0)
    requires Decode(b, i).Ok? && Decode(b, i).next == n && n + 1 < |b| && DecodeIndefinite(b, n).Ok?
    ensures DecodeIndefinite(b, i)
         == Ok([Decode(b, i).value] + DecodeIndefinite(b, n).value, DecodeIndefinite(b, n).next)
  {
  }

  /** The element loop stops at the first pair of zero octets where an element could start:
      in front of the first lookalike, or at the real end mark. */
  lemma {:induction false} IndefiniteElems(b: seq<byte>, i: nat, ts: seq<Term>)
    requires |b| <= MAX_INT && GoodAll(ts)
    requires At(b, i, EncodeAll(ts) + [0, 0])
    ensures i + 1 < |b|
    ensures DecodeIndefinite(b, i) == Ok(ts[..Visible(ts)], i + |EncodeAll(ts[..Visible(ts)])| + 2)
    decreases ts
  {
    hide Decode, Encode, DecodeIndefinite;
    if ts == [] {
      assert EncodeAll(ts) + [0, 0] == [0, 0];
      StartsAt(b, i, [0, 0], []);
      IndefiniteEnd(b, i);
    } else {
      var first, others := Encode(ts[0]), EncodeAll(ts[1..]) + [0, 0];
      assert EncodeAll(ts) + [0, 0] == first + others;
      AtAppend(b, i, first, others);
      StartsAt(b, i, first, others);
      StartsWithZeros(ts[0]);
      if ts[0] == END_LOOKALIKE {
        IndefiniteEnd(b, i);
      } else {
        RoundTrip(b, i, ts[0]);
        IndefiniteElems(b, i + |first|, ts[1..]);
        IndefiniteCons(b, i, i + |first|);
        VisibleCons(ts);
      }
    }
  }

  lemma StartsAt(b: seq<byte>, i: nat, s: seq<byte>, t: seq<byte>)
    requires At(b, i, s + t) && |s| >= 2
    ensures i + 1 < |b| && b[i] == s[0] && b[i + 1] == s[1]
  {
    AtIndex(b, i, s + t);
    assert b[i + 0] == (s + t)[0] && b[i + 1] == (s + t)[1];
  }

  lemma IndefiniteEnd(b: seq<byte>, i: nat)
    requires i + 1 < |b| && b[i] == 0 && b[i + 1] == 0
    ensures DecodeIndefinite(b, i) == Ok([], i + 2)
  {
  }

  lemma VisibleCons(ts: seq<Term>)
    requires ts != [] && ts[0] != END_LOOKALIKE
    ensures ts[..Visible(ts)] == [ts[0]] + ts[1..][..Visible(ts[1..])]
    ensures EncodeAll(ts[..Visible(ts)]) == Encode(ts[0]) + EncodeAll(ts[1..][..Visible(ts[1..])])
  {
    var seen := ts[1..][..Visible(ts[1..])];
    assert ([ts[0]] + seen)[1..] == seen;
  }

  lemma DecodeIndefiniteParts(b: seq<byte>, i: nat, h: Header, j: nat)
    requires i + 2 <= |b| && DecodeTag(b, i) == Ok(h, j) && h.constructed
    requires j + 2 < |b| && b[j] == 0x80 && DecodeIndefinite(b, j + 1).Ok?
    ensures Decode(b, i) == Ok(Constructed(h.tag, DecodeIndefinite(b, j + 1).value), DecodeIndefinite(b, j + 1).next)
  {
  }

  /** What the indefinite form decodes to, for every list of elements. */
  lemma IndefiniteDecodes(b: seq<byte>, i: nat, tag: nat, elems: seq<Term>)
    requires |b| <= MAX_INT && GoodTag(tag) && GoodAll(elems)
    requires At(b, i, EncodeIndefinite(tag, elems))
    ensures Decode(b, i) == Ok(Constructed(tag, elems[..Visible(elems)]),
                               i + |EncodeIndefinite(tag, elems[..Visible(elems)])|)
  {
    hide DecodeTag, DecodeLength, TagOctets, LengthOctets;
    var j := i + |TagOctets(true, tag)|;
    IndefiniteLayout(b, i, tag, EncodeAll(elems) + [0, 0]);
    IndefiniteElems(b, j + 1, elems);
    DecodeIndefiniteParts(b, i, Header(true, tag), j);
  }

  lemma IndefiniteLayout(b: seq<byte>, i: nat, tag: nat, body: seq<byte>)
    requires GoodTag(tag) && body != [] && At(b, i, TagOctets(true, tag) + ([0x80] + body))
    ensures var j := i + |TagOctets(true, tag)|;
            && i + 2 <= |b| && j + 1 < |b| && b[j] == 0x80 && DecodeTag(b, i) == Ok(Header(true, tag), j)
            && At(b, j + 1, body)
  {
    hide DecodeTag, TagOctets;
    var tagOctets := TagOctets(true, tag);
    AtAppend(b, i, tagOctets, [0x80] + body);
    AtAppend(b, i + |tagOctets|, [0x80], body);
    AtIndex(b, i + |tagOctets|, [0x80]);
    assert b[i + |tagOctets| + 0] == [0x80][0];
    TagRoundTrip(b, i, true, tag);
  }

  /** Definite and indefinite form carry the same term, and leave the same rest, exactly when
      no element is the lookalike of the end mark. */
  lemma IndefiniteMeansDefinite(tag: nat, elems: seq<Term>, rest: seq<byte>)
    requires GoodTag(tag) && GoodAll(elems)
    requires |EncodeIndefinite(tag, elems)| + |rest| <= MAX_INT
    requires |Encode(Constructed(tag, elems))| + |rest| <= MAX_INT
    ensures var indefinite, definite := EncodeIndefinite(tag, elems) + rest, Encode(Constructed(tag, elems)) + rest;
            var r, s := Decode(indefinite, 0), Decode(definite, 0);
            && r.Ok? && s.Ok?
            && (r.value == s.value && indefinite[r.next..] == definite[s.next..] <==> END_LOOKALIKE !in elems)
  {
    hide DecodeTag, DecodeLength, TagOctets, LengthOctets, Encode, Decode;
    var t := Constructed(tag, elems);
    IndefiniteDecodes(EncodeIndefinite(tag, elems) + rest, 0, tag, elems);
    RoundTrip(Encode(t) + rest, 0, t);
    if END_LOOKALIKE !in elems {
      assert elems[..Visible(elems)] == elems;
    } else {
      assert |elems[..Visible(elems)]| != |elems|;
    }
  }

  /** One lookalike as the only element: the list comes back empty, two octets too early. */
  lemma LookalikeExample()
    ensures Decode(EncodeIndefinite(16, [END_LOOKALIKE]), 0) == Ok(Constructed(16, []), 4)
    ensures |EncodeIndefinite(16, [END_LOOKALIKE])| == 6
    ensures Decode(Encode(Constructed(16, [END_LOOKALIKE])), 0) == Ok(Constructed(16, [END_LOOKALIKE]), 4)
  {
    var ts := [END_LOOKALIKE];
    assert ts[1..] == [] && ts[..Visible(ts)] == [];
    assert EncodeAll(ts) == Encode(END_LOOKALIKE) + EncodeAll([]);
    assert GoodAll(ts);
    var b := EncodeIndefinite(16, ts);
    assert b[0..0 + |b|] == b;
    IndefiniteDecodes(b, 0, 16, ts);
    var d := Encode(Constructed(16, ts));
    assert d[0..0 + |d|] == d;
    RoundTrip(d, 0, Constructed(16, ts));
  }

  // ------------------------------------------------------------------- normal form

  lemma TagDecodedGood(b: seq<byte>, i: nat)
    requires i + 2 <= |b| && DecodeTag(b, i).Ok?
    ensures var r := DecodeTag(b, i);
            GoodTag(r.value.tag) && |TagOctets(r.value.constructed, r.value.tag)| <= r.next - i
  {
    var r := DecodeTag(b, i);
    var first: int := b[i];
    var number := r.value.tag - first / 64 * 0x1_0000;
    assert 0 <= number <= MAX_LONG_TAG;
    assert first / 64 < 4;
    assert r.value.tag % 0x1_0000 == number;
    TagForms(r.value.constructed, r.value.tag);
  }

  /** Everything the decoder accepts is a term the encoder supports. */
  lemma {:induction false} DecodedGood(b: seq<byte>, i: nat)
    requires i <= |b| && Decode(b, i).Ok?
    ensures Good(Decode(b, i).value)
    decreases |b| - i, 1
  {
    TagDecodedGood(b, i);
    var h := DecodeTag(b, i);
    var v := DecodeValue(b, h.next, h.value.constructed);
    if h.value.constructed {
      if b[h.next] == 0x80 {
        IndefiniteGood(b, h.next + 1);
      } else {
        var len := DecodeLength(b, h.next);
        DefiniteGood(b, len.next, len.next + len.value);
      }
    }
  }

  lemma {:induction false} DefiniteGood(b: seq<byte>, i: nat, end: nat)
    requires i <= |b| && end <= |b| && DecodeDefinite(b, i, end).Ok?
    ensures GoodAll(DecodeDefinite(b, i, end).value)
    decreases |b| - i, 2
  {
    if i < end {
      DecodedGood(b, i);
      var n := Decode(b, i).next;
      DefiniteGood(b, n, end);
      ConsElems(Decode(b, i).value, DecodeDefinite(b, n, end).value);
    }
  }

  lemma {:induction false} IndefiniteGood(b: seq<byte>, i: nat)
    requires i + 1 < |b| && DecodeIndefinite(b, i).Ok?
    ensures GoodAll(DecodeIndefinite(b, i).value)
    decreases |b| - i, 2
  {
    if !(b[i] == 0 && b[i + 1] == 0) {
      DecodedGood(b, i);
      var n := Decode(b, i).next;
      IndefiniteGood(b, n);
      ConsElems(Decode(b, i).value, DecodeIndefinite(b, n).value);
    }
  }

  lemma ConsElems(t: Term, ts: seq<Term>)
    ensures GoodAll([t] + ts) <==> Good(t) && GoodAll(ts)
    ensures EncodeAll([t] + ts) == Encode(t) + EncodeAll(ts)
  {
    assert ([t] + ts)[1..] == ts;
  }

  /** The exact domain of the round trip: among all terms, whatever their tags, those whose
      every tag is a class and a number up to 16383 come back. */
  lemma RoundTripExactly(t: Term, rest: seq<byte>)
    requires |Encode(t)| + |rest| <= MAX_INT
    ensures Decode(Encode(t) + rest, 0) == Ok(t, |Encode(t)|) <==> Good(t)
  {
    hide Decode, Encode;
    if Good(t) {
      DecodeEncoded(t, rest);
    } else if Decode(Encode(t) + rest, 0) == Ok(t, |Encode(t)|) {
      DecodedGood(Encode(t) + rest, 0);
    }
  }

  /** The encoder writes tag numbers up to 65535, but the decoder stops at the third octet of
      one above 16383. */
  lemma LongTagRejected(t: Term, rest: seq<byte>)
    requires t.tag % 0x1_0000 > MAX_LONG_TAG
    ensures Decode(Encode(t) + rest, 0) == Err(TagError, 2)
  {
    var tagOctets := TagOctets(t.Constructed?, t.tag);
    LongTagForm(t.Constructed?, t.tag);
    var b := Encode(t) + rest;
    assert b[..4] == Encode(t)[..4] == tagOctets;
    assert b[0] == tagOctets[0] && b[1] == tagOctets[1] && b[2] == tagOctets[2];
  }

  /** So there are messages the writer produces and the decoder refuses: every term of the
      shape it handles whose own tag number is above 16383. */
  lemma WrittenButRejected(t: Term, rest: seq<byte>)
    requires t.tag % 0x1_0000 > MAX_LONG_TAG && ListsHaveRoom(t) && TagsAreUints(t) && |Encode(t)| <= MAX_INT
    ensures After(START, t).Going? && Decode(Encode(t) + rest, 0) == Err(TagError, 2)
  {
    ShapeSufficesFromStart(t);
    OnlyTagsStop(START, t);
    LongTagRejected(t, rest);
  }

  lemma LongTagForm(constructed: bool, tag: nat)
    requires tag % 0x1_0000 > MAX_LONG_TAG
    ensures var s := TagOctets(constructed, tag); |s| == 4 && s[0] % 32 == 31 && s[1] >= 128 && s[2] >= 128
  {
    var n := tag % 0x1_0000 / 128;
    assert n / 128 / 128 == 0;
    assert ContinuationOctets(n / 128) == [n / 128 % 128 + 128];
    assert ContinuationOctets(n) == [n / 128 % 128 + 128, n % 128 + 128];
  }

  // Re-encoding at most triples the size: per element two octets become at most
  // tag + five length octets.
  lemma {:induction false} ReencodedSize(b: seq<byte>, i: nat)
    requires 3 * |b| <= MAX_INT
    requires i <= |b| && Decode(b, i).Ok?
    ensures |Encode(Decode(b, i).value)| <= 3 * (Decode(b, i).next - i)
    decreases |b| - i, 1
  {
    hide DecodeTag, DecodeLength, TagOctets, LengthOctets, Encode, EncodeAll;
    TagDecodedGood(b, i);
    var h := DecodeTag(b, i);
    var j := h.next;
    var v := DecodeValue(b, j, h.value.constructed);
    if h.value.constructed {
      var start := if b[j] == 0x80 then j + 1 else DecodeLength(b, j).next;
      if b[j] == 0x80 {
        ReencodedIndefinite(b, start);
      } else {
        ReencodedDefinite(b, start, start + DecodeLength(b, j).value);
      }
      var body := EncodeAll(v.value.elems);
      assert |body| <= 3 * (v.next - start);
      LengthOctetsDenote(|body|);
      EncodedSize(Constructed(h.value.tag, v.value.elems), body);
    } else {
      var len := DecodeLength(b, j);
      LengthFieldNotShorter(b, j);
      EncodedSize(Primitive(h.value.tag, v.value.octets), v.value.octets);
    }
  }

  lemma EncodedSize(t: Term, body: seq<byte>)
    requires body == if t.Constructed? then EncodeAll(t.elems) else t.value
    ensures |Encode(t)| == |TagOctets(t.Constructed?, t.tag)| + |LengthOctets(|body|)| + |body|
  {
  }

  lemma LengthFieldNotShorter(b: seq<byte>, i: nat)
    requires |b| <= MAX_INT && i < |b| && b[i] != 0x80 && DecodeLength(b, i).Ok?
    ensures |LengthOctets(DecodeLength(b, i).value)| <= DecodeLength(b, i).next - i
  {
    var r := DecodeLength(b, i);
    if b[i] >= 128 {
      var count := b[i] - 128;
      var field := b[i..i + 1 + count];
      LengthLoop(b, i, count, 0);
      AccumulateIsValue(field[1..]);
      assert field[1..] == b[i + 1..i + 1 + count];
      LengthOctetsShortest(field, r.value);
    }
  }

  lemma {:induction false} ReencodedDefinite(b: seq<byte>, i: nat, end: nat)
    requires 3 * |b| <= MAX_INT
    requires i <= |b| && end <= |b| && DecodeDefinite(b, i, end).Ok?
    ensures |EncodeAll(DecodeDefinite(b, i, end).value)| <= 3 * (DecodeDefinite(b, i, end).next - i)
    decreases |b| - i, 2
  {
    if i < end {
      var t := Decode(b, i);
      ReencodedSize(b, i);
      ReencodedDefinite(b, t.next, end);
      ConsElems(t.value, DecodeDefinite(b, t.next, end).value);
    }
  }

  lemma {:induction false} ReencodedIndefinite(b: seq<byte>, i: nat)
    requires 3 * |b| <= MAX_INT
    requires i + 1 < |b| && DecodeIndefinite(b, i).Ok?
    ensures |EncodeAll(DecodeIndefinite(b, i).value)| <= 3 * (DecodeIndefinite(b, i).next - i)
    decreases |b| - i, 2
  {
    if !(b[i] == 0 && b[i + 1] == 0) {
      var t := Decode(b, i);
      ReencodedSize(b, i);
      ReencodedIndefinite(b, t.next);
      ConsElems(t.value, DecodeIndefinite(b, t.next).value);
    }
  }

  /** Re-encoding accepted input and decoding that gives the same term and no rest. */
  lemma ReencodingIsNormal(b: seq<byte>)
    requires Decode(b, 0).Ok? && |Encode(Decode(b, 0).value)| <= MAX_INT
    ensures var t := Decode(b, 0).value; Decode(Encode(t), 0) == Ok(t, |Encode(t)|)
  {
    var t := Decode(b, 0).value;
    DecodedGood(b, 0);
    RoundTrip(Encode(t), 0, t);
  }

  /** For input up to a third of the largest `int` the re-encoding always fits. */
  lemma ReencodingFits(b: seq<byte>)
    requires Decode(b, 0).Ok? && 3 * |b| <= MAX_INT
    ensures var t := Decode(b, 0).value;
            |Encode(t)| <= 3 * Decode(b, 0).next && Decode(Encode(t), 0) == Ok(t, |Encode(t)|)
  {
    ReencodedSize(b, 0);
    ReencodingIsNormal(b);
  }
}
