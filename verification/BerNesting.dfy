/** Announced lengths: when do all definite-length lists of a message end where their length
    says?  The decoder compares the elements of a list with the end of the buffer, not with
    the announced end of the list. */
module BerNesting {
  import opened Ber
  import opened BerTheorems

  // ---------------------------------------------------- as the decoder goes along

  /** In the value decoded at index i every definite-length list ends as announced. */
  ghost predicate EndsAsAnnounced(b: seq<byte>, i: nat)
    requires i <= |b| && Decode(b, i).Ok?
    decreases |b| - i, 1
  {
    var h := DecodeTag(b, i);
    assert DecodeValue(b, h.next, h.value.constructed).Ok?;
    h.value.constructed ==>
      if b[h.next] == 0x80 then MarkedEndsAsAnnounced(b, h.next + 1)
      else
        var len := DecodeLength(b, h.next);
        var end := len.next + len.value;
        DecodeDefinite(b, len.next, end).next == end && ElemsEndAsAnnounced(b, len.next, end)
  }

  ghost predicate ElemsEndAsAnnounced(b: seq<byte>, i: nat, end: nat)
    requires i <= |b| && end <= |b| && DecodeDefinite(b, i, end).Ok?
    decreases |b| - i, 2
  {
    i < end ==> EndsAsAnnounced(b, i) && ElemsEndAsAnnounced(b, Decode(b, i).next, end)
  }

  ghost predicate MarkedEndsAsAnnounced(b: seq<byte>, i: nat)
    requires i + 1 < |b| && DecodeIndefinite(b, i).Ok?
    decreases |b| - i, 2
  {
    (b[i] == 0 && b[i + 1] == 0) || (EndsAsAnnounced(b, i) && MarkedEndsAsAnnounced(b, Decode(b, i).next))
  }

  // ------------------------------------------------------------- by headers alone

  /** The index behind an element as its header has it: start plus length, or behind the end
      mark; behind the buffer if there is no such header. */
  function HeaderEnd(b: seq<byte>, i: nat): (n: nat)
    requires i <= |b|
    ensures n >= i + 2 || n > |b|
    decreases |b| - i, 1
  {
    if i + 2 > |b| || DecodeTag(b, i).Err? || DecodeTag(b, i).next >= |b| then |b| + 1 else
    var j := DecodeTag(b, i).next;
    if b[j] == 0x80 then MarkEnd(b, j + 1)
    else if DecodeLength(b, j).Err? then |b| + 1
    else DecodeLength(b, j).next + DecodeLength(b, j).value
  }

  function MarkEnd(b: seq<byte>, i: nat): (n: nat)
    requires i <= |b|
    ensures n >= i + 2 || n > |b|
    decreases |b| - i, 2
  {
    if i + 1 >= |b| then |b| + 1
    else if b[i] == 0 && b[i + 1] == 0 then i + 2
    else if HeaderEnd(b, i) > |b| then |b| + 1
    else MarkEnd(b, HeaderEnd(b, i))
  }

  /** The element at i ends within `end`, and every element in it, at every depth, within the
      end of the innermost definite-length list around it; `end` is that of the list around i. */
  predicate Nested(b: seq<byte>, i: nat, end: nat)
    requires i <= |b| && end <= |b|
    decreases |b| - i, 1
  {
    HeaderEnd(b, i) <= end &&
    var h := DecodeTag(b, i);
    h.value.constructed ==>
      if b[h.next] == 0x80 then MarkedNested(b, h.next + 1, end)
      else
        var len := DecodeLength(b, h.next);
        ElemsNested(b, len.next, len.next + len.value)
  }

  predicate ElemsNested(b: seq<byte>, i: nat, end: nat)
    requires i <= |b| && end <= |b|
    decreases |b| - i, 2
  {
    i < end ==> Nested(b, i, end) && ElemsNested(b, HeaderEnd(b, i), end)
  }

  predicate MarkedNested(b: seq<byte>, i: nat, end: nat)
    requires i <= |b| && end <= |b|
    decreases |b| - i, 2
  {
    i + 1 < |b| && ((b[i] == 0 && b[i + 1] == 0) || (Nested(b, i, end) && MarkedNested(b, HeaderEnd(b, i), end)))
  }

  // --------------------------------------------------------------- the two agree

  lemma {:induction false} NestedIff(b: seq<byte>, i: nat, end: nat)
    requires i <= |b| && end <= |b| && Decode(b, i).Ok?
    ensures EndsAsAnnounced(b, i) && Decode(b, i).next <= end <==> Nested(b, i, end)
    ensures EndsAsAnnounced(b, i) || Nested(b, i, end) ==> HeaderEnd(b, i) == Decode(b, i).next
    decreases |b| - i, 1
  {
    hide DecodeTag, DecodeLength;
    var h := DecodeTag(b, i);
    if h.value.constructed {
      if b[h.next] == 0x80 {
        MarkedNestedIff(b, h.next + 1, end);
      } else {
        var len := DecodeLength(b, h.next);
        ElemsNestedIff(b, len.next, len.next + len.value);
      }
    }
  }

  lemma {:induction false} ElemsNestedIff(b: seq<byte>, i: nat, end: nat)
    requires i <= end <= |b| && DecodeDefinite(b, i, end).Ok?
    ensures DecodeDefinite(b, i, end).next == end && ElemsEndAsAnnounced(b, i, end) <==> ElemsNested(b, i, end)
    decreases |b| - i, 2
  {
    if i < end {
      var n := Decode(b, i).next;
      NestedIff(b, i, end);
      if n <= end {
        ElemsNestedIff(b, n, end);
      }
    }
  }

  lemma {:induction false} MarkedNestedIff(b: seq<byte>, i: nat, end: nat)
    requires i + 1 < |b| && end <= |b| && DecodeIndefinite(b, i).Ok?
    ensures MarkedEndsAsAnnounced(b, i) && DecodeIndefinite(b, i).next <= end
       <==> MarkedNested(b, i, end) && MarkEnd(b, i) <= end
    ensures MarkedEndsAsAnnounced(b, i) || MarkedNested(b, i, end) ==> MarkEnd(b, i) == DecodeIndefinite(b, i).next
    decreases |b| - i, 2
  {
    if !(b[i] == 0 && b[i + 1] == 0) {
      var n := Decode(b, i).next;
      NestedIff(b, i, end);
      MarkedNestedIff(b, n, end);
    }
  }

  /** Of an accepted message all definite-length lists end as announced if and only if every
      element ends, by its header, within the innermost definite-length list around it; and
      then the message itself ends where its header says. */
  lemma ExactLengthsIffNested(b: seq<byte>)
    requires Decode(b, 0).Ok?
    ensures EndsAsAnnounced(b, 0) <==> Nested(b, 0, |b|)
    ensures Nested(b, 0, |b|) ==> HeaderEnd(b, 0) == Decode(b, 0).next
  {
    NestedIff(b, 0, |b|);
  }

  /** One list: it ends where its length says exactly when it decodes from the buffer cut off
      there; otherwise its last element runs past the end. */
  lemma CutDecides(b: seq<byte>, i: nat, end: nat)
    requires i <= end <= |b| && DecodeDefinite(b, i, end).Ok?
    ensures DecodeDefinite(b, i, end).next == end <==> DecodeDefinite(b[..end], i, end).Ok?
    ensures DecodeDefinite(b[..end], i, end).Ok? ==> DecodeDefinite(b[..end], i, end) == DecodeDefinite(b, i, end)
  {
    hide DecodeDefinite;
    var cut := b[..end];
    if DecodeDefinite(b, i, end).next == end {
      DefiniteSelfDelimiting(b, cut, i, end);
    } else if DecodeDefinite(cut, i, end).Ok? {
      DefiniteSelfDelimiting(cut, b, i, end);
    }
  }

  /** A list of announced length 2 whose one element has three octets: accepted. */
  lemma OverrunExample()
    ensures Decode([48, 2, 4, 1, 7], 0) == Ok(Constructed(16, [Primitive(4, [7])]), 5)
    ensures DecodeDefinite([48, 2, 4, 1, 7], 2, 4).next == 5 && !EndsAsAnnounced([48, 2, 4, 1, 7], 0)
    ensures !Nested([48, 2, 4, 1, 7], 0, 5)
  {
    var b: seq<byte> := [48, 2, 4, 1, 7];
    assert DecodeTag(b, 2) == Ok(Header(false, 4), 3);
    assert DecodeLength(b, 3) == Ok(1, 4);
    assert b[4..5] == [7];
    DecodeContents(b, 3, 1, 4);
    DecodeParts(b, 2, Header(false, 4), 3, Octets([7]), 5);
    assert DecodeDefinite(b, 5, 4) == Ok([], 5);
    DefiniteCons(b, 2, 4, 5);
    var none: seq<Term> := [];
    assert [Primitive(4, [7])] + none == [Primitive(4, [7])];
    assert DecodeTag(b, 0) == Ok(Header(true, 16), 1);
    assert DecodeLength(b, 1) == Ok(2, 2);
    DecodeContents(b, 1, 2, 2);
    DecodeParts(b, 0, Header(true, 16), 1, Elems([Primitive(4, [7])]), 5);
    ExactLengthsIffNested(b);
  }

  // ------------------------------------------------------------- encoder's output

  lemma NestedParts(b: seq<byte>, i: nat, h: Header, j: nat, size: nat, start: nat, end: nat)
    requires i + 2 <= |b| && DecodeTag(b, i) == Ok(h, j) && j < |b| && b[j] != 0x80
    requires DecodeLength(b, j) == Ok(size, start) && start + size <= end <= |b|
    requires h.constructed ==> ElemsNested(b, start, start + size)
    ensures HeaderEnd(b, i) == start + size && Nested(b, i, end)
  {
    hide DecodeTag, DecodeLength, ElemsNested;
  }

  lemma {:induction false} EncodedNested(b: seq<byte>, i: nat, t: Term, end: nat)
    requires |b| <= MAX_INT && Good(t) && At(b, i, Encode(t)) && i + |Encode(t)| <= end <= |b|
    ensures HeaderEnd(b, i) == i + |Encode(t)| && Nested(b, i, end)
    decreases t, 1
  {
    hide DecodeTag, DecodeLength, TagOctets, LengthOctets, ElemsNested, EncodeAll, HeaderEnd, Nested;
    var body := if t.Constructed? then EncodeAll(t.elems) else t.value;
    EncodingLayout(b, i, t.Constructed?, t.tag, body);
    var j := i + |TagOctets(t.Constructed?, t.tag)|;
    var start := j + |LengthOctets(|body|)|;
    if t.Constructed? {
      EncodedElemsNested(b, start, t.elems, start + |body|);
    }
    NestedParts(b, i, Header(t.Constructed?, t.tag), j, |body|, start, end);
  }

  lemma {:induction false} EncodedElemsNested(b: seq<byte>, i: nat, ts: seq<Term>, end: nat)
    requires |b| <= MAX_INT && GoodAll(ts) && At(b, i, EncodeAll(ts)) && end == i + |EncodeAll(ts)|
    ensures ElemsNested(b, i, end)
    decreases ts, 0
  {
    hide Encode, HeaderEnd, Nested;
    if ts != [] {
      AtAppend(b, i, Encode(ts[0]), EncodeAll(ts[1..]));
      EncodedNested(b, i, ts[0], end);
      EncodedElemsNested(b, i + |Encode(ts[0])|, ts[1..], end);
    }
  }

  /** In what the encoder writes every list ends as announced. */
  lemma EncoderNests(t: Term, rest: seq<byte>)
    requires Good(t) && |Encode(t)| + |rest| <= MAX_INT
    ensures Decode(Encode(t) + rest, 0).Ok? && EndsAsAnnounced(Encode(t) + rest, 0)
  {
    var b := Encode(t) + rest;
    DecodeEncoded(t, rest);
    EncodedNested(b, 0, t, |b|);
    NestedIff(b, 0, |b|);
  }
}
