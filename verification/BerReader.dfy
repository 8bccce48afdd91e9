/** The decoder as it runs: one index moves over the input buffer, through recursive calls
    and loops.  Every method is proved to leave the index and the result where the functions
    of module Ber say. */
module BerReader {
  import opened Ber

  datatype Outcome<T> = Done(value: T) | Failed(error: Error)

  /** A method's outcome and the index it left behind are what the function says. */
  ghost predicate Agrees<T>(r: Outcome<T>, index: nat, d: Decoded<T>) {
    match d
    case Ok(v, next) => r == Done(v) && index == next
    case Err(e, pos) => r == Failed(e) && index == pos
  }

  function Reversed<T>(s: seq<T>): seq<T> {
    if s == [] then [] else Reversed(s[1..]) + [s[0]]
  }

  /** A list result with the elements decoded before put in front. */
  ghost function Prepend(s: seq<Term>, d: Decoded<seq<Term>>): Decoded<seq<Term>> {
    match d
    case Ok(ts, next) => Ok(s + ts, next)
    case Err(e, pos) => Err(e, pos)
  }

  lemma PrependCons(t: Term, head: seq<Term>, d: Decoded<seq<Term>>)
    ensures Prepend(Reversed([t] + head), d) == Prepend(Reversed(head), Prepend([t], d))
  {
    assert ([t] + head)[1..] == head;
    if d.Ok? {
      assert Reversed(head) + [t] + d.value == Reversed(head) + ([t] + d.value);
    }
  }

  lemma PrependNothing(d: Decoded<seq<Term>>)
    ensures Prepend([], d) == d
  {
    assert d.Ok? ==> [] + d.value == d.value;
  }

  lemma PrependToNothing(s: seq<Term>, next: nat)
    ensures Prepend(s, Ok([], next)) == Ok(s, next)
  {
    assert s + [] == s;
  }

  class Reader {
    const inBuf: seq<byte>
    var ibIndex: nat

    ghost predicate Valid()
      reads this
    {
      ibIndex <= |inBuf| <= MAX_INT
    }

    constructor (buf: seq<byte>)
      requires |buf| <= MAX_INT
      ensures Valid() && inBuf == buf && ibIndex == 0
    {
      inBuf, ibIndex := buf, 0;
    }

    /** One whole value and the bytes behind it, or the error and its position. */
    method DecodeBegin() returns (r: Outcome<(Term, seq<byte>)>, errPos: nat)
      requires Valid() && ibIndex == 0
      modifies this
      ensures match Ber.Decode(inBuf, 0)
              case Ok(t, n) => r == Done((t, inBuf[n..]))
              case Err(e, p) => r == Failed(e) && errPos == p
    {
      errPos := 0;
      var term := Decode();
      match term
      case Failed(e) =>
        errPos := ibIndex;
        r := Failed(e);
      case Done(t) =>
        r := Done((t, inBuf[ibIndex..]));
    }

    method Decode() returns (r: Outcome<Term>)
      requires Valid()
      modifies this
      ensures Valid() && Agrees(r, ibIndex, Ber.Decode(inBuf, old(ibIndex)))
      decreases |inBuf| - ibIndex, 1
    {
      if ibIndex + 2 > |inBuf| {
        return Failed(ValueError);
      }
      var header := DecodeTag();
      if header.Failed? {
        return Failed(header.error);
      }
      if ibIndex >= |inBuf| {
        return Failed(TagError);
      }
      var value := DecodeValue(header.value.constructed);
      if value.Failed? {
        return Failed(value.error);
      }
      return Done(MakeTerm(header.value.tag, value.value));
    }

    method DecodeTag() returns (r: Outcome<Header>)
      requires Valid() && ibIndex + 2 <= |inBuf|
      modifies this
      ensures Valid() && Agrees(r, ibIndex, Ber.DecodeTag(inBuf, old(ibIndex)))
    {
      var first: int := inBuf[ibIndex];
      var tagNo: int := first / 64 * 0x1_0000;
      var form := first / 32 % 2 == 1;
      var tmpTag: int := first % 32;
      if tmpTag < 31 {
        ibIndex := ibIndex + 1;
        return Done(Header(form, tagNo + tmpTag));
      }
      if ibIndex + 3 > |inBuf| {
        return Failed(ValueError);
      }
      ibIndex := ibIndex + 1;
      tmpTag := inBuf[ibIndex];
      if tmpTag >= 128 {
        tagNo := tagNo + tmpTag % 128 * 128;
        ibIndex := ibIndex + 1;
      }
      tmpTag := inBuf[ibIndex];
      if tmpTag >= 128 {
        return Failed(TagError);
      }
      ibIndex := ibIndex + 1;
      return Done(Header(form, tagNo + tmpTag));
    }

    method DecodeValue(constructed: bool) returns (r: Outcome<Value>)
      requires Valid() && ibIndex < |inBuf|
      modifies this
      ensures Valid() && Agrees(r, ibIndex, Ber.DecodeValue(inBuf, old(ibIndex), constructed))
      decreases |inBuf| - ibIndex, 3
    {
      if inBuf[ibIndex] == 0x80 {
        ibIndex := ibIndex + 1;
        if ibIndex + 1 >= |inBuf| || !constructed {
          return Failed(IndefLenError);
        }
        var elems := IndefiniteElems();
        return if elems.Done? then Done(Elems(elems.value)) else Failed(elems.error);
      }
      var len := DecodeLength();
      if len.Failed? {
        return Failed(len.error);
      }
      if constructed {
        var endIndex := ibIndex + len.value;
        assert endIndex <= |inBuf|;  // so the source's second check cannot fail
        var elems := DefiniteElems(endIndex);
        return if elems.Done? then Done(Elems(elems.value)) else Failed(elems.error);
      } else {
        assert ibIndex + len.value <= |inBuf|;  // as above
        var out := inBuf[ibIndex..ibIndex + len.value];
        ibIndex := ibIndex + len.value;
        return Done(Octets(out));
      }
    }

    method DecodeLength() returns (r: Outcome<nat>)
      requires Valid() && ibIndex < |inBuf| && inBuf[ibIndex] != 0x80
      modifies this
      ensures Valid() && Agrees(r, ibIndex, Ber.DecodeLength(inBuf, old(ibIndex)))
    {
      var len: nat := 0;
      if inBuf[ibIndex] < 128 {
        len := inBuf[ibIndex];
      } else {
        var lenOfLen: nat := inBuf[ibIndex] - 128;
        if lenOfLen > |inBuf| - (ibIndex + 1) {
          return Failed(LenError);
        }
        ghost var whole := DecodeLengthOctets(inBuf, ibIndex, lenOfLen, 0);
        while lenOfLen > 0
          invariant ibIndex + lenOfLen < |inBuf| && len < 0x1_0000_0000
          invariant DecodeLengthOctets(inBuf, ibIndex, lenOfLen, len) == whole
        {
          lenOfLen := lenOfLen - 1;
          ibIndex := ibIndex + 1;
          if !(len < LEN_GUARD) {
            return Failed(LenError);
          }
          len := len * 256 + inBuf[ibIndex];
        }
      }
      if len > |inBuf| - (ibIndex + 1) {
        return Failed(ValueError);
      }
      ibIndex := ibIndex + 1;
      return Done(len);
    }

    method DefiniteElems(endIndex: nat) returns (r: Outcome<seq<Term>>)
      requires Valid() && endIndex <= |inBuf|
      modifies this
      ensures Valid() && Agrees(r, ibIndex, DecodeDefinite(inBuf, old(ibIndex), endIndex))
      decreases |inBuf| - ibIndex, 2
    {
      var currHead: seq<Term> := [];
      PrependNothing(DecodeDefinite(inBuf, ibIndex, endIndex));
      while ibIndex < endIndex
        invariant Valid() && old(ibIndex) <= ibIndex
        invariant DecodeDefinite(inBuf, old(ibIndex), endIndex)
               == Prepend(Reversed(currHead), DecodeDefinite(inBuf, ibIndex, endIndex))
        decreases |inBuf| - ibIndex
      {
        var term := Decode();
        if term.Failed? {
          return Failed(term.error);
        }
        PrependCons(term.value, currHead, DecodeDefinite(inBuf, ibIndex, endIndex));
        currHead := [term.value] + currHead;
      }
      PrependToNothing(Reversed(currHead), ibIndex);
      return Done(Reversed(currHead));
    }

    method IndefiniteElems() returns (r: Outcome<seq<Term>>)
      requires Valid() && ibIndex + 1 < |inBuf|
      modifies this
      ensures Valid() && Agrees(r, ibIndex, DecodeIndefinite(inBuf, old(ibIndex)))
      decreases |inBuf| - ibIndex, 2
    {
      var currHead: seq<Term> := [];
      PrependNothing(DecodeIndefinite(inBuf, ibIndex));
      while !(inBuf[ibIndex] == 0 && inBuf[ibIndex + 1] == 0)
        invariant Valid() && old(ibIndex) <= ibIndex && ibIndex + 1 < |inBuf|
        invariant DecodeIndefinite(inBuf, old(ibIndex))
               == Prepend(Reversed(currHead), DecodeIndefinite(inBuf, ibIndex))
        decreases |inBuf| - ibIndex
      {
        var term := Decode();
        if term.Failed? {
          return Failed(term.error);
        }
        if ibIndex + 1 >= |inBuf| {
          return Failed(IndefLenError);
        }
        PrependCons(term.value, currHead, DecodeIndefinite(inBuf, ibIndex));
        currHead := [term.value] + currHead;
      }
      ibIndex := ibIndex + 2;
      PrependToNothing(Reversed(currHead), ibIndex);
      return Done(Reversed(currHead));
    }
  }
}
