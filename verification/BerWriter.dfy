/** The encoder as it runs: octets are written from the back into the newest memory chunk,
    a new chunk is linked in front when the room does not suffice, and at the end the used
    parts of all chunks are concatenated from the newest to the oldest.

    `written` is what that concatenation would give now.  Every operation is specified by
    what it puts in front of it. */
module BerWriter {
  import opened Ber
  import opened BerLengths
  import opened BerRoom

  class MemChunk {
    const top: array<byte>
    var curr: int  // index of the next octet to write, -1 when the chunk is full
    var next: MemChunk?

    constructor (length: nat)
      requires length > 0
      ensures Valid() && fresh(top) && top.Length == length && curr == length - 1 && next == null
    {
      top, curr, next := new byte[length], length - 1, null;
    }

    ghost predicate Valid()
      reads this
    {
      -1 <= curr < top.Length && top.Length > 0
    }

    /** The octets in use, curr + 1 to the end of the chunk. */
    ghost function Used(): seq<byte>
      requires Valid()
      reads this, top
    {
      top[curr + 1..]
    }

    method Write(value: seq<byte>)
      requires Valid() && |value| <= curr + 1
      modifies this`curr, top
      ensures Valid() && curr == old(curr) - |value| && Used() == value + old(Used())
    {
      var start := curr - |value| + 1;
      forall k | 0 <= k < |value| {
        top[start + k] := value[k];
      }
      curr := curr - |value|;
    }

    method CopyUsed(out: array<byte>, pos: nat) returns (length: nat)
      requires Valid() && out != top && pos + |Used()| <= out.Length
      modifies out
      ensures length == |Used()| && out[..pos + length] == old(out[..pos]) + Used()
    {
      length := top.Length - curr - 1;
      forall k | 0 <= k < length {
        out[pos + k] := top[curr + 1 + k];
      }
    }
  }

  ghost predicate AllValid(cs: seq<MemChunk>)
    reads cs
  {
    forall c <- cs :: c.Valid()
  }

  /** The octets in use in a list of chunks, in the order of the final concatenation. */
  ghost function UsedInAll(cs: seq<MemChunk>): seq<byte>
    requires AllValid(cs)
    reads cs, set c <- cs :: c.top
  {
    if cs == [] then [] else cs[0].Used() + UsedInAll(cs[1..])
  }

  /** cs is the linked list that starts with `first`. */
  ghost predicate Linked(first: MemChunk?, cs: seq<MemChunk>)
    reads cs
  {
    if cs == [] then first == null else first == cs[0] && Linked(cs[0].next, cs[1..])
  }

  lemma LinkOne(c: MemChunk, cs: seq<MemChunk>)
    requires c.Valid() && Linked(c.next, cs) && AllValid(cs)
    ensures Linked(c, [c] + cs) && AllValid([c] + cs)
    ensures UsedInAll([c] + cs) == c.Used() + UsedInAll(cs)
  {
    assert ([c] + cs)[1..] == cs;
  }

  lemma FirstOf(first: MemChunk?, cs: seq<MemChunk>)
    requires Linked(first, cs) && AllValid(cs)
    ensures first == null ==> cs == [] && UsedInAll(cs) == []
    ensures first != null ==>
      && cs != [] && first == cs[0] && first.Valid() && Linked(first.next, cs[1..]) && AllValid(cs[1..])
      && UsedInAll(cs) == first.Used() + UsedInAll(cs[1..])
  {
  }

  lemma {:induction false} SuffixEncoding(ts: seq<Term>, i: nat)
    requires i <= |ts|
    ensures |EncodeAll(ts[i..])| <= |EncodeAll(ts)|
    ensures if i < |ts| then EncodeAll(ts[i..]) == Encode(ts[i]) + EncodeAll(ts[i + 1..]) else EncodeAll(ts[i..]) == []
    decreases i
  {
    if i < |ts| {
      assert ts[i..][1..] == ts[i + 1..];
    }
    if i > 0 {
      SuffixEncoding(ts, i - 1);
    } else {
      assert ts[0..] == ts;
    }
  }

  lemma Associate(a: seq<byte>, b: seq<byte>, c: seq<byte>)
    ensures a + (b + c) == (a + b) + c
  {
  }

  lemma LengthForms(size: nat)
    requires size < TWO_32
    ensures |BigEndian(size)| <= 4
    ensures LengthOctets(size) == if size < 128 then [size] else [|BigEndian(size)| + 128] + BigEndian(size)
  {
    FourDigits(size);
  }

  /** An empty list has the one length octet 0. */
  lemma EmptyLength()
    ensures LengthOctets(0) == [0] && EncodeAll([]) == []
  {
  }

  lemma NoElems(s: Space)
    ensures AfterElems(s, []) == Going(s)
  {
  }

  /** A bound on the length of a chunk in messages up to `limit` octets. */
  function Longest(limit: nat): nat {
    if 4 * limit + 16 < FIRST_CHUNK then FIRST_CHUNK else 4 * limit + 16
  }

  class Writer {
    var curr: MemChunk
    ghost const limit: nat  // a bound on the octets written, fixed for one message
    ghost var older: seq<MemChunk>  // the chunks behind curr, newest first
    ghost var olderRepr: set<object>
    ghost var olderBytes: seq<byte>
    ghost var written: seq<byte>
    ghost var space: Space  // length and room of curr
    ghost var repr: set<object>

    ghost predicate Valid()
      reads this, repr
    {
      && limit <= MAX_INT
      && repr == {this, curr, curr.top} + olderRepr && {this, curr, curr.top} !! olderRepr
      && (forall c <- older :: c in olderRepr && c.top in olderRepr)
      && curr.Valid() && space == Chunk(curr.top.Length, curr.curr)
      && Linked(curr.next, older) && AllValid(older) && olderBytes == UsedInAll(older)
      && written == curr.Used() + olderBytes && |written| <= limit
      && ChunksBounded()
    }

    /** The chunk lengths, an `int` in the source, stay linear in the message size. */
    ghost predicate ChunksBounded()
      reads this
    {
      curr.top.Length <= Longest(limit) && forall c <- older :: c.top.Length <= Longest(limit)
    }

    lemma RoomIsCurr()
      requires Valid()
      ensures space.room == curr.curr
    {
    }

    /** So for messages up to 2^29 - 5 octets no length overflows. */
    lemma LengthsAreInts()
      requires Valid() && limit <= 0x2000_0000 - 5
      ensures curr.top.Length <= MAX_INT && forall c <- older :: c.top.Length <= MAX_INT
    {
    }

    constructor (ghost limit: nat)
      requires limit <= MAX_INT
      ensures Valid() && fresh(repr) && this.limit == limit
      ensures written == [] && space == START
    {
      var chunk := new MemChunk(FIRST_CHUNK);
      curr, this.limit, older, olderRepr, olderBytes := chunk, limit, [], {}, [];
      written, space := [], START;
      repr := {this, chunk, chunk.top};
    }

    ghost function Chunks(): (cs: seq<MemChunk>)
      requires Valid()
      reads this, repr
      ensures Linked(curr, cs) && AllValid(cs) && UsedInAll(cs) == written
    {
      LinkOne(curr, older);
      [curr] + older
    }

    /** Ends with room for `needed` more octets behind the next one, whether or not that
        takes a new chunk; what was written stays. */
    method CheckMemory(needed: nat)
      requires Valid() && needed <= limit + 8
      modifies repr
      ensures Valid() && fresh(repr - old(repr)) && written == old(written) && space.room >= needed
      ensures space == Reserve(old(space), needed)
      ensures old(space.room) >= needed ==> curr == old(curr) && older == old(older)
      ensures old(space.room) < needed ==> fresh(curr) && older == [old(curr)] + old(older)
    {
      ghost var used := |curr.Used()|;
      assert curr.top.Length == used + curr.curr + 1 && used <= limit;
      if curr.curr - needed < 0 {
        LinkChunk(if curr.top.Length > needed then curr.top.Length * 2 else curr.top.Length + needed);
      }
    }

    /** A new, empty chunk in front of the list. */
    method LinkChunk(length: nat)
      requires Valid() && 0 < length <= Longest(limit)
      modifies this
      ensures Valid() && fresh(repr - old(repr)) && written == old(written)
      ensures fresh(curr) && older == [old(curr)] + old(older)
      ensures space == Chunk(length, length - 1)
    {
      hide Linked, UsedInAll, AllValid;
      LinkOne(curr, older);
      var chunk := new MemChunk(length);
      chunk.next := curr;
      older := [curr] + older;
      olderBytes, olderRepr := written, olderRepr + {curr, curr.top};
      curr, space := chunk, Chunk(length, length - 1);
      repr := repr + {curr, curr.top};
      assert curr.Used() == [] && [] + olderBytes == olderBytes;
    }

    method Put(x: byte)
      requires Valid() && space.room >= 0 && |written| < limit
      modifies repr
      ensures Valid() && repr == old(repr) && written == [x] + old(written) && space == Take(old(space), 1)
    {
      PutAll([x]);
    }

    method PutAll(value: seq<byte>)
      requires Valid() && space.room + 1 >= |value| && |written| + |value| <= limit
      modifies repr
      ensures Valid() && repr == old(repr) && written == value + old(written) && space == Take(old(space), |value|)
    {
      hide Linked, UsedInAll, AllValid;
      curr.Write(value);
      space := Chunk(curr.top.Length, curr.curr);
      written := value + written;
      Associate(value, old(curr.Used()), olderBytes);
    }

    method PutBigEndian(size: nat) returns (chunks: nat)
      requires Valid() && |BigEndian(size)| <= 4 && space.room >= 8 && |written| + |BigEndian(size)| <= limit
      modifies repr
      ensures Valid() && repr == old(repr) && space == Take(old(space), chunks)
      ensures written == BigEndian(size) + old(written) && chunks == |BigEndian(size)|
    {
      hide Valid;
      var rest: nat := size;
      chunks := 0;
      ghost var digits: seq<byte> := [];
      while rest > 0
        invariant Valid() && repr == old(repr)
        invariant BigEndian(size) == BigEndian(rest) + digits && |digits| == chunks
        invariant written == digits + old(written) && space == Take(old(space), chunks)
      {
        Associate([rest % 256], digits, old(written));
        Associate(BigEndian(rest / 256), [rest % 256], digits);
        digits := [rest % 256] + digits;
        Put(rest % 256);
        rest := rest / 256;
        chunks := chunks + 1;
      }
    }

    method EncodeLength(size: nat) returns (count: nat)
      requires Valid() && size <= MAX_INT && |written| + |LengthOctets(size)| <= limit
      modifies repr
      ensures Valid() && fresh(repr - old(repr)) && space == AfterLength(old(space), size)
      ensures written == LengthOctets(size) + old(written) && count == |LengthOctets(size)|
    {
      hide Valid, BigEndian, Reserve, LengthOctets;
      LengthForms(size);
      if size < 128 {
        CheckMemory(1);
        Put(size);
        count := 1;
      } else {
        CheckMemory(8);
        var chunks := PutBigEndian(size);
        Associate([chunks + 128], BigEndian(size), old(written));
        Put(chunks + 128);
        count := chunks + 1;
      }
    }

    /** The octets of a tag number above 30, the last one first. */
    method PutTagNumber(number: nat) returns (count: nat)
      requires Valid() && space.room >= 2 && number < 0x1_0000
      requires |written| + |ContinuationOctets(number / 128)| + 1 <= limit
      modifies repr
      ensures Valid() && repr == old(repr) && 1 <= count <= 3 && space == Take(old(space), count)
      ensures written == ContinuationOctets(number / 128) + [number % 128] + old(written)
      ensures count == |ContinuationOctets(number / 128)| + 1
    {
      hide Valid;
      var rest: nat := number / 128;
      ghost var digits: seq<byte> := [number % 128];
      Put(number % 128);
      count := 1;
      while rest > 0
        invariant Valid() && repr == old(repr)
        invariant ContinuationOctets(number / 128) + [number % 128] == ContinuationOctets(rest) + digits
        invariant if count == 1 then rest < 512 else if count == 2 then rest < 4 else count == 3 && rest == 0
        invariant written == digits + old(written) && count == |digits| && space == Take(old(space), count)
      {
        Associate([rest % 128 + 128], digits, old(written));
        Associate(ContinuationOctets(rest / 128), [rest % 128 + 128], digits);
        digits := [rest % 128 + 128] + digits;
        Put(rest % 128 + 128);
        rest := rest / 128;
        count := count + 1;
      }
    }

    method EncodeTag(tag: nat, constructed: bool) returns (ok: bool, count: nat)
      requires Valid() && space.room >= 3 && |written| + |TagOctets(constructed, tag)| <= limit
      modifies repr
      ensures Valid() && repr == old(repr)
      ensures ok <==> tag <= MAX_UINT
      ensures ok ==> written == TagOctets(constructed, tag) + old(written) && count == |TagOctets(constructed, tag)|
      ensures ok ==> space == Take(old(space), count)
    {
      hide Valid, ContinuationOctets;
      if tag > MAX_UINT {
        return false, 0;
      }
      var headTag := (if constructed then 32 else 0) + tag / 0x1_0000 % 4 * 64;
      var classTagNo := tag % 0x1_0000;
      if classTagNo <= 30 {
        Put(headTag + classTagNo);
        return true, 1;
      } else {
        count := PutTagNumber(classTagNo);
        Put(headTag + 31);
        return true, count + 1;
      }
    }

    /** Puts the encoding of t in front of what was written, for every tree and wherever the
        chunk boundaries fall; or ends at a bad tag, or where the source would write outside. */
    method Encode(t: Term) returns (end: Ending, count: nat)
      requires Valid() && |written| + |Ber.Encode(t)| <= limit
      modifies repr
      ensures Valid() && fresh(repr - old(repr))
      ensures end == EndingOf(After(old(space), t))
      ensures end == Finished ==> After(old(space), t) == Going(space)
      ensures end == Finished ==> written == Ber.Encode(t) + old(written) && count == |Ber.Encode(t)|
      decreases t, 2
    {
      hide Valid, TagOctets, LengthOctets, EncodeAll, Reserve, AfterContents;
      ghost var body := Contents(t);
      EncodeIsParts(t);
      end, count := EncodeContents(t);
      if end != Finished {
        return;
      }
      CheckMemory(3);
      var ok, n := EncodeTag(t.tag, t.Constructed?);
      if !ok {
        end := WrongTag;
      }
      count := count + n;
      Associate(TagOctets(t.Constructed?, t.tag), LengthOctets(|body|) + body, old(written));
    }

    /** Contents octets and, in front of them, length octets. */
    method EncodeContents(t: Term) returns (end: Ending, count: nat)
      requires Valid()
      requires |written| + |LengthOctets(|Contents(t)|)| + |Contents(t)| <= limit
      modifies repr
      ensures Valid() && fresh(repr - old(repr))
      ensures end == EndingOf(AfterContents(old(space), t))
      ensures end == Finished ==> AfterContents(old(space), t) == Going(space)
      ensures end == Finished ==> written == LengthOctets(|Contents(t)|) + Contents(t) + old(written)
      ensures end == Finished ==> count == |LengthOctets(|Contents(t)|)| + |Contents(t)|
      decreases t, 1
    {
      hide Valid, LengthOctets, EncodeAll, Reserve, AfterLength, AfterElems;
      end := Finished;
      match t {
        case Primitive(tag, value) =>
          CheckMemory(|value|);
          PutAll(value);
          var n := EncodeLength(|value|);
          count := |value| + n;
        case Constructed(tag, elems) =>
          if elems == [] {
            EmptyLength();
            RoomIsCurr();
            if curr.curr < 0 {
              return LeftChunk, 0;  // the source stores in front of the chunk here
            }
            Put(0);
            count := 1;
          } else {
            end, count := EncodeElems(elems);
            if end != Finished {
              return;
            }
            CheckMemory(count);
            var n := EncodeLength(count);
            count := count + n;
          }
      }
    }

    /** The loop over the reversed list: the last element is written first. */
    method EncodeElems(elems: seq<Term>) returns (end: Ending, count: nat)
      requires Valid() && |written| + |EncodeAll(elems)| <= limit
      modifies repr
      ensures Valid() && fresh(repr - old(repr))
      ensures end == EndingOf(AfterElems(old(space), elems))
      ensures end == Finished ==> AfterElems(old(space), elems) == Going(space)
      ensures end == Finished ==> written == EncodeAll(elems) + old(written) && count == |EncodeAll(elems)|
      decreases elems, 0
    {
      hide Valid, EncodeAll, Ber.Encode, After, AfterElems;
      SuffixEncoding(elems, |elems|);
      NoElems(space);
      count := 0;
      var i := |elems|;
      while i > 0
        invariant 0 <= i <= |elems|
        invariant Valid() && fresh(repr - old(repr)) && AfterElems(old(space), elems[i..]) == Going(space)
        invariant written == EncodeAll(elems[i..]) + old(written) && count == |EncodeAll(elems[i..])|
      {
        i := i - 1;
        SuffixEncoding(elems, i);
        AfterSuffix(old(space), elems, i);
        var ending, tmpCnt := Encode(elems[i]);
        if ending != Finished {
          return ending, 0;
        }
        count := count + tmpCnt;
        assert written == (Ber.Encode(elems[i]) + EncodeAll(elems[i + 1..])) + old(written);
      }
      assert elems[0..] == elems;
      return Finished, count;
    }
  }

  /** Copies the used part of every chunk, from `first` on, into the output. */
  method Concatenate(first: MemChunk, ghost chunks: seq<MemChunk>, length: nat) returns (out: array<byte>)
    requires Linked(first, chunks) && AllValid(chunks) && length == |UsedInAll(chunks)|
    ensures fresh(out) && out[..] == UsedInAll(chunks)
  {
    hide Linked, AllValid, UsedInAll;
    out := new byte[length];
    var pos := 0;
    var chunk: MemChunk? := first;
    ghost var left, rest := chunks, UsedInAll(chunks);
    while chunk != null
      invariant Linked(chunk, left) && AllValid(left) && rest == UsedInAll(left)
      invariant forall c <- left :: c.top != out
      invariant 0 <= pos <= length && UsedInAll(chunks) == out[..pos] + rest
      decreases |left|
    {
      FirstOf(chunk, left);
      rest := UsedInAll(left[1..]);
      Associate(out[..pos], chunk.Used(), rest);
      var n := chunk.CopyUsed(out, pos);
      pos := pos + n;
      chunk := chunk.next;
      left := left[1..];
    }
    FirstOf(chunk, left);
    assert out[..pos] == out[..];
  }

  /** The exported function: the encoding as one array, or an error for a bad tag. */
  method EncodeBerTlv(t: Term) returns (end: Ending, out: array<byte>)
    requires |Ber.Encode(t)| <= MAX_INT
    ensures end == EndingOf(After(START, t))
    ensures end != LeftChunk ==> (end == Finished <==> TagsAreUints(t))
    ensures end == Finished ==> fresh(out) && out[..] == Ber.Encode(t)
  {
    hide After, Ber.Encode, Linked, AllValid, UsedInAll, TagsAreUints;
    if After(START, t) != Outside {
      OnlyTagsStop(START, t);
    }
    var w := new Writer(|Ber.Encode(t)|);
    var count: nat;
    end, count := w.Encode(t);
    if end != Finished {
      out := new byte[0];
      return;
    }
    assert w.written == Ber.Encode(t);
    out := Concatenate(w.curr, w.Chunks(), count);
  }
}
