/** The memory arithmetic of the encoder: how much room each step leaves in the newest chunk,
    and for which terms its one unchecked write, the length octet of an empty list, stays in
    the chunk. */
module BerRoom {
  import opened Ber
  import opened BerLengths

  const FIRST_CHUNK := 40
  const MAX_UINT := 0xffff_ffff

  /** The newest chunk: its length and the index of the next octet to write, -1 when it is
      full.  `AtLeast(room)` stands for every chunk with that much room or more. */
  datatype Space = Chunk(length: nat, room: int) | AtLeast(room: int)

  datatype Progress = Going(space: Space) | BadTag | Outside

  datatype Ending = Finished | WrongTag | LeftChunk

  function EndingOf(p: Progress): Ending {
    match p
    case Going(_) => Finished
    case BadTag => WrongTag
    case Outside => LeftChunk
  }

  /** The first chunk of a message. */
  const START := Chunk(FIRST_CHUNK, FIRST_CHUNK - 1)

  /** A later newest chunk is no shorter. */
  predicate Follows(s: Space, r: Space) {
    r.Chunk? == s.Chunk? && (s.Chunk? ==> s.length <= r.length)
  }

  function NewLength(length: nat, needed: nat): nat {
    if length > needed then length * 2 else length + needed
  }

  function Reserve(s: Space, needed: nat): (r: Space)
    ensures Follows(s, r)
  {
    if s.room >= needed then s
    else match s
         case Chunk(length, _) => Chunk(NewLength(length, needed), NewLength(length, needed) - 1)
         case AtLeast(_) => AtLeast(needed)
  }

  function Take(s: Space, count: nat): (r: Space)
    ensures Follows(s, r)
  {
    s.(room := s.room - count)
  }

  function AfterLength(s: Space, size: nat): (r: Space)
    ensures Follows(s, r)
  {
    Take(Reserve(s, if size < 128 then 1 else 8), |LengthOctets(size)|)
  }

  /** Where the encoder is after a term: in some chunk, or stopped by a tag, or outside the
      chunk with an unchecked write. */
  function After(s: Space, t: Term): (r: Progress)
    ensures r.Going? ==> Follows(s, r.space)
    decreases t, 2
  {
    var p := AfterContents(s, t);
    if !p.Going? then p
    else if t.tag > MAX_UINT then BadTag
    else Going(Take(Reserve(p.space, 3), |TagOctets(t.Constructed?, t.tag)|))
  }

  function AfterContents(s: Space, t: Term): (r: Progress)
    ensures r.Going? ==> Follows(s, r.space)
    decreases t, 1
  {
    match t
    case Primitive(_, value) => Going(AfterLength(Take(Reserve(s, |value|), |value|), |value|))
    case Constructed(_, elems) =>
      if elems == [] then (if s.room < 0 then Outside else Going(Take(s, 1))) else
      var p := AfterElems(s, elems);
      var size := |EncodeAll(elems)|;
      if p.Going? then Going(AfterLength(Reserve(p.space, size), size)) else p
  }

  /** The last element is written first. */
  function AfterElems(s: Space, ts: seq<Term>): (r: Progress)
    ensures r.Going? ==> Follows(s, r.space)
    decreases ts, 0
  {
    if ts == [] then Going(s) else
    var p := AfterElems(s, ts[1..]);
    if p.Going? then After(p.space, ts[0]) else p
  }

  /** What stops the encoder in the last elements stops it in the whole list. */
  lemma {:induction false} AfterSuffix(s: Space, ts: seq<Term>, i: nat)
    requires i <= |ts|
    ensures !AfterElems(s, ts[i..]).Going? ==> AfterElems(s, ts) == AfterElems(s, ts[i..])
    ensures i < |ts| && AfterElems(s, ts[i + 1..]).Going? ==>
      AfterElems(s, ts[i..]) == After(AfterElems(s, ts[i + 1..]).space, ts[i])
    decreases i
  {
    if i < |ts| {
      assert ts[i..][1..] == ts[i + 1..];
    }
    if i > 0 {
      AfterSuffix(s, ts, i - 1);
      assert ts[i - 1..][1..] == ts[i..];
    } else {
      assert ts[0..] == ts;
    }
  }

  /** Every tag passes `enif_get_uint`. */
  predicate TagsAreUints(t: Term) {
    t.tag < 0x1_0000_0000 && (t.Constructed? ==> AllTagsAreUints(t.elems))
  }

  predicate AllTagsAreUints(ts: seq<Term>) {
    ts == [] || (TagsAreUints(ts[0]) && AllTagsAreUints(ts[1..]))
  }

  /** Unless it leaves its chunk, the encoder is stopped by bad tags alone. */
  lemma {:induction false} OnlyTagsStop(s: Space, t: Term)
    requires After(s, t) != Outside
    ensures After(s, t).Going? <==> TagsAreUints(t)
    decreases t, 1
  {
    if t.Constructed? && t.elems != [] {
      OnlyTagsStopAll(s, t.elems);
    }
  }

  lemma {:induction false} OnlyTagsStopAll(s: Space, ts: seq<Term>)
    requires AfterElems(s, ts) != Outside
    ensures AfterElems(s, ts).Going? <==> AllTagsAreUints(ts)
    decreases ts, 0
  {
    if ts != [] {
      OnlyTagsStopAll(s, ts[1..]);
      if AfterElems(s, ts[1..]).Going? {
        OnlyTagsStop(AfterElems(s, ts[1..]).space, ts[0]);
      }
    }
  }

  /** The tag of a term is looked at last: whether its contents leave the chunk, or a tag in
      them stops the encoder, does not depend on it. */
  lemma ContentsComeFirst(s: Space, t: Term, tag: nat)
    ensures !AfterContents(s, t).Going? ==> After(s, t) == AfterContents(s, t)
    ensures After(s, t.(tag := tag)) == Outside <==> After(s, t) == Outside
    ensures AfterContents(s, t).Going? && t.tag >= 0x1_0000_0000 ==> After(s, t) == BadTag
  {
  }

  // ------------------------------------------------------- all chunks at once

  /** A chunk the encoder can be in: at most full, and no smaller than the first one. */
  predicate Possible(s: Space) {
    s.Chunk? && FIRST_CHUNK <= s.length && -1 <= s.room < s.length
  }

  /** p is at least as good as what q says of every chunk. */
  predicate Covered(p: Progress, q: Progress) {
    match q
    case Going(low) => p.Going? && p.space.Chunk? && p.space.length > 0 && low.AtLeast? && low.room <= p.space.room
    case BadTag => p == BadTag
    case Outside => true
  }

  lemma ReserveCovered(s: Space, low: Space, needed: nat)
    requires Covered(Going(s), Going(low))
    ensures Covered(Going(Reserve(s, needed)), Going(Reserve(low, needed)))
  {
  }

  lemma LengthCovered(s: Space, low: Space, size: nat)
    requires Covered(Going(s), Going(low))
    ensures Covered(Going(AfterLength(s, size)), Going(AfterLength(low, size)))
  {
    ReserveCovered(s, low, if size < 128 then 1 else 8);
  }

  /** The walk with `AtLeast` bounds the walk with every chunk. */
  lemma {:induction false} WalkCovers(s: Space, low: Space, t: Term)
    requires Covered(Going(s), Going(low))
    ensures Covered(After(s, t), After(low, t))
    decreases t, 2
  {
    ContentsCovered(s, low, t);
    hide LengthOctets, TagOctets, AfterContents;
    if AfterContents(low, t).Going? {
      ReserveCovered(AfterContents(s, t).space, AfterContents(low, t).space, 3);
    }
  }

  lemma {:induction false} ContentsCovered(s: Space, low: Space, t: Term)
    requires Covered(Going(s), Going(low))
    ensures Covered(AfterContents(s, t), AfterContents(low, t))
    decreases t, 1
  {
    hide Reserve, AfterLength;
    match t
    case Primitive(_, value) =>
      ReserveCovered(s, low, |value|);
      LengthCovered(Take(Reserve(s, |value|), |value|), Take(Reserve(low, |value|), |value|), |value|);
    case Constructed(_, elems) =>
      if elems != [] {
        var size := |EncodeAll(elems)|;
        ElemsCovered(s, low, elems);
        if AfterElems(low, elems).Going? {
          var s', low' := AfterElems(s, elems).space, AfterElems(low, elems).space;
          ReserveCovered(s', low', size);
          LengthCovered(Reserve(s', size), Reserve(low', size), size);
        }
      }
  }

  lemma {:induction false} ElemsCovered(s: Space, low: Space, ts: seq<Term>)
    requires Covered(Going(s), Going(low))
    ensures Covered(AfterElems(s, ts), AfterElems(low, ts))
    decreases ts, 0
  {
    if ts != [] {
      ElemsCovered(s, low, ts[1..]);
      if AfterElems(low, ts[1..]).Going? {
        WalkCovers(AfterElems(s, ts[1..]).space, AfterElems(low, ts[1..]).space, ts[0]);
      }
    }
  }

  /** Where a walk with `AtLeast` goes on, some chunk goes on with room r; where it stops,
      some chunk stops in the same way. */
  function ConcreteEnd(p: Progress, length: nat, r: int): Progress {
    if p.Going? then Going(Chunk(length, r)) else p
  }

  /** The end r can be reached from the bound p. */
  predicate CanReach(p: Progress, r: int) {
    p.Going? ==> p.space.room <= r
  }

  /** Any room from the bound on is what some chunk ends with, however long it is; and a write
      outside is where some chunk ends, too. */
  lemma {:induction false} WalkReached(low: int, t: Term, r: int) returns (room: int)
    requires CanReach(After(AtLeast(low), t), r)
    ensures low <= room && (After(AtLeast(low), t).Going? ==> r <= room)
    ensures After(AtLeast(low), t) == Outside ==> room <= |Encode(t)|
    ensures After(AtLeast(low), t).Going? ==> room == r + |Encode(t)|
    ensures forall length: nat :: length > room ==>
      After(Chunk(length, room), t) == ConcreteEnd(After(AtLeast(low), t), length, r)
    decreases t, 2
  {
    var p := AfterContents(AtLeast(low), t);
    var mid :=
      if !p.Going? then 0
      else if t.tag > MAX_UINT then p.space.room
      else r + |TagOctets(t.Constructed?, t.tag)|;
    hide LengthOctets, TagOctets, AfterContents;
    room := ContentsReached(low, t, mid);
  }

  lemma {:induction false} ContentsReached(low: int, t: Term, r: int) returns (room: int)
    requires CanReach(AfterContents(AtLeast(low), t), r)
    ensures low <= room && (AfterContents(AtLeast(low), t).Going? ==> r <= room)
    ensures AfterContents(AtLeast(low), t) == Outside ==> room + |TagOctets(t.Constructed?, t.tag)| <= |Encode(t)|
    ensures AfterContents(AtLeast(low), t).Going? ==> room + |TagOctets(t.Constructed?, t.tag)| == r + |Encode(t)|
    ensures forall length: nat :: length > room ==>
      AfterContents(Chunk(length, room), t) == ConcreteEnd(AfterContents(AtLeast(low), t), length, r)
    decreases t, 1
  {
    hide LengthOctets;
    match t
    case Primitive(_, value) =>
      room := r + |LengthOctets(|value|)| + |value|;
    case Constructed(_, elems) =>
      if elems == [] {
        room := if low < 0 then low else r + 1;
        LengthSize(0);
      } else {
        var size := |EncodeAll(elems)|;
        room := ElemsReached(low, elems, r + |LengthOctets(size)|);
      }
  }

  lemma {:induction false} ElemsReached(low: int, ts: seq<Term>, r: int) returns (room: int)
    requires CanReach(AfterElems(AtLeast(low), ts), r)
    ensures low <= room && (AfterElems(AtLeast(low), ts).Going? ==> r <= room)
    ensures AfterElems(AtLeast(low), ts) == Outside ==> room <= |EncodeAll(ts)|
    ensures AfterElems(AtLeast(low), ts).Going? ==> room == r + |EncodeAll(ts)|
    ensures forall length: nat :: length > room ==>
      AfterElems(Chunk(length, room), ts) == ConcreteEnd(AfterElems(AtLeast(low), ts), length, r)
    decreases ts, 0
  {
    if ts == [] {
      room := r;
    } else {
      var p := AfterElems(AtLeast(low), ts[1..]);
      var mid := r;
      if p.Going? {
        mid := WalkReached(p.space.room, ts[0], r);
      }
      room := ElemsReached(low, ts[1..], mid);
    }
  }

  /** The one walk decides for all chunks: a term is written inside its chunks from every chunk
      with at least that much room if and only if the walk with `AtLeast` says so. */
  lemma InsideIffWalk(low: int, t: Term)
    requires low >= -1
    ensures (forall s :: Possible(s) && s.room >= low ==> After(s, t) != Outside) <==> After(AtLeast(low), t) != Outside
  {
    if After(AtLeast(low), t) == Outside {
      var room := WalkReached(low, t, 0);
      var s := Chunk(room + FIRST_CHUNK + 1, room);
      assert Possible(s) && After(s, t) == Outside;
    } else {
      forall s | Possible(s) && s.room >= low
        ensures After(s, t) != Outside
      {
        WalkCovers(s, AtLeast(low), t);
      }
    }
  }

  // ------------------------------------------------------------- shape of a term

  /** The first octet the encoder writes for t is the length octet of an empty list. */
  predicate StartsUnchecked(t: Term)
    decreases t
  {
    t.Constructed? && (t.elems == [] || StartsUnchecked(t.elems[|t.elems| - 1]))
  }

  /** Four identifier octets behind a length field that leaves room for just these. */
  predicate CanFillChunk(t: Term) {
    && t.tag % 0x1_0000 > MAX_LONG_TAG
    && match t
       case Primitive(_, value) => |value| < 128 || |value| >= 0x100_0000
       case Constructed(_, elems) => |EncodeAll(elems)| <= 4
  }

  /** No term whose first octet is unchecked is written right after one that can fill up its
      chunk; the later element of a list is written first. */
  predicate ListsHaveRoom(t: Term)
    decreases t, 1
  {
    t.Constructed? ==> AllListsHaveRoom(t.elems)
  }

  predicate AllListsHaveRoom(ts: seq<Term>)
    decreases ts, 0
  {
    ts == [] ||
    (ListsHaveRoom(ts[0]) && AllListsHaveRoom(ts[1..])
     && (|ts| > 1 ==> !(StartsUnchecked(ts[0]) && CanFillChunk(ts[1]))))
  }

  /** The room a term asks for, and the room it leaves. */
  function RoomBefore(t: Term): int {
    if StartsUnchecked(t) then 0 else -1
  }

  function RoomBehind(t: Term): int {
    if CanFillChunk(t) then -1 else 0
  }

  lemma TagSize(constructed: bool, tag: nat)
    ensures |TagOctets(constructed, tag)| <= if tag % 0x1_0000 > MAX_LONG_TAG then 4 else 3
  {
    var n := tag % 0x1_0000 / 128;
    assert ContinuationOctets(n / 128 / 128 / 128) == [];
    assert |ContinuationOctets(n / 128 / 128)| <= 1;
    assert |ContinuationOctets(n / 128)| <= 2;
  }

  lemma LengthSize(size: nat)
    requires size < TWO_32
    ensures |LengthOctets(size)| <= if size < 128 then 1 else if size < 0x100_0000 then 4 else 5
  {
    FourDigits(size);
    if size < 0x100_0000 {
      var n := size / 256;
      assert |BigEndian(n / 256)| <= 1 by { assert BigEndian(n / 256 / 256) == []; }
      assert |BigEndian(n)| <= 2;
    }
  }

  /** Terms of that shape are written inside their chunks, whatever the chunks. */
  lemma {:induction false} ShapeSuffices(t: Term, low: int)
    requires ListsHaveRoom(t) && |Encode(t)| <= MAX_INT && low >= RoomBefore(t)
    ensures After(AtLeast(low), t) != Outside
    ensures After(AtLeast(low), t).Going? ==> After(AtLeast(low), t).space.room >= RoomBehind(t)
    decreases t, 2
  {
    ShapeOfContents(t, low);
    TagSize(t.Constructed?, t.tag);
    hide LengthOctets, TagOctets, AfterContents, CanFillChunk;
  }

  lemma {:induction false} ShapeOfContents(t: Term, low: int)
    requires ListsHaveRoom(t) && |Encode(t)| <= MAX_INT && low >= RoomBefore(t)
    ensures AfterContents(AtLeast(low), t) != Outside
    ensures t.tag % 0x1_0000 > MAX_LONG_TAG && AfterContents(AtLeast(low), t).Going? && !CanFillChunk(t) ==>
      AfterContents(AtLeast(low), t).space.room >= 4
    decreases t, 1
  {
    hide LengthOctets, TagOctets;
    match t
    case Primitive(_, value) =>
      LengthSize(|value|);
    case Constructed(_, elems) =>
      if elems != [] {
        ShapeOfElems(elems, low);
        LengthSize(|EncodeAll(elems)|);
      }
  }

  lemma {:induction false} ShapeOfElems(ts: seq<Term>, low: int)
    requires ts != [] && AllListsHaveRoom(ts) && |EncodeAll(ts)| <= MAX_INT && low >= RoomBefore(ts[|ts| - 1])
    ensures AfterElems(AtLeast(low), ts) != Outside
    ensures AfterElems(AtLeast(low), ts).Going? ==> AfterElems(AtLeast(low), ts).space.room >= RoomBehind(ts[0])
    decreases ts, 0
  {
    hide Encode, After, CanFillChunk, StartsUnchecked;
    if |ts| == 1 {
      assert AfterElems(AtLeast(low), ts[1..]) == Going(AtLeast(low));
      ShapeSuffices(ts[0], low);
    } else {
      ShapeOfElems(ts[1..], low);
      var p := AfterElems(AtLeast(low), ts[1..]);
      if p.Going? {
        ShapeSuffices(ts[0], p.space.room);
      }
    }
  }

  /** The chunks of a message start with room, so the shape is enough for it. */
  lemma ShapeSufficesFromStart(t: Term)
    requires ListsHaveRoom(t) && |Encode(t)| <= MAX_INT
    ensures After(START, t) != Outside
  {
    ShapeSuffices(t, 0);
    WalkCovers(START, AtLeast(0), t);
  }

  /** A few octets leave little room if they find little. */
  lemma {:induction false} FewOctets(t: Term, low: int)
    requires |Encode(t)| <= 4 && TagsAreUints(t) && 0 <= low <= 4
    ensures After(AtLeast(low), t).Going? && 0 <= After(AtLeast(low), t).space.room <= 4
    decreases t, 1
  {
    if t.Constructed? && t.elems != [] {
      FewOctetsInAll(t.elems, low);
    }
  }

  lemma {:induction false} FewOctetsInAll(ts: seq<Term>, low: int)
    requires |EncodeAll(ts)| <= 4 && AllTagsAreUints(ts) && 0 <= low <= 4
    ensures AfterElems(AtLeast(low), ts).Going? && 0 <= AfterElems(AtLeast(low), ts).space.room <= 4
    decreases ts, 0
  {
    hide Encode, After;
    if ts != [] {
      FewOctetsInAll(ts[1..], low);
      FewOctets(ts[0], AfterElems(AtLeast(low), ts[1..]).space.room);
    }
  }

  lemma LongTagSize(constructed: bool, tag: nat)
    requires tag % 0x1_0000 > MAX_LONG_TAG
    ensures |TagOctets(constructed, tag)| == 4
  {
    var n := tag % 0x1_0000 / 128;
    assert ContinuationOctets(n / 128 / 128) == [];
    assert |ContinuationOctets(n / 128)| == 1;
  }

  lemma LongLengthSize(size: nat)
    requires 0x100_0000 <= size < TWO_32
    ensures |LengthOctets(size)| == 5
  {
    FourDigits(size);
    assert |BigEndian(size / 256 / 256 / 256)| >= 1;
    assert |BigEndian(size / 256 / 256)| >= 2;
    assert |BigEndian(size / 256)| >= 3;
  }

  /** A term that can fill its chunk does so where the room is just enough. */
  lemma FillsChunk(t: Term)
    requires CanFillChunk(t) && TagsAreUints(t) && |Encode(t)| <= MAX_INT
    ensures After(AtLeast(0), t) == Going(AtLeast(-1))
  {
    LongTagSize(t.Constructed?, t.tag);
    match t
    case Primitive(_, value) =>
      if |value| >= 128 {
        LongLengthSize(|value|);
      }
    case Constructed(_, elems) =>
      if elems != [] {
        FewOctetsInAll(elems, 0);
      }
  }

  /** In a full chunk the unchecked octet falls outside. */
  lemma {:induction false} UncheckedInFullChunk(t: Term, low: int)
    requires StartsUnchecked(t) && low < 0
    ensures After(AtLeast(low), t) == Outside
    decreases t
  {
    if t.elems != [] {
      var n := |t.elems| - 1;
      UncheckedInFullChunk(t.elems[n], low);
      AfterSuffix(AtLeast(low), t.elems, n);
      assert t.elems[n + 1..] == [];
    }
  }

  /** Of two neighbours, the later written first: some chunk makes the encoder write outside
      if and only if the one starts unchecked and the other can fill the chunk. */
  lemma NeighboursExactly(t: Term, u: Term)
    requires ListsHaveRoom(t) && ListsHaveRoom(u) && TagsAreUints(u) && |EncodeAll([t, u])| <= MAX_INT
    ensures (exists s :: Possible(s) && s.room >= 0 && AfterElems(s, [t, u]) == Outside)
       <==> StartsUnchecked(t) && CanFillChunk(u)
  {
    var ts := [t, u];
    var low := AtLeast(0);
    assert ts[1..] == [u] && [u][1..] == [];
    assert EncodeAll([u]) == Encode(u) + EncodeAll([]);
    assert AfterElems(low, [u]) == After(low, u);
    if StartsUnchecked(t) && CanFillChunk(u) {
      FillsChunk(u);
      UncheckedInFullChunk(t, -1);
      var room := ElemsReached(0, ts, 0);
      var s := Chunk(room + FIRST_CHUNK + 1, room);
      assert Possible(s) && AfterElems(s, ts) == Outside;
    } else {
      assert AllListsHaveRoom([]) && AllListsHaveRoom([u]);
      assert AllListsHaveRoom(ts);
      ShapeOfElems(ts, 0);
      forall s | Possible(s) && s.room >= 0
        ensures AfterElems(s, ts) != Outside
      {
        ElemsCovered(s, low, ts);
      }
    }
  }

  lemma {:induction false} GoodTagsHaveRoom(t: Term)
    requires Good(t)
    ensures ListsHaveRoom(t) && TagsAreUints(t) && !CanFillChunk(t)
    decreases t, 1
  {
    if t.Constructed? {
      GoodTagsHaveRoomAll(t.elems);
    }
  }

  lemma {:induction false} GoodTagsHaveRoomAll(ts: seq<Term>)
    requires GoodAll(ts)
    ensures AllListsHaveRoom(ts) && AllTagsAreUints(ts)
    decreases ts, 0
  {
    if ts != [] {
      GoodTagsHaveRoom(ts[0]);
      GoodTagsHaveRoomAll(ts[1..]);
      assert |ts| > 1 ==> Good(ts[1..][0]);
    }
  }

  // ------------------------------------------------------------ chunks of a message

  function Filler(n: nat): Term {
    Primitive(4, seq(n, _ => 0))
  }

  lemma AfterFiller(s: Space, n: nat)
    requires n < 128
    ensures After(s, Filler(n)) == Going(Take(Reserve(Take(Reserve(Take(Reserve(s, n), n), 1), 1), 3), 1))
  {
    hide Reserve, Take;
    assert |TagOctets(false, 4)| == 1 && |LengthOctets(n)| == 1;
  }

  /** A filler that fits into the chunk. */
  lemma FillerFits(s: Space, n: nat)
    requires s.Chunk? && n < 128 && s.room >= n + 4
    ensures After(s, Filler(n)) == Going(Take(s, n + 2))
  {
    AfterFiller(s, n);
    hide After;
  }

  /** A filler one octet too long for the chunk, or up to two octets too short. */
  lemma FillerGrows(s: Space, n: nat)
    requires s.Chunk? && 0 <= s.room < n < 128 && n < s.length && FIRST_CHUNK <= s.length
    ensures After(s, Filler(n)) == Going(Chunk(2 * s.length, 2 * s.length - 3 - n))
  {
    AfterFiller(s, n);
    hide After;
  }

  /** A filler that leaves room for its length octet but not for its tag. */
  lemma FillerSpills(s: Space, n: nat)
    requires s.Chunk? && s.room == n + 1 && n < 128 && s.length > 3
    ensures After(s, Filler(n)) == Going(Chunk(2 * s.length, 2 * s.length - 2))
  {
    AfterFiller(s, n);
    hide After;
  }

  /** A filler that fills the chunk up. */
  lemma FillerFills(s: Space, n: nat)
    requires s.Chunk? && s.room == n && n < 128 && s.length > 3
    ensures After(s, Filler(n)) == Going(Chunk(2 * s.length, 2 * s.length - 3))
  {
    AfterFiller(s, n);
    hide After;
  }

  /** A filler longer than the first chunk. */
  lemma FillerBeyond(n: nat)
    requires FIRST_CHUNK <= n < TWO_32
    ensures var p := After(START, Filler(n)); p.Going? && p.space.length == FIRST_CHUNK + n && 30 <= p.space.room <= 37
  {
    LengthSize(n);
    assert |TagOctets(false, 4)| == 1 && |LengthOctets(n)| >= 1;
  }

  lemma AfterTwo(s: Space, t: Term, u: Term)
    ensures AfterElems(s, [u]) == After(s, u)
    ensures After(s, u).Going? ==> AfterElems(s, [t, u]) == After(After(s, u).space, t)
  {
    assert [u][1..] == [] && [t, u][1..] == [u];
  }

  /** Any room up to the largest message occurs in the chunks of some message. */
  lemma RoomOccurs(room: int) returns (us: seq<Term>)
    requires -1 <= room <= MAX_INT
    ensures var p := AfterElems(START, us); p.Going? && p.space.room == room < p.space.length
  {
    if room <= 1 {
      var tag := if room == -1 then 16384 else if room == 0 then 128 else 31;
      var u := Primitive(tag, seq(35, _ => 0));
      ShortFiller(tag, 35);
      us := [u];
      AfterTwo(START, u, u);
    } else if room <= 35 {
      us := [Filler(37 - room)];
      FillerFits(START, 37 - room);
      AfterTwo(START, us[0], us[0]);
    } else if room <= 117 {
      var u, v, w := Filler(155 - room), Filler(78), Filler(38);
      FillerSpills(START, 38);
      FillerFills(Chunk(80, 78), 78);
      FillerFits(Chunk(160, 157), 155 - room);
      us := [u, v, w];
      AfterTwo(START, v, w);
      assert us[1..] == [v, w];
    } else {
      var n, m := (room - 38) / 2, if room % 2 == 0 then 39 else 38;
      var u, v := Filler(m), Filler(n);
      FillerBeyond(n);
      FillerGrows(After(START, v).space, m);
      us := [u, v];
      AfterTwo(START, u, v);
    }
  }

  lemma ShortFiller(tag: nat, n: nat)
    requires n == 35 && tag in {31, 128, 16384}
    ensures After(START, Primitive(tag, seq(n, _ => 0)))
         == Going(Chunk(FIRST_CHUNK, if tag == 31 then 1 else if tag == 128 then 0 else -1))
  {
    LengthSize(n);
    assert |LengthOctets(n)| == 1;
    assert ContinuationOctets(1) == [129] && ContinuationOctets(128) == [129, 128];
    assert |TagOctets(false, tag)| == if tag == 31 then 2 else if tag == 128 then 3 else 4;
  }

  lemma AfterCons(s: Space, t: Term, us: seq<Term>)
    ensures var p := AfterElems(s, us); AfterElems(s, [t] + us) == if p.Going? then After(p.space, t) else p
    ensures AfterElems(s, [t] + us) == Outside <==> After(s, Constructed(16, [t] + us)) == Outside
  {
    assert ([t] + us)[1..] == us;
  }

  /** The elements us of a list are written inside their chunks and leave `low` octets of room
      or more, and then t, in front of them, makes the encoder write outside. */
  predicate FailsBehind(t: Term, us: seq<Term>, low: int) {
    && AfterElems(START, us).Going? && AfterElems(START, us).space.room >= low
    && After(START, Constructed(16, [t] + us)) == Outside
  }

  /** The walk decides for real messages, too: t fails behind some elements of a list if and
      only if the walk says so. */
  lemma OutsideInSomeMessage(t: Term, low: int)
    requires -1 <= low <= 0 && |Encode(t)| <= MAX_INT
    ensures (exists us :: FailsBehind(t, us, low)) <==> After(AtLeast(low), t) == Outside
  {
    hide After, AfterElems;
    if After(AtLeast(low), t) == Outside {
      var room := WalkReached(low, t, 0);
      var us := RoomOccurs(room);
      AfterCons(START, t, us);
      assert FailsBehind(t, us, low);
    } else {
      forall us | AfterElems(START, us).Going? && AfterElems(START, us).space.room >= low
        ensures !FailsBehind(t, us, low)
      {
        AfterCons(START, t, us);
        WalkCovers(AfterElems(START, us).space, AtLeast(low), t);
      }
    }
  }

  // --------------------------------------------------------------- one failing term

  /** 35 contents octets, a length octet and four identifier octets fill the first chunk of 40;
      the length octet of the empty list in front of them falls outside. */
  lemma OutsideExample(value: seq<byte>)
    requires |value| == 35
    ensures After(START, Constructed(16, [Constructed(16, []), Primitive(16384, value)])) == Outside
  {
    var empty, last := Constructed(16, []), Primitive(16384, value);
    var ts := [empty, last];
    assert ts[1..] == [last] && [last][1..] == [];
    assert ContinuationOctets(1) == [129] && ContinuationOctets(128) == [129, 128];
    assert |TagOctets(false, 16384)| == 4;
    assert After(START, last) == Going(Chunk(40, -1));
    assert AfterElems(START, [last]) == Going(Chunk(40, -1));
    assert AfterElems(START, ts) == After(Chunk(40, -1), empty) == Outside;
  }
}
