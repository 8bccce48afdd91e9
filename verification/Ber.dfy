/** The BER tag-length-value format as the ASN.1 NIF reads and writes it.

    `Encode` is the three-part recursive description (identifier octets, length octets,
    contents) that the chunked writer of BerWriter is proved to produce.  `Decode` describes
    the recursive decoder branch by branch, with the byte index at which it stops or fails;
    the imperative decoder of BerReader is proved equal to it. */
module Ber {

  type byte = x: int | 0 <= x < 256

  const MAX_LONG_TAG := 16383  // largest number two tag octets can hold
  const MAX_INT := 0x7fff_ffff
  const LEN_GUARD := 0x100_0000  // 1 << (sizeof(len) - 1) * 8

  /** An Erlang term `{Tag, Value}`: Value is a binary or a list of such terms. */
  datatype Term =
    | Primitive(tag: nat, value: seq<byte>)
    | Constructed(tag: nat, elems: seq<Term>)

  /** `class * 65536 + number`, with a number the decoder can read back. */
  predicate GoodTag(tag: nat) {
    tag < 0x4_0000 && tag % 0x1_0000 <= MAX_LONG_TAG
  }

  predicate Good(t: Term) {
    GoodTag(t.tag) && (t.Constructed? ==> GoodAll(t.elems))
  }

  predicate GoodAll(ts: seq<Term>) {
    ts == [] || (Good(ts[0]) && GoodAll(ts[1..]))
  }

  // ---------------------------------------------------------------- encoding

  /** Base-128 digits of n, most significant first, each with the continuation bit set. */
  function ContinuationOctets(n: nat): seq<byte> {
    if n == 0 then [] else ContinuationOctets(n / 128) + [n % 128 + 128]
  }

  function TagOctets(constructed: bool, tag: nat): (r: seq<byte>)
    ensures |r| >= 1
  {
    var head := (if constructed then 32 else 0) + (tag / 0x1_0000 % 4) * 64;
    var number := tag % 0x1_0000;
    if number <= 30 then [head + number]
    else [head + 31] + (ContinuationOctets(number / 128) + [number % 128])
  }

  /** Base-256 digits of n, most significant first. */
  function BigEndian(n: nat): seq<byte> {
    if n == 0 then [] else BigEndian(n / 256) + [n % 256]
  }

  function LengthOctets(size: nat): (r: seq<byte>)
    ensures |r| >= 1
  {
    if size < 128 then [size]
    else [|BigEndian(size)| % 128 + 128] + BigEndian(size)
  }

  function Encode(t: Term): (r: seq<byte>)
    ensures |r| >= 2
  {
    match t
    case Primitive(tag, value) => TagOctets(false, tag) + (LengthOctets(|value|) + value)
    case Constructed(tag, elems) =>
      var body := EncodeAll(elems);
      TagOctets(true, tag) + (LengthOctets(|body|) + body)
  }

  function EncodeAll(ts: seq<Term>): (r: seq<byte>)
    ensures |r| >= 2 * |ts|
  {
    if ts == [] then [] else Encode(ts[0]) + EncodeAll(ts[1..])
  }

  function Contents(t: Term): seq<byte> {
    if t.Constructed? then EncodeAll(t.elems) else t.value
  }

  lemma EncodeIsParts(t: Term)
    ensures Encode(t) == TagOctets(t.Constructed?, t.tag) + (LengthOctets(|Contents(t)|) + Contents(t))
  {
  }

  // ---------------------------------------------------------------- decoding

  datatype Error = TagError | LenError | IndefLenError | ValueError

  /** A value with the index behind it, or an error with the index where it was noticed. */
  datatype Decoded<T> = Ok(value: T, next: nat) | Err(error: Error, pos: nat)

  datatype Header = Header(constructed: bool, tag: nat)

  datatype Value = Octets(octets: seq<byte>) | Elems(elems: seq<Term>)

  function MakeTerm(tag: nat, v: Value): Term {
    match v
    case Octets(s) => Primitive(tag, s)
    case Elems(ts) => Constructed(tag, ts)
  }

  /** The result stays inside the buffer: at least `least` bytes were consumed, and an error
      position is no later than the end of the buffer. */
  predicate Inside<T>(b: seq<byte>, i: nat, least: nat, r: Decoded<T>) {
    match r
    case Ok(_, next) => i + least <= next <= |b|
    case Err(_, pos) => i <= pos <= |b|
  }

  function DecodeTag(b: seq<byte>, i: nat): (r: Decoded<Header>)
    requires i + 2 <= |b|
    ensures Inside(b, i, 1, r)
  {
    var first: int := b[i];
    var tagClass := first / 64 * 0x1_0000;
    var form := first / 32 % 2 == 1;
    if first % 32 < 31 then Ok(Header(form, tagClass + first % 32), i + 1)
    else if i + 3 > |b| then Err(ValueError, i) else
    var high: int := b[i + 1];
    var low: int := b[i + 2];
    if high < 128 then Ok(Header(form, tagClass + high), i + 2)
    else if low >= 128 then Err(TagError, i + 2)
    else Ok(Header(form, tagClass + (high - 128) * 128 + low), i + 3)
  }

  /** The long-form loop: `count` octets follow index i; `len` is what was read before. */
  function DecodeLengthOctets(b: seq<byte>, i: nat, count: nat, len: nat): (r: Decoded<nat>)
    requires i + count < |b|
    ensures r.Ok? ==> r.next == i + count
    ensures r.Err? ==> i <= r.pos <= i + count
    decreases count
  {
    if count == 0 then Ok(len, i)
    else if len >= LEN_GUARD then Err(LenError, i + 1)
    else DecodeLengthOctets(b, i + 1, count - 1, len * 256 + b[i + 1])
  }

  /** A definite length whose first octet is at index i; `next` is the first content octet. */
  function DecodeLength(b: seq<byte>, i: nat): (r: Decoded<nat>)
    requires i < |b| && b[i] != 0x80
    ensures Inside(b, i, 1, r)
    ensures r.Ok? ==> r.next + r.value <= |b|
  {
    var field :=
      if b[i] < 128 then Ok(b[i], i)
      else if b[i] - 128 > |b| - (i + 1) then Err(LenError, i)
      else DecodeLengthOctets(b, i, b[i] - 128, 0);
    match field
    case Err(e, p) => Err(e, p)
    case Ok(len, last) =>
      if len > |b| - (last + 1) then Err(ValueError, last) else Ok(len, last + 1)
  }

  function Decode(b: seq<byte>, i: nat): (r: Decoded<Term>)
    requires i <= |b|
    ensures Inside(b, i, 2, r)
    decreases |b| - i, 1
  {
    if i + 2 > |b| then Err(ValueError, i) else
    match DecodeTag(b, i)
    case Err(e, p) => Err(e, p)
    case Ok(h, j) =>
      if j >= |b| then Err(TagError, j) else
      match DecodeValue(b, j, h.constructed)
      case Err(e, p) => Err(e, p)
      case Ok(v, n) => Ok(MakeTerm(h.tag, v), n)
  }

  function DecodeValue(b: seq<byte>, i: nat, constructed: bool): (r: Decoded<Value>)
    requires i < |b|
    ensures Inside(b, i, 1, r)
    ensures r.Ok? ==> r.value.Elems? == constructed
    decreases |b| - i, 3
  {
    if b[i] == 0x80 then
      if i + 2 >= |b| || !constructed then Err(IndefLenError, i + 1) else
      match DecodeIndefinite(b, i + 1)
      case Err(e, p) => Err(e, p)
      case Ok(ts, n) => Ok(Elems(ts), n)
    else
      match DecodeLength(b, i)
      case Err(e, p) => Err(e, p)
      case Ok(len, start) =>
        if constructed then
          match DecodeDefinite(b, start, start + len)
          case Err(e, p) => Err(e, p)
          case Ok(ts, n) => Ok(Elems(ts), n)
        else Ok(Octets(b[start..start + len]), start + len)
  }

  /** Elements up to the index `end`; the last one may run past it. */
  function DecodeDefinite(b: seq<byte>, i: nat, end: nat): (r: Decoded<seq<Term>>)
    requires i <= |b| && end <= |b|
    ensures Inside(b, i, 0, r)
    ensures r.Ok? ==> end <= r.next && r.next >= i + 2 * |r.value|
    decreases |b| - i, 2
  {
    if i >= end then Ok([], i) else
    match Decode(b, i)
    case Err(e, p) => Err(e, p)
    case Ok(t, n) =>
      match DecodeDefinite(b, n, end)
      case Err(e, p) => Err(e, p)
      case Ok(ts, m) => Ok([t] + ts, m)
  }

  /** Elements up to the two end-of-contents octets. */
  function DecodeIndefinite(b: seq<byte>, i: nat): (r: Decoded<seq<Term>>)
    requires i + 1 < |b|
    ensures Inside(b, i, 2, r)
    decreases |b| - i, 2
  {
    if b[i] == 0 && b[i + 1] == 0 then Ok([], i + 2) else
    match Decode(b, i)
    case Err(e, p) => Err(e, p)
    case Ok(t, n) =>
      if n + 1 >= |b| then Err(IndefLenError, n) else
      match DecodeIndefinite(b, n)
      case Err(e, p) => Err(e, p)
      case Ok(ts, m) => Ok([t] + ts, m)
  }
}
