/** Length octets: what the long-form loop accepts, and that the encoder's choice is the
    shortest field that is read back as the same size. */
module BerLengths {
  import opened Ber

  const TWO_32 := 0x1_0000_0000

  /** The number a digit string denotes, leading zeros allowed. */
  function BigEndianValue(s: seq<byte>): nat {
    if s == [] then 0 else BigEndianValue(s[..|s| - 1]) * 256 + s[|s| - 1]
  }

  /** The same number read from the left, after `len`. */
  function Accumulate(len: nat, s: seq<byte>): nat
    decreases s
  {
    if s == [] then len else Accumulate(len * 256 + s[0], s[1..])
  }

  lemma {:induction false} AccumulateSnoc(len: nat, s: seq<byte>, d: byte)
    ensures Accumulate(len, s + [d]) == Accumulate(len, s) * 256 + d
    decreases s
  {
    if s == [] {
      assert Accumulate(len * 256 + d, []) == len * 256 + d;
      assert [d][1..] == [];
    } else {
      assert (s + [d])[1..] == s[1..] + [d];
      AccumulateSnoc(len * 256 + s[0], s[1..], d);
    }
  }

  lemma {:induction false} AccumulateIsValue(s: seq<byte>)
    ensures Accumulate(0, s) == BigEndianValue(s)
  {
    if s != [] {
      AccumulateIsValue(s[..|s| - 1]);
      AccumulateSnoc(0, s[..|s| - 1], s[|s| - 1]);
      assert s[..|s| - 1] + [s[|s| - 1]] == s;
    }
  }

  lemma {:induction false} AccumulateGrows(len: nat, s: seq<byte>)
    ensures len <= Accumulate(len, s)
    decreases s
  {
    if s != [] {
      AccumulateGrows(len * 256 + s[0], s[1..]);
    }
  }

  /** The loop succeeds exactly when the number fits 32 bits, and then yields it: its guard
      `len < 1 << 24` rejects no representable number and lets none overflow. */
  lemma {:induction false} LengthLoop(b: seq<byte>, i: nat, count: nat, len: nat)
    requires i + count < |b| && len < TWO_32
    ensures var n := Accumulate(len, b[i + 1..i + 1 + count]);
            var r := DecodeLengthOctets(b, i, count, len);
            if n < TWO_32 then r == Ok(n, i + count) else r.Err? && r.error == LenError
    decreases count
  {
    if count > 0 {
      var s := b[i + 1..i + 1 + count];
      assert s[1..] == b[i + 2..i + 1 + count];
      if len >= LEN_GUARD {
        AccumulateGrows(len * 256 + s[0], s[1..]);
      } else {
        LengthLoop(b, i + 1, count - 1, len * 256 + s[0]);
      }
    }
  }

  lemma {:induction false} BigEndianRoundTrip(n: nat)
    ensures BigEndianValue(BigEndian(n)) == n
  {
    if n > 0 {
      BigEndianRoundTrip(n / 256);
      assert BigEndian(n)[..|BigEndian(n)| - 1] == BigEndian(n / 256);
    }
  }

  /** No digit string for n is shorter than `BigEndian(n)`. */
  lemma {:induction false} BigEndianShortest(s: seq<byte>)
    ensures |BigEndian(BigEndianValue(s))| <= |s|
  {
    if s != [] {
      BigEndianShortest(s[..|s| - 1]);
    }
  }

  lemma FourDigits(n: nat)
    requires n < TWO_32
    ensures |BigEndian(n)| <= 4
    ensures n > 0 ==> |BigEndian(n)| > 0
  {
    var n1 := n / 256;
    var n2 := n1 / 256;
    var n3 := n2 / 256;
    assert |BigEndian(n3)| <= 1 by { assert BigEndian(n3 / 256) == []; }
    assert |BigEndian(n2)| <= 2;
    assert |BigEndian(n1)| <= 3;
  }

  // ------------------------------------------------------------- whole length fields

  /** The size a complete definite length field denotes (ITU-T X.690, section 8.1.3). */
  ghost predicate Denotes(field: seq<byte>, size: nat) {
    && field != []
    && (if field[0] < 128 then |field| == 1 && size == field[0]
        else field[0] > 128 && |field| == 1 + (field[0] - 128) && size == BigEndianValue(field[1..]))
  }

  lemma LongForm(size: nat)
    requires 128 <= size && |BigEndian(size)| < 128
    ensures LengthOctets(size)[0] == 128 + |BigEndian(size)|
    ensures LengthOctets(size)[1..] == BigEndian(size)
  {
  }

  lemma LengthOctetsDenote(size: nat)
    requires size < TWO_32
    ensures Denotes(LengthOctets(size), size)
    ensures |LengthOctets(size)| <= 5
  {
    FourDigits(size);
    if size >= 128 {
      BigEndianRoundTrip(size);
      LongForm(size);
    }
  }

  /** The encoder emits the shortest field for a size. */
  lemma LengthOctetsShortest(field: seq<byte>, size: nat)
    requires size < TWO_32 && Denotes(field, size)
    ensures |LengthOctets(size)| <= |field|
  {
    FourDigits(size);
    if field[0] >= 128 {
      BigEndianShortest(field[1..]);
    }
  }

  /** In any buffer an `int` can index, a complete length field is accepted exactly when the
      contents it announces are present. */
  lemma LengthAccepted(b: seq<byte>, i: nat, k: nat, size: nat)
    requires |b| <= MAX_INT
    requires i + k <= |b| && Denotes(b[i..i + k], size)
    ensures b[i] != 0x80
    ensures DecodeLength(b, i).Ok? <==> i + k + size <= |b|
    ensures i + k + size <= |b| ==> DecodeLength(b, i) == Ok(size, i + k)
  {
    var field := b[i..i + k];
    assert field[0] == b[i];
    if field[0] >= 128 {
      assert field[1..] == b[i + 1..i + k];
      LengthLoop(b, i, k - 1, 0);
      AccumulateIsValue(field[1..]);
    }
  }

  lemma LengthRoundTrip(b: seq<byte>, i: nat, size: nat)
    requires |b| <= MAX_INT
    requires i + |LengthOctets(size)| + size <= |b|
    requires b[i..i + |LengthOctets(size)|] == LengthOctets(size)
    ensures b[i] != 0x80
    ensures DecodeLength(b, i) == Ok(size, i + |LengthOctets(size)|)
  {
    LengthOctetsDenote(size);
    LengthAccepted(b, i, |LengthOctets(size)|, size);
  }
}
