/** Octets as lists of bits, most significant first, and what shifting and or-ing octets does
    to those lists. */
module PerBits {

  type octet = bv8

  function Octet(b: octet): (r: seq<bool>)
    ensures |r| == 8
  {
    [b & 0x80 != 0, b & 0x40 != 0, b & 0x20 != 0, b & 0x10 != 0,
     b & 0x08 != 0, b & 0x04 != 0, b & 0x02 != 0, b & 0x01 != 0]
  }

  function Bits(s: seq<octet>): (r: seq<bool>)
    ensures |r| == 8 * |s|
  {
    if s == [] then [] else Bits(s[..|s| - 1]) + Octet(s[|s| - 1])
  }

  function Zeros(n: nat): (r: seq<bool>)
    ensures |r| == n && forall k :: 0 <= k < n ==> !r[k]
  {
    seq(n, _ => false)
  }

  /** `val >> k` on an octet, one place at a time. */
  function Shr(val: octet, k: nat): octet {
    if k == 0 then val else Shr(val, k - 1) >> 1
  }

  /** `val << k` stored into an octet, one place at a time. */
  function Shl(val: octet, k: nat): octet {
    if k == 0 then val else Shl(val, k - 1) << 1
  }

  lemma ShiftRightHigh(val: octet)
    ensures var s, t := Octet(val >> 1), Octet(val); !s[0] && s[1] == t[0] && s[2] == t[1] && s[3] == t[2]
  {
  }

  lemma ShiftRightLow(val: octet)
    ensures var s, t := Octet(val >> 1), Octet(val); s[4] == t[3] && s[5] == t[4] && s[6] == t[5] && s[7] == t[6]
  {
  }

  lemma ShiftRightOne(val: octet)
    ensures Octet(val >> 1) == [false] + Octet(val)[..7]
  {
    hide Octet;
    ShiftRightHigh(val);
    ShiftRightLow(val);
  }

  lemma ShiftLeftHigh(val: octet)
    ensures var s, t := Octet(val << 1), Octet(val); s[0] == t[1] && s[1] == t[2] && s[2] == t[3] && s[3] == t[4]
  {
  }

  lemma ShiftLeftLow(val: octet)
    ensures var s, t := Octet(val << 1), Octet(val); s[4] == t[5] && s[5] == t[6] && s[6] == t[7] && !s[7]
  {
  }

  lemma ShiftLeftOne(val: octet)
    ensures Octet(val << 1) == Octet(val)[1..] + [false]
  {
    hide Octet;
    ShiftLeftHigh(val);
    ShiftLeftLow(val);
  }

  lemma {:induction false} ShrBits(val: octet, k: nat)
    requires k <= 8
    ensures Octet(Shr(val, k)) == Zeros(k) + Octet(val)[..8 - k]
  {
    hide Octet;
    if k > 0 {
      ShrBits(val, k - 1);
      ShiftRightOne(Shr(val, k - 1));
    }
  }

  lemma {:induction false} ShlBits(val: octet, k: nat)
    requires k <= 8
    ensures Octet(Shl(val, k)) == Octet(val)[k..] + Zeros(k)
  {
    hide Octet;
    if k > 0 {
      ShlBits(val, k - 1);
      ShiftLeftOne(Shl(val, k - 1));
      DropFirst(Octet(val), k);
    }
  }

  lemma DropFirst(s: seq<bool>, k: nat)
    requires 0 < k <= |s|
    ensures (s[k - 1..] + Zeros(k - 1))[1..] + [false] == s[k..] + Zeros(k)
  {
    assert (s[k - 1..] + Zeros(k - 1))[1..] == s[k..] + Zeros(k - 1);
    assert Zeros(k - 1) + [false] == Zeros(k);
  }

  function Mask(k: nat): octet
    requires k < 8
  {
    [0x80, 0x40, 0x20, 0x10, 0x08, 0x04, 0x02, 0x01][k]
  }

  lemma OctetAt(b: octet, k: nat)
    requires k < 8
    ensures Octet(b)[k] <==> b & Mask(k) != 0
  {
  }

  lemma OrMasked(a: octet, b: octet, m: octet)
    ensures (a | b) & m != 0 <==> a & m != 0 || b & m != 0
  {
  }

  lemma OrBits(a: octet, b: octet)
    ensures forall k :: 0 <= k < 8 ==> (Octet(a | b)[k] <==> Octet(a)[k] || Octet(b)[k])
  {
    hide Octet, Mask;
    forall k | 0 <= k < 8
      ensures Octet(a | b)[k] <==> Octet(a)[k] || Octet(b)[k]
    {
      OctetAt(a | b, k);
      OctetAt(a, k);
      OctetAt(b, k);
      OrMasked(a, b, Mask(k));
    }
  }

  lemma OctetInjective(a: octet, b: octet)
    requires Octet(a) == Octet(b)
    ensures a == b
  {
    assert forall k :: 0 <= k < 8 ==> Octet(a)[k] == Octet(b)[k];
  }

  lemma BitsSnoc(s: seq<octet>, b: octet)
    ensures Bits(s + [b]) == Bits(s) + Octet(b)
  {
    assert (s + [b])[..|s|] == s;
  }

  lemma SameParts(a: seq<bool>, b: seq<bool>, c: seq<bool>, d: seq<bool>)
    requires a + b == c + d && |a| == |c|
    ensures a == c && b == d
  {
    assert a == (a + b)[..|a|] && b == (a + b)[|a|..];
    assert c == (c + d)[..|c|] && d == (c + d)[|c|..];
  }

  /** Octets are determined by their bits. */
  lemma {:induction false} BitsInjective(s: seq<octet>, t: seq<octet>)
    requires Bits(s) == Bits(t)
    ensures s == t
  {
    hide Octet, Bits;
    assert 8 * |s| == 8 * |t|;
    if s != [] {
      var m, n := s[|s| - 1], t[|t| - 1];
      var s', t' := s[..|s| - 1], t[..|t| - 1];
      assert s == s' + [m] && t == t' + [n];
      BitsSnoc(s', m);
      BitsSnoc(t', n);
      SameParts(Bits(s'), Octet(m), Bits(t'), Octet(n));
      OctetInjective(m, n);
      BitsInjective(s', t');
    }
  }

  // ------------------------------------------------------------------ place by place

  lemma UpdateLast(s: seq<octet>, x: octet)
    requires s != []
    ensures s[|s| - 1 := x] == s[..|s| - 1] + [x]
  {
  }

  lemma LastAt(s: seq<octet>)
    requires s != []
    ensures Bits(s) == Bits(s[..|s| - 1]) + Octet(s[|s| - 1])
  {
  }

  /** Storing x in the last octet. */
  lemma StoreAt(out: seq<octet>, x: octet)
    requires out != []
    ensures var base := 8 * |out| - 8;
            var r := Bits(out[|out| - 1 := x]);
            && (forall k :: 0 <= k < base ==> r[k] == Bits(out)[k])
            && (forall k :: base <= k < base + 8 ==> r[k] == Octet(x)[k - base])
  {
    hide Octet, Bits;
    UpdateLast(out, x);
    LastAt(out);
    BitsSnoc(out[..|out| - 1], x);
  }

  /** Or-ing x into the last octet. */
  lemma OrAt(out: seq<octet>, x: octet)
    requires out != []
    ensures var base := 8 * |out| - 8;
            var r := Bits(out[|out| - 1 := out[|out| - 1] | x]);
            && (forall k :: 0 <= k < base ==> r[k] == Bits(out)[k])
            && (forall k :: base <= k < base + 8 ==> r[k] == (Bits(out)[k] || Octet(x)[k - base]))
  {
    hide Octet, Bits;
    var last := out[|out| - 1];
    StoreAt(out, last | x);
    OrBits(last, x);
    LastAt(out);
    var base := 8 * |out| - 8;
    forall k | base <= k < base + 8
      ensures Bits(out[|out| - 1 := last | x])[k] == (Bits(out)[k] || Octet(x)[k - base])
    {
      assert Bits(out)[k] == Octet(last)[k - base];
    }
  }

  /** A zero octet more. */
  lemma ZeroOctetAt(out: seq<octet>)
    ensures var r := Bits(out + [0]);
            && (forall k :: 0 <= k < 8 * |out| ==> r[k] == Bits(out)[k])
            && (forall k :: 8 * |out| <= k < 8 * |out| + 8 ==> !r[k])
  {
    BitsSnoc(out, 0);
    ZeroOctet();
    hide Octet, Bits;
  }

  lemma ZeroOctet()
    ensures Octet(0) == Zeros(8)
  {
  }
}
