/** How a sheet, the bits meant and the extra ones, looks as octets, and what the shifts and
    ors of the assembler bring to it. */
module PerSheets {
  import opened PerBits
  import opened PerStream

  /** A sheet written down on `size` places. */
  function Written(sheet: Sheet, size: nat): (r: seq<bool>)
    ensures |r| == size
    ensures forall k :: 0 <= k < size ==> (r[k] <==> Shows(sheet.bits, 0, k) || k in sheet.extra)
  {
    seq(size, k => Shows(sheet.bits, 0, k) || k in sheet.extra)
  }

  /** The octet x, or-ed in from place base on, brings the bits t to place p and the ones j. */
  ghost predicate Brings(x: octet, base: nat, p: nat, t: seq<bool>, j: set<nat>) {
    && (forall k :: base <= k < base + 8 ==> (Shows(Octet(x), base, k) <==> Shows(t, p, k) || k in j))
    && (forall k <- j :: base <= k < base + 8)
    && base <= p && p + |t| <= base + 8
  }

  // ---------------------------------------------------------------- written sheets

  lemma BlankOctet()
    ensures Bits([0]) == Written(BLANK, 8)
  {
    assert [0 as octet][..0] == [];
  }

  lemma OrWritten(out: seq<octet>, sheet: Sheet, x: octet, t: seq<bool>, j: set<nat>)
    requires out != [] && Bits(out) == Written(sheet, 8 * |out|)
    requires Brings(x, 8 * |out| - 8, |sheet.bits|, t, j)
    ensures Bits(out[|out| - 1 := out[|out| - 1] | x]) == Written(Sheet(sheet.bits + t, sheet.extra + j), 8 * |out|)
  {
    hide Octet, Bits;
    OrAt(out, x);
    var r := Bits(out[|out| - 1 := out[|out| - 1] | x]);
    var base := 8 * |out| - 8;
    forall k | 0 <= k < 8 * |out|
      ensures r[k] <==> Shows(sheet.bits + t, 0, k) || k in sheet.extra + j
    {
      ShowsAppend(sheet.bits, t, k);
      if k < base {
        assert k !in j && !Shows(t, |sheet.bits|, k);
      } else {
        assert Shows(Octet(x), base, k) <==> Octet(x)[k - base];
      }
    }
  }

  lemma ShowsAppend(s: seq<bool>, t: seq<bool>, k: nat)
    ensures Shows(s + t, 0, k) <==> Shows(s, 0, k) || Shows(t, |s|, k)
  {
  }

  lemma ZeroWritten(out: seq<octet>, sheet: Sheet)
    requires Bits(out) == Written(sheet, 8 * |out|) && |sheet.bits| == 8 * |out|
    requires forall k <- sheet.extra :: k < 8 * |out|
    ensures Bits(out + [0]) == Written(sheet, 8 * |out| + 8)
  {
    hide Octet, Bits;
    ZeroOctetAt(out);
  }

  lemma StoreWritten(out: seq<octet>, sheet: Sheet, x: octet)
    requires out != [] && Bits(out) == Written(sheet, 8 * |out|) && |sheet.bits| == 8 * |out| - 8
    ensures Bits(out[|out| - 1 := x])
         == Written(Sheet(sheet.bits + Octet(x), Below(sheet.extra, |sheet.bits|)), 8 * |out|)
  {
    hide Octet, Bits;
    StoreAt(out, x);
    var r := Bits(out[|out| - 1 := x]);
    forall k | 0 <= k < 8 * |out|
      ensures r[k] <==> Shows(sheet.bits + Octet(x), 0, k) || k in Below(sheet.extra, |sheet.bits|)
    {
      ShowsAppend(sheet.bits, Octet(x), k);
      if k >= |sheet.bits| {
        assert Bits(out[|out| - 1 := x])[k] == Octet(x)[k - (8 * |out| - 8)];
        assert Shows(Octet(x), |sheet.bits|, k) <==> r[k];
      }
    }
  }

  lemma ZerosWritten(sheet: Sheet, n: nat, size: nat)
    ensures Written(Sheet(sheet.bits + Zeros(n), sheet.extra), size) == Written(sheet, size)
  {
    forall k | 0 <= k < size
      ensures Shows(sheet.bits + Zeros(n), 0, k) <==> Shows(sheet.bits, 0, k)
    {
      ShowsAppend(sheet.bits, Zeros(n), k);
    }
  }

  lemma JoinParts(s: seq<bool>, t: seq<bool>, n: nat)
    requires n <= |t|
    ensures s + t[..n] + t[n..] == s + t
  {
  }

  // ------------------------------------------------------------------ what shifts bring

  /** On the eight places from base on, r shows what s shows from `start` on. */
  ghost predicate Agree(r: seq<bool>, base: nat, s: seq<bool>, start: int) {
    forall k :: base <= k < base + 8 ==> (Shows(r, base, k) <==> Shows(s, start, k))
  }

  lemma ShrAgrees(val: octet, m: nat, base: nat)
    requires m <= 8
    ensures Agree(Octet(Shr(val, m)), base, Octet(val), base + m)
  {
    hide Octet;
    ShrBits(val, m);
  }

  lemma ShlAgrees(val: octet, m: nat, base: nat)
    requires m <= 8
    ensures Agree(Octet(Shl(val, m)), base, Octet(val), base - m)
  {
    hide Octet;
    ShlBits(val, m);
  }

  lemma ShowsPart(s: seq<bool>, from: nat, to: nat, start: int, k: int)
    requires from <= to <= |s|
    ensures Shows(s[from..to], start + from, k) <==> start + from <= k < start + to && Shows(s, start, k)
  {
  }

  /** The places from `from` to `to` of the octet s, and the ones j besides. */
  lemma BringsPart(x: octet, base: nat, s: seq<bool>, start: int, from: nat, to: nat, j: set<nat>)
    requires |s| == 8 && from <= to <= 8 && base <= start + from && start + to <= base + 8
    requires Agree(Octet(x), base, s, start)
    requires forall k: nat :: k in j <==>
      base <= k < base + 8 && !(start + from <= k < start + to) && Shows(s, start, k)
    ensures Brings(x, base, start + from, s[from..to], j)
  {
    hide Octet;
    forall k | base <= k < base + 8
      ensures Shows(Octet(x), base, k) <==> Shows(s[from..to], start + from, k) || k in j
    {
      ShowsPart(s, from, to, start, k);
    }
  }

  /** Where the free places of an octet begin. */
  lemma FreePlaces(base: nat, unused: nat)
    requires 1 <= unused <= 8 && base % 8 == 0
    ensures var p := base + 8 - unused; p % 8 == 8 - unused && p - p % 8 == base
  {
  }

  lemma OneBrings(unused: nat, base: nat)
    requires 1 <= unused <= 8
    ensures Brings(Shl(1, unused - 1), base, base + 8 - unused, [true], {})
  {
    ShlAgrees(1, unused - 1, base);
    OnlyOne();
    hide Octet;
    assert Octet(1)[7..8] == [true];
    BringsPart(Shl(1, unused - 1), base, Octet(1), base - (unused - 1), 7, 8, {});
  }

  lemma OnlyOne()
    ensures forall i :: 0 <= i < 8 ==> (Octet(1)[i] <==> i == 7)
  {
  }

  lemma Slices(s: seq<bool>, from: nat, to: nat, n: nat)
    requires from + n <= to <= |s|
    ensures s[from..to][..n] == s[from..from + n] && s[from..to][n..] == s[from + n..to]
  {
  }

  /** A number in n places from p on shows what its octet shows from p + n - 8 on. */
  lemma PlacesShow(val: octet, n: nat, p: int, k: int)
    ensures Shows(InPlaces(val, n), p, k) <==> p <= k && Shows(Octet(val), p + n - 8, k)
  {
    hide Octet;
    if n <= 8 {
      ShowsPart(Octet(val), 8 - n, 8, p + n - 8, k);
      assert Octet(val)[8 - n..8] == Octet(val)[8 - n..];
    }
  }

  /** The places `from` to `to` of a number in n places, and the ones j besides. */
  lemma BringsPlaces(x: octet, base: nat, val: octet, n: nat, p: int, from: nat, to: nat, j: set<nat>)
    requires from <= to <= n && base <= p + from && p + to <= base + 8
    requires Agree(Octet(x), base, Octet(val), p + n - 8)
    requires forall k: nat :: k in j <==>
      base <= k < base + 8 && !(p + from <= k < p + to) && Shows(Octet(val), p + n - 8, k)
    ensures Brings(x, base, p + from, InPlaces(val, n)[from..to], j)
  {
    hide Octet, InPlaces;
    forall k | base <= k < base + 8
      ensures Shows(Octet(x), base, k) <==> Shows(InPlaces(val, n)[from..to], p + from, k) || k in j
    {
      ShowsPart(InPlaces(val, n), from, to, p, k);
      PlacesShow(val, n, p, k);
    }
  }

  lemma LowBitsBring(val: octet, n: nat, unused: nat, base: nat)
    requires n <= unused && 1 <= unused <= 8 && base % 8 == 0
    ensures var p := base + 8 - unused;
            Brings(Shl(val, unused - n), base, p, InPlaces(val, n), InFront(p, n, Octet(val)))
  {
    hide Octet, Brings, Agree, InPlaces;
    var p := base + 8 - unused;
    ShlAgrees(val, unused - n, base);
    FreePlaces(base, unused);
    assert InPlaces(val, n)[0..n] == InPlaces(val, n);
    BringsPlaces(Shl(val, unused - n), base, val, n, p, 0, n, InFront(p, n, Octet(val)));
  }

  lemma LowBitsSplit(val: octet, n: nat, unused: nat, base: nat)
    requires unused < n < 8 + unused && 1 <= unused <= 8 && base % 8 == 0
    ensures var p, t := base + 8 - unused, InPlaces(val, n);
            && Brings(Shr(val, n - unused), base, p, t[..unused], InFront(p, n, Octet(val)))
            && Brings(Shl(val, 8 - (n - unused)), base + 8, base + 8, t[unused..], {})
  {
    hide Octet, Brings, Agree, InPlaces;
    var p, t := base + 8 - unused, InPlaces(val, n);
    ShrAgrees(val, n - unused, base);
    ShlAgrees(val, 8 - (n - unused), base + 8);
    FreePlaces(base, unused);
    assert t[0..unused] == t[..unused] && t[unused..n] == t[unused..];
    BringsPlaces(Shr(val, n - unused), base, val, n, p, 0, unused, InFront(p, n, Octet(val)));
    BringsPlaces(Shl(val, 8 - (n - unused)), base + 8, val, n, p, unused, n, {});
  }

  lemma HighBitsBring(val: octet, n: nat, unused: nat, base: nat)
    requires n <= unused && 1 <= unused <= 8 && base % 8 == 0
    ensures var p := base + 8 - unused;
            Brings(Shr(val, 8 - unused), base, p, Octet(val)[..n], Behind(p, n, Octet(val)))
  {
    hide Octet, Brings, Agree;
    var s, p := Octet(val), base + 8 - unused;
    ShrAgrees(val, 8 - unused, base);
    FreePlaces(base, unused);
    assert s[0..n] == s[..n];
    BringsPart(Shr(val, 8 - unused), base, s, p, 0, n, Behind(p, n, s));
  }

  lemma HighBitsSplit(val: octet, n: nat, unused: nat, base: nat)
    requires unused < n <= 8 && 1 <= unused <= 8 && base % 8 == 0
    ensures var p, t := base + 8 - unused, Octet(val)[..n];
            && Brings(Shr(val, 8 - unused), base, p, t[..unused], {})
            && Brings(Shl(val, unused), base + 8, base + 8, t[unused..], Behind(p, n, Octet(val)))
  {
    hide Octet, Brings, Agree;
    var s, p := Octet(val), base + 8 - unused;
    ShrAgrees(val, 8 - unused, base);
    ShlAgrees(val, unused, base + 8);
    FreePlaces(base, unused);
    Slices(s, 0, n, unused);
    assert s[0..n] == s[..n];
    BringsPart(Shr(val, 8 - unused), base, s, p, 0, unused, {});
    BringsPart(Shl(val, unused), base + 8, s, p, unused, n, Behind(p, n, s));
  }

  // ------------------------------------------------------------- whole octets put out

  function WithOctets(sheet: Sheet, octets: seq<octet>): Sheet {
    Sheet(sheet.bits + Bits(octets), AfterOctets(sheet, octets))
  }

  lemma NoBits(sheet: Sheet)
    ensures WithOctets(sheet, []) == sheet
  {
    assert sheet.bits + [] == sheet.bits;
  }

  lemma WithOctetsSnoc(sheet: Sheet, octets: seq<octet>, x: octet)
    ensures var s := WithOctets(sheet, octets);
            WithOctets(sheet, octets + [x]) == Sheet(s.bits + Octet(x),
              if |sheet.bits| % 8 == 0 then Below(s.extra, |s.bits|) else s.extra)
  {
    hide Octet;
    BitsSnoc(octets, x);
    assert sheet.bits + (Bits(octets) + Octet(x)) == sheet.bits + Bits(octets) + Octet(x);
    if |sheet.bits| % 8 == 0 {
      var p, q := |sheet.bits|, |sheet.bits| + |Bits(octets)|;
      assert octets != [] ==> Below(Below(sheet.extra, p), q) == Below(sheet.extra, p);
    }
  }

  /** A whole octet leaves nothing behind. */
  lemma NothingBehind(p: nat, s: seq<bool>)
    ensures Behind(p, 8, s) == {}
  {
  }

  lemma PartOf(bits: seq<bool>, s: seq<octet>, q: nat, n: nat)
    requires q < |s| && n <= 8
    ensures bits + Bits(s[..q]) + Octet(s[q])[..n] == bits + Bits(s)[..8 * q + n]
  {
    hide Octet, Bits;
    PrefixWithLast(s, q);
    PrefixOfParts(Bits(s), Bits(s[..q]), Octet(s[q]), n);
    AppendAssociative(bits, Bits(s[..q]), Octet(s[q])[..n]);
  }

  lemma PrefixWithLast(s: seq<octet>, q: nat)
    requires q < |s|
    ensures Bits(s)[..8 * (q + 1)] == Bits(s[..q]) + Octet(s[q])
  {
    hide Octet, Bits;
    BitsPrefix(s, q + 1);
    BitsSnoc(s[..q], s[q]);
    assert s[..q] + [s[q]] == s[..q + 1];
  }

  lemma PrefixOfParts(whole: seq<bool>, front: seq<bool>, last: seq<bool>, n: nat)
    requires n <= |last| && |front + last| <= |whole| && whole[..|front + last|] == front + last
    ensures whole[..|front| + n] == front + last[..n]
  {
    assert whole[..|front| + n] == (front + last)[..|front| + n];
  }

  lemma AppendAssociative(a: seq<bool>, b: seq<bool>, c: seq<bool>)
    ensures (a + b) + c == a + (b + c)
  {
  }

  lemma {:induction false} BitsPrefix(s: seq<octet>, q: nat)
    requires q <= |s|
    ensures Bits(s)[..8 * q] == Bits(s[..q])
    decreases |s|
  {
    hide Octet;
    if q < |s| {
      var front := s[..|s| - 1];
      BitsPrefix(front, q);
      assert front[..q] == s[..q];
      LastAt(s);
    } else {
      assert s[..q] == s;
    }
  }
}
