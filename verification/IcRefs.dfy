/** Request references: three counter words with carry, and their comparison. */
module IcRefs {

  const WORD := 0x1_0000_0000  // an unsigned int
  const REF_WORD := 0x4_0000  // ERLANG_REF_MASK + 1

  const PERIOD := REF_WORD * WORD * WORD

  /** 2^18 times 2^32 times 2^32 is 2^82. */
  lemma PeriodInNumbers()
    ensures REF_WORD == 262144 && WORD == 4294967296
    ensures PERIOD == 4835703278458516698824704
  {
  }

  datatype Ref = Ref(node: string, n: seq<nat>, creation: nat)

  /** The three words as one number, the first one least significant. */
  function Packed(n: seq<nat>): nat
    requires |n| == 3
  {
    n[0] + REF_WORD * n[1] + REF_WORD * WORD * n[2]
  }

  /** The number of the i-th reference after a start, counted from the start itself. */
  function Nth(start: nat, i: nat): nat {
    (start + i) % PERIOD
  }

  lemma NthZero(start: nat, n: seq<nat>)
    requires |n| == 3 && n[0] < REF_WORD && n[1] < WORD && n[2] < WORD && start == Packed(n)
    ensures Nth(start, 0) == start < PERIOD
  {
  }

  lemma NthNext(start: nat, i: nat)
    ensures Nth(Nth(start, i), 1) == Nth(start, i + 1)
  {
    SameRemainder(Nth(start, i) + 1, start + i + 1, PERIOD);
    MultipleHasNoRest((start + i) / PERIOD, PERIOD);
    assert start + i == (start + i) / PERIOD * PERIOD + (start + i) % PERIOD;
  }

  /** Different counter words are different numbers. */
  lemma PackedInjective(m: seq<nat>, n: seq<nat>)
    requires |m| == |n| == 3 && m[0] < REF_WORD && m[1] < WORD && n[0] < REF_WORD && n[1] < WORD
    requires Packed(m) == Packed(n)
    ensures m == n
  {
    var k := (n[1] - m[1]) + WORD * (n[2] - m[2]);
    assert m[0] - n[0] == REF_WORD * k;
    assert k == 0;
    assert n[1] - m[1] == WORD * (m[2] - n[2]);
    assert m[2] == n[2] && m[1] == n[1];
  }

  /** Where the carry stops, the three words advance by one modulo 2^82. */
  lemma CarryIsSuccessor(a: nat, b: nat, c: nat)
    requires a < REF_WORD && b < WORD && c < WORD
    ensures a + 1 < REF_WORD ==> Packed([a + 1, b, c]) == Nth(Packed([a, b, c]), 1)
    ensures a + 1 == REF_WORD && b + 1 < WORD ==> Packed([0, b + 1, c]) == Nth(Packed([a, b, c]), 1)
    ensures a + 1 == REF_WORD && b + 1 == WORD ==> Packed([0, 0, (c + 1) % WORD]) == Nth(Packed([a, b, c]), 1)
  {
  }

  class Environment {
    var refCounter1: nat
    var refCounter2: nat
    var refCounter3: nat

    ghost predicate Valid()
      reads this
    {
      refCounter1 < REF_WORD && refCounter2 < WORD && refCounter3 < WORD
    }

    ghost function Counter(): nat
      reads this
    {
      Packed([refCounter1, refCounter2, refCounter3])
    }

    constructor ()
      ensures Valid() && Counter() == 0
    {
      refCounter1, refCounter2, refCounter3 := 0, 0, 0;
    }

    /** Counts on by one, with carry from word to word and all the way round. */
    method InitRef(thisNode: string, creation: nat) returns (ref: Ref)
      requires Valid()
      modifies this
      ensures Valid() && Counter() == Nth(old(Counter()), 1)
      ensures ref == Ref(thisNode, [refCounter1, refCounter2, refCounter3], creation)
      ensures refCounter1 == (old(refCounter1) + 1) % 262144
      ensures refCounter2 == if refCounter1 == 0 then (old(refCounter2) + 1) % 4294967296 else old(refCounter2)
      ensures refCounter3 ==
        if refCounter1 == 0 && refCounter2 == 0 then (old(refCounter3) + 1) % 4294967296 else old(refCounter3)
    {
      hide Packed, Nth;
      CarryIsSuccessor(refCounter1, refCounter2, refCounter3);
      refCounter1 := (refCounter1 + 1) % WORD % REF_WORD;
      if refCounter1 == 0 {
        refCounter2 := (refCounter2 + 1) % WORD;
        if refCounter2 == 0 {
          refCounter3 := (refCounter3 + 1) % WORD;
        }
      }
      ref := Ref(thisNode, [refCounter1, refCounter2, refCounter3], creation);
    }
  }

  /** 0 for equal references, -1 otherwise; the creation number is not looked at. */
  method CompareRefs(ref1: Ref, ref2: Ref) returns (r: int)
    ensures r == 0 || r == -1
    ensures r == 0 <==> ref1.node == ref2.node && ref1.n == ref2.n
  {
    if ref1.node != ref2.node {
      return -1;
    }
    if |ref1.n| != |ref2.n| {
      return -1;
    }
    for i := 0 to |ref1.n|
      invariant ref1.n[..i] == ref2.n[..i]
    {
      if ref1.n[i] != ref2.n[i] {
        return -1;
      }
    }
    return 0;
  }

  /** The references of a series of calls: the k-th one carries the counter k + 1 steps on. */
  ghost predicate Series(start: nat, refs: seq<Ref>) {
    forall k :: 0 <= k < |refs| ==>
      var n := refs[k].n;
      |n| == 3 && n[0] < REF_WORD && n[1] < WORD && n[2] < WORD && Packed(n) == Nth(start, k + 1)
  }

  /** Any number of calls produces a series. */
  method InitRefs(env: Environment, thisNode: string, creation: nat, count: nat) returns (refs: seq<Ref>)
    requires env.Valid()
    modifies env
    ensures env.Valid() && |refs| == count && Series(old(env.Counter()), refs)
  {
    refs := [];
    ghost var start := env.Counter();
    NthZero(start, [env.refCounter1, env.refCounter2, env.refCounter3]);
    hide Nth, Packed;
    while |refs| < count
      invariant env.Valid() && |refs| <= count && Series(start, refs)
      invariant env.Counter() == Nth(start, |refs|)
    {
      NthNext(start, |refs|);
      var ref := env.InitRef(thisNode, creation);
      refs := refs + [ref];
    }
  }

  /** Two calls give equal words exactly when a multiple of 2^82 calls lies between them. */
  lemma EqualWordsIffPeriod(start: nat, refs: seq<Ref>, i: nat, j: nat)
    requires Series(start, refs) && i <= j < |refs|
    ensures refs[i].n == refs[j].n <==> (j - i) % 4835703278458516698824704 == 0
  {
    if Packed(refs[i].n) == Packed(refs[j].n) {
      PackedInjective(refs[i].n, refs[j].n);
    }
    SameRemainder(start + i + 1, start + j + 1, PERIOD);
  }

  lemma SameRemainder(a: nat, b: nat, m: nat)
    requires a <= b && m > 0
    ensures a % m == b % m <==> (b - a) % m == 0
  {
    var qa, qb := a / m, b / m;
    assert a == qa * m + a % m && b == qb * m + b % m;
    if a % m == b % m {
      assert b - a == (qb - qa) * m;
      MultipleHasNoRest(qb - qa, m);
    } else if (b - a) % m == 0 {
      var q := (b - a) / m;
      assert b == (q + qa) * m + a % m;
      QuotientIsUnique(b, q + qa, a % m, m);
      assert false;
    }
  }

  lemma MultipleHasNoRest(q: int, m: nat)
    requires m > 0
    ensures q * m % m == 0
  {
    QuotientIsUnique(q * m, q, 0, m);
  }

  lemma QuotientIsUnique(x: int, q: int, r: nat, m: nat)
    requires m > 0 && x == q * m + r && r < m
    ensures x % m == r
  {
    var d := x / m - q;
    assert d * m == r - x % m;
  }

  /** Pairwise freshness: among the references of one node, up to 2^82 of them in a row, no
      two are equal. */
  lemma FreshWithinPeriod(start: nat, refs: seq<Ref>, i: nat, j: nat)
    requires Series(start, refs) && i < j < |refs| && j - i < 4835703278458516698824704
    ensures refs[i].n != refs[j].n
  {
    EqualWordsIffPeriod(start, refs, i, j);
  }
}
