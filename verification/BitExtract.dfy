/** pext_u32: gathering the masked bits of a word by five rounds of parallel suffix
    (decode.hpp).  A 32-bit word is the sequence of its bits, bit 0 first. */
module BitExtract {
  import opened Words

  type Bits32 = s: seq<bool> | |s| == 32 witness seq(32, _ => false)

  function AndB(a: Bits32, b: Bits32): Bits32 { seq(32, k requires 0 <= k < 32 => a[k] && b[k]) }
  function OrB(a: Bits32, b: Bits32): Bits32 { seq(32, k requires 0 <= k < 32 => a[k] || b[k]) }
  function XorB(a: Bits32, b: Bits32): Bits32 { seq(32, k requires 0 <= k < 32 => a[k] != b[k]) }
  function NotB(a: Bits32): Bits32 { seq(32, k requires 0 <= k < 32 => !a[k]) }
  function ShlB(a: Bits32, n: nat): Bits32 { seq(32, k requires 0 <= k < 32 => k >= n && a[k - n]) }
  function ShrB(a: Bits32, n: nat): Bits32 { seq(32, k requires 0 <= k < 32 => k + n < 32 && a[k + n]) }

  // The reference: one bit at a time ---------------------------------------------------------

  /** The bits of val under the first n bits of mask, lowest first. */
  function Picked(val: Bits32, mask: Bits32, n: nat): seq<bool>
    requires n <= 32
  {
    if n == 0 then [] else Picked(val, mask, n - 1) + if mask[n - 1] then [val[n - 1]] else []
  }

  /** Those bits in the low positions, zeros above. */
  ghost predicate IsGather(val: Bits32, mask: Bits32, x: Bits32)
  {
    && |Picked(val, mask, 32)| <= 32
    && x[..|Picked(val, mask, 32)|] == Picked(val, mask, 32)
    && forall k | |Picked(val, mask, 32)| <= k < 32 :: !x[k]
  }

  /** How many of the first k mask bits are clear: how far a selected bit k must move. */
  function Zeros(mask: Bits32, k: nat): (z: nat)
    requires k <= 32
    ensures z <= k
  {
    if k == 0 then 0 else Zeros(mask, k - 1) + if mask[k - 1] then 0 else 1
  }

  /** Where a selected bit ends up. */
  function Rank(mask: Bits32, j: nat): nat
    requires j <= 32
  {
    j - Zeros(mask, j)
  }

  lemma {:induction false} PickedLength(val: Bits32, mask: Bits32, n: nat)
    requires n <= 32
    ensures |Picked(val, mask, n)| == Rank(mask, n)
  {
    if n > 0 { PickedLength(val, mask, n - 1); }
  }

  lemma {:induction false} PickedAt(val: Bits32, mask: Bits32, n: nat, j: nat)
    requires j < n <= 32 && mask[j]
    ensures Rank(mask, j) < |Picked(val, mask, n)| && Picked(val, mask, n)[Rank(mask, j)] == val[j]
  {
    PickedLength(val, mask, n - 1);
    if j < n - 1 { PickedAt(val, mask, n - 1, j); }
  }

  lemma {:induction false} PickedFrom(val: Bits32, mask: Bits32, n: nat, r: nat) returns (j: nat)
    requires n <= 32 && r < |Picked(val, mask, n)|
    ensures j < n && mask[j] && Rank(mask, j) == r
  {
    PickedLength(val, mask, n - 1);
    if r < |Picked(val, mask, n - 1)| {
      j := PickedFrom(val, mask, n - 1, r);
    } else {
      j := n - 1;
    }
  }

  lemma {:induction false} ZerosGrow(mask: Bits32, a: nat, b: nat)
    requires a <= b <= 32
    ensures Zeros(mask, a) <= Zeros(mask, b) <= Zeros(mask, a) + (b - a)
  {
    if a < b { ZerosGrow(mask, a, b - 1); }
  }

  // Prefix parity by doubling ---------------------------------------------------------------------

  /** The number of set bits in positions lo to hi - 1. */
  function Ones(a: Bits32, lo: int, hi: nat): nat
    requires hi <= 32
    decreases hi
  {
    if hi <= lo || hi == 0 then 0 else Ones(a, lo, hi - 1) + if a[hi - 1] then 1 else 0
  }

  predicate Odd(n: int) { n % 2 == 1 }

  /** p[k] is the parity of the w bits of a ending at k. */
  ghost predicate Window(p: Bits32, a: Bits32, w: nat)
  {
    forall k | 0 <= k < 32 :: p[k] == Odd(Ones(a, k + 1 - w, k + 1))
  }

  lemma {:induction false} OnesSplit(a: Bits32, lo: int, mid: int, hi: nat)
    requires lo <= mid <= hi <= 32
    ensures Ones(a, lo, hi) == (if mid > 0 then Ones(a, lo, mid) else 0) + Ones(a, mid, hi)
    decreases hi
  {
    if mid < hi && hi > 0 { OnesSplit(a, lo, mid, hi - 1); }
  }

  lemma WindowDoubles(p: Bits32, a: Bits32, w: nat)
    requires Window(p, a, w) && w > 0
    ensures Window(XorB(p, ShlB(p, w)), a, 2 * w)
  {
    var q := XorB(p, ShlB(p, w));
    forall k | 0 <= k < 32 ensures q[k] == Odd(Ones(a, k + 1 - 2 * w, k + 1)) {
      WindowAt(p, a, w, k);
    }
  }

  lemma WindowAt(p: Bits32, a: Bits32, w: nat, k: nat)
    requires Window(p, a, w) && w > 0 && k < 32
    ensures XorB(p, ShlB(p, w))[k] == Odd(Ones(a, k + 1 - 2 * w, k + 1))
  {
    hide Ones, Odd;
    OnesSplit(a, k + 1 - 2 * w, k + 1 - w, k + 1);
    if k >= w {
      assert p[k - w] == Odd(Ones(a, k - w + 1 - w, k - w + 1));
      OddSum(Ones(a, k + 1 - 2 * w, k + 1 - w), Ones(a, k + 1 - w, k + 1));
    }
  }

  lemma OddSum(a: int, b: int)
    ensures Odd(a + b) == (Odd(a) != Odd(b))
  {
  }

  /** The five xor-shift steps of a round. */
  function Suffix(mk: Bits32): Bits32
  {
    var a := XorB(mk, ShlB(mk, 1));
    var b := XorB(a, ShlB(a, 2));
    var c := XorB(b, ShlB(b, 4));
    var d := XorB(c, ShlB(c, 8));
    XorB(d, ShlB(d, 16))
  }

  lemma SuffixIsParity(mk: Bits32, k: nat)
    requires k < 32
    ensures Suffix(mk)[k] == Odd(Ones(mk, 0, k + 1))
  {
    hide XorB, ShlB, Odd;
    var a := XorB(mk, ShlB(mk, 1));
    var b := XorB(a, ShlB(a, 2));
    var c := XorB(b, ShlB(b, 4));
    var d := XorB(c, ShlB(c, 8));
    SingleWindow(mk);
    WindowDoubles(mk, mk, 1);
    WindowDoubles(a, mk, 2);
    WindowDoubles(b, mk, 4);
    WindowDoubles(c, mk, 8);
    WindowDoubles(d, mk, 16);
    OnesFrom(mk, k + 1 - 32, k + 1);
  }

  lemma SingleWindow(mk: Bits32)
    ensures Window(mk, mk, 1)
  {
  }

  lemma {:induction false} OnesFrom(a: Bits32, lo: int, hi: nat)
    requires lo <= 0 && hi <= 32
    ensures Ones(a, lo, hi) == Ones(a, 0, hi)
    decreases hi
  {
    if hi > 0 { OnesFrom(a, lo, hi - 1); }
  }

  // The markers ------------------------------------------------------------------------------------

  /** At round i the marker counts are the move distances with their low i bits dropped. */
  ghost predicate Markers(mask: Bits32, mk: Bits32, i: nat)
  {
    forall k | 0 <= k < 32 :: Ones(mk, 0, k + 1) == Zeros(mask, k) / Pow2(i)
  }

  lemma {:induction false} FirstMarkers(mask: Bits32, k: nat)
    requires k < 32
    ensures Ones(ShlB(NotB(mask), 1), 0, k + 1) == Zeros(mask, k)
  {
    if k > 0 { FirstMarkers(mask, k - 1); }
  }

  /** Keeping the markers of even rank halves every count. */
  lemma {:induction false} HalveMarkers(mk: Bits32, k: nat)
    requires k <= 32
    ensures Ones(AndB(mk, NotB(Suffix(mk))), 0, k) == Ones(mk, 0, k) / 2
  {
    hide Suffix;
    if k > 0 {
      HalveMarkers(mk, k - 1);
      SuffixIsParity(mk, k - 1);
    }
  }

  lemma NextMarkers(mask: Bits32, mk: Bits32, i: nat)
    requires Markers(mask, mk, i)
    ensures Markers(mask, AndB(mk, NotB(Suffix(mk))), i + 1)
  {
    hide Suffix, AndB, NotB, Pow2;
    forall k | 0 <= k < 32 ensures Ones(AndB(mk, NotB(Suffix(mk))), 0, k + 1) == Zeros(mask, k) / Pow2(i + 1) {
      HalveMarkers(mk, k + 1);
      HalfDiv(Zeros(mask, k), i);
    }
  }

  lemma HalfDiv(z: nat, i: nat)
    ensures Pow2(i + 1) == 2 * Pow2(i) > 0 && z / Pow2(i + 1) == z / Pow2(i) / 2
  {
    var p := Pow2(i);
    var q, r := z / p, z % p;
    var h, b := q / 2, q % 2;
    assert z == p * q + r && q == 2 * h + b;
    assert p * q == 2 * p * h + p * b;
    assert p * b + r < 2 * p;
    DivModUnique(z, 2 * p, h, p * b + r);
  }

  // The rounds ----------------------------------------------------------------------------------------

  /** Where selected bit j is after i rounds: it has moved by the low i bits of its distance. */
  function Pos(mask: Bits32, j: nat, i: nat): (p: int)
    requires j < 32
    ensures 0 <= p <= j
  {
    ModBound(Zeros(mask, j), Pow2(i));
    j - Zeros(mask, j) % Pow2(i)
  }

  lemma ModDistance(a: nat, b: nat, m: nat)
    requires a <= b && m > 0
    ensures b % m - a % m <= b - a
  {
    var q, r, t, u := a / m, a % m, b / m, b % m;
    assert m * (t + 1) == m * t + m;
    if t < q { MulMono(m, t + 1, q); }
    MulMono(m, q, t);
  }

  /** Selected bits never meet: they keep their order in every round. */
  lemma PosOrdered(mask: Bits32, j: nat, k: nat, i: nat)
    requires j < k < 32 && mask[j] && mask[k]
    ensures Pos(mask, j, i) < Pos(mask, k, i)
  {
    ZerosGrow(mask, j + 1, k);
    assert Zeros(mask, j + 1) == Zeros(mask, j);
    ModDistance(Zeros(mask, j), Zeros(mask, k), Pow2(i));
  }

  lemma SamePos(mask: Bits32, j: nat, k: nat, i: nat)
    requires j < 32 && k < 32 && mask[j] && mask[k] && Pos(mask, j, i) == Pos(mask, k, i)
    ensures j == k
  {
    if j < k { PosOrdered(mask, j, k, i); } else if k < j { PosOrdered(mask, k, j, i); }
  }

  /** The suffix at a bit's present place is bit i of its distance. */
  lemma SuffixAtPos(mask: Bits32, mk: Bits32, j: nat, i: nat)
    requires j < 32 && Markers(mask, mk, i)
    ensures Suffix(mk)[Pos(mask, j, i)] == Odd(Zeros(mask, j) / Pow2(i))
    ensures Pos(mask, j, i + 1) == Pos(mask, j, i) - if Odd(Zeros(mask, j) / Pow2(i)) then Pow2(i) else 0
  {
    hide Suffix;
    var p, z, m := Pos(mask, j, i), Zeros(mask, j), Pow2(i);
    SuffixIsParity(mk, p);
    assert Ones(mk, 0, p + 1) == Zeros(mask, p) / m;
    ZerosGrow(mask, p, j);
    SameQuotient(z, Zeros(mask, p), m);
    SplitMod(z, i);
  }

  /** Dropping the remainder does not change the quotient. */
  lemma SameQuotient(z: nat, y: nat, m: nat)
    requires m > 0 && z - z % m <= y <= z
    ensures y / m == z / m
  {
    DivModUnique(y, m, z / m, y - (z - z % m));
  }

  lemma SplitMod(z: nat, i: nat)
    ensures Pow2(i) > 0 && Pow2(i + 1) > 0 && z % Pow2(i + 1) == z % Pow2(i) + if Odd(z / Pow2(i)) then Pow2(i) else 0
  {
    HalfDiv(z, i);
    var p := Pow2(i);
    var q := z / p;
    SplitAt(z, p, q, z % p, q / 2, q % 2);
  }

  lemma SplitAt(z: nat, p: nat, q: nat, r: nat, h: nat, b: nat)
    requires p > 0 && z == p * q + r && r < p && q == 2 * h + b && b < 2
    ensures z % (2 * p) == r + p * b
  {
    hide *;
    var d := 2 * p;
    assert p * q == d * h + p * b by {
      assert p * (2 * h + b) == p * (2 * h) + p * b;
      assert p * (2 * h) == d * h;
    }
    assert p * b + r < d;
    DivModUnique(z, d, h, p * b + r);
  }

  /** After i rounds every selected bit sits at its place with its value, and nothing else
      is set. */
  ghost predicate Placed(val: Bits32, mask: Bits32, m: Bits32, x: Bits32, i: nat)
  {
    && (forall j | 0 <= j < 32 && mask[j] :: m[Pos(mask, j, i)] && x[Pos(mask, j, i)] == val[j])
    && (forall k | 0 <= k < 32 && m[k] :: Occupied(mask, k, i))
    && (forall k | 0 <= k < 32 && x[k] :: m[k])
  }

  ghost predicate Occupied(mask: Bits32, k: nat, i: nat) { exists j :: 0 <= j < 32 && mask[j] && Pos(mask, j, i) == k }

  function Move(a: Bits32, moving: Bits32, n: nat): Bits32 { OrB(XorB(a, moving), ShrB(moving, n)) }

  /** One bit of a moved word. */
  lemma MoveAt(a: Bits32, mp: Bits32, m: Bits32, n: nat, k: nat)
    requires k < 32 && forall t | 0 <= t < 32 && a[t] :: m[t]
    ensures Move(a, AndB(a, AndB(mp, m)), n)[k] <==> (a[k] && !mp[k]) || (k + n < 32 && a[k + n] && mp[k + n])
  {
  }

  lemma RoundPlaces(val: Bits32, mask: Bits32, m: Bits32, x: Bits32, mk: Bits32, i: nat)
    requires Placed(val, mask, m, x, i) && Markers(mask, mk, i)
    ensures var mv := AndB(Suffix(mk), m); var t := AndB(x, mv);
            Placed(val, mask, Move(m, mv, Pow2(i)), Move(x, t, Pow2(i)), i + 1)
  {
    hide Suffix, Markers, Move, Pos, AndB, Odd;
    var mp, n := Suffix(mk), Pow2(i);
    var mv := AndB(mp, m);
    var t := AndB(x, mv);
    var m', x' := Move(m, mv, n), Move(x, t, n);
    MoveMask(m, mp, n);
    forall j | 0 <= j < 32 && mask[j]
      ensures m'[Pos(mask, j, i + 1)] && x'[Pos(mask, j, i + 1)] == val[j]
    {
      RoundBit(val, mask, m, x, mk, i, j);
    }
    forall k | 0 <= k < 32 && m'[k] ensures Occupied(mask, k, i + 1) {
      RoundOccupied(val, mask, m, x, mk, i, k);
    }
    forall k | 0 <= k < 32 && x'[k] ensures m'[k] {
      MoveAt(x, mp, m, n, k);
      MoveAt(m, mp, m, n, k);
    }
  }

  lemma MoveMask(m: Bits32, mp: Bits32, n: nat)
    ensures AndB(m, AndB(mp, m)) == AndB(mp, m)
  {
  }

  lemma RoundOccupied(val: Bits32, mask: Bits32, m: Bits32, x: Bits32, mk: Bits32, i: nat, k: nat)
    requires Placed(val, mask, m, x, i) && Markers(mask, mk, i) && k < 32
    requires Move(m, AndB(Suffix(mk), m), Pow2(i))[k]
    ensures Occupied(mask, k, i + 1)
  {
    hide Suffix, Markers, Move, Pos, AndB, Odd;
    var mp, n := Suffix(mk), Pow2(i);
    MoveMask(m, mp, n);
    MoveAt(m, mp, m, n, k);
    if m[k] && !mp[k] {
      var j :| 0 <= j < 32 && mask[j] && Pos(mask, j, i) == k;
      SuffixAtPos(mask, mk, j, i);
    } else {
      var j :| 0 <= j < 32 && mask[j] && Pos(mask, j, i) == k + n;
      SuffixAtPos(mask, mk, j, i);
    }
  }

  /** No bit moves onto, or stays on, the place of another. */
  lemma RoundBit(val: Bits32, mask: Bits32, m: Bits32, x: Bits32, mk: Bits32, i: nat, j: nat)
    requires Placed(val, mask, m, x, i) && Markers(mask, mk, i) && j < 32 && mask[j]
    ensures var mv := AndB(Suffix(mk), m); var t := AndB(x, mv); var p := Pos(mask, j, i + 1);
            Move(m, mv, Pow2(i))[p] && Move(x, t, Pow2(i))[p] == val[j]
  {
    hide Suffix, Markers, Move, Pos, AndB, Odd;
    var mp, n, p := Suffix(mk), Pow2(i), Pos(mask, j, i + 1);
    SuffixAtPos(mask, mk, j, i);
    MoveMask(m, mp, n);
    MoveAt(m, mp, m, n, p);
    MoveAt(x, mp, m, n, p);
    if Odd(Zeros(mask, j) / n) {
      if x[p] && !mp[p] {
        var o :| 0 <= o < 32 && mask[o] && Pos(mask, o, i) == p;
        SuffixAtPos(mask, mk, o, i);
        SamePos(mask, o, j, i + 1);
      }
    } else if p + n < 32 && x[p + n] && mp[p + n] {
      var o :| 0 <= o < 32 && mask[o] && Pos(mask, o, i) == p + n;
      SuffixAtPos(mask, mk, o, i);
      SamePos(mask, o, j, i + 1);
    }
  }

  /** pext_u32 is the bit-by-bit gather, for every word and mask. */
  method PextU32(val: Bits32, mask: Bits32) returns (r: Bits32)
    ensures IsGather(val, mask, r)
  {
    hide Suffix, Markers, Placed, IsGather, Pos, AndB, OrB, XorB, ShlB, ShrB, NotB;
    var x := AndB(val, mask);
    var m := mask;
    var mk := ShlB(NotB(m), 1);
    Start(val, mask);
    for i := 0 to 5
      invariant Markers(mask, mk, i) && Placed(val, mask, m, x, i)
    {
      var mp := Suffix(mk);
      var mv := AndB(mp, m);
      var t := AndB(x, mv);
      RoundPlaces(val, mask, m, x, mk, i);
      NextMarkers(mask, mk, i);
      m := OrB(XorB(m, mv), ShrB(mv, Pow2(i)));
      x := OrB(XorB(x, t), ShrB(t, Pow2(i)));
      mk := AndB(mk, NotB(mp));
    }
    Finish(val, mask, m, x);
    r := x;
  }

  lemma Start(val: Bits32, mask: Bits32)
    ensures Markers(mask, ShlB(NotB(mask), 1), 0) && Placed(val, mask, mask, AndB(val, mask), 0)
  {
    forall k | 0 <= k < 32 ensures Ones(ShlB(NotB(mask), 1), 0, k + 1) == Zeros(mask, k) / Pow2(0) {
      FirstMarkers(mask, k);
    }
    forall j | 0 <= j < 32 && mask[j] ensures Pos(mask, j, 0) == j && Occupied(mask, j, 0) {
      assert Pow2(0) == 1;
    }
  }

  lemma Finish(val: Bits32, mask: Bits32, m: Bits32, x: Bits32)
    requires Placed(val, mask, m, x, 5)
    ensures IsGather(val, mask, x)
  {
    PickedLength(val, mask, 32);
    var all := Picked(val, mask, 32);
    forall j | 0 <= j < 32 ensures Pos(mask, j, 5) == Rank(mask, j) {
      assert Pow2(5) == 32;
    }
    forall r | 0 <= r < |all| ensures x[r] == all[r] {
      var j := PickedFrom(val, mask, 32, r);
      PickedAt(val, mask, 32, j);
    }
    forall k | |all| <= k < 32 ensures !x[k] {
      if x[k] {
        var j :| 0 <= j < 32 && mask[j] && Pos(mask, j, 5) == k;
        PickedAt(val, mask, 32, j);
      }
    }
  }

  /** The gather keeps every masked bit: equal results mean equal masked words. */
  lemma GatherInjective(a: Bits32, b: Bits32, mask: Bits32, x: Bits32)
    requires IsGather(a, mask, x) && IsGather(b, mask, x)
    ensures AndB(a, mask) == AndB(b, mask)
  {
    forall j | 0 <= j < 32 ensures AndB(a, mask)[j] == AndB(b, mask)[j] {
      if mask[j] {
        PickedAt(a, mask, 32, j);
        PickedAt(b, mask, 32, j);
        assert x[Rank(mask, j)] == a[j] && x[Rank(mask, j)] == b[j];
      }
    }
  }
}
