/** Unsigned integers and the bit operations the Merkle tree code uses, on naturals.
    `x >> l` is `Shr(x, l)`, `j << l` is `Shl(j, l)`, `x & 1` is `x % 2`; the bitwise
    operators are defined bit by bit. */
module Bits {

  const U64_SIZE: nat := 0x1_0000_0000_0000_0000

  type u64 = x: int | 0 <= x < 0x1_0000_0000_0000_0000

  function Pow2(l: nat): (p: nat)
    ensures p > 0
  {
    if l == 0 then 1 else 2 * Pow2(l - 1)
  }

  function Shl(j: nat, l: nat): nat {
    if l == 0 then j else 2 * Shl(j, l - 1)
  }

  function Shr(x: nat, l: nat): nat
    decreases l
  {
    if l == 0 then x else Shr(x / 2, l - 1)
  }

  function BitAnd(x: nat, y: nat): nat {
    if x == 0 then 0
    else (if x % 2 == 1 && y % 2 == 1 then 1 else 0) + 2 * BitAnd(x / 2, y / 2)
  }

  function BitOr(x: nat, y: nat): nat
    decreases x + y
  {
    if x == 0 && y == 0 then 0
    else (if x % 2 == 1 || y % 2 == 1 then 1 else 0) + 2 * BitOr(x / 2, y / 2)
  }

  // Complement and wrap-around addition of 64-bit words.
  function Not64(x: u64): u64 {
    U64_SIZE - 1 - x
  }

  function Add64(x: nat, y: nat): u64 {
    if x + y < U64_SIZE then x + y else (x + y) % U64_SIZE
  }

  // ---------- shifts ----------

  lemma DivMod256(n: nat, q: nat, r: nat)
    requires n == 0x100 * q + r && r < 0x100
    ensures n / 0x100 == q && n % 0x100 == r
  {
  }

  lemma {:induction false} ShlAdd(a: nat, b: nat, l: nat)
    ensures Shl(a + b, l) == Shl(a, l) + Shl(b, l)
  {
    if l > 0 { ShlAdd(a, b, l - 1); }
  }

  lemma {:induction false} ShlOne(l: nat)
    ensures Shl(1, l) == Pow2(l) && Shl(0, l) == 0
  {
    if l > 0 { ShlOne(l - 1); }
  }

  // The block after block j of size 2^l starts 2^l later.
  lemma ShlNext(j: nat, l: nat)
    ensures Shl(j + 1, l) == Shl(j, l) + Pow2(l)
  {
    ShlAdd(j, 1, l);
    ShlOne(l);
  }

  lemma {:induction false} ShlDouble(j: nat, l: nat)
    ensures Shl(2 * j, l) == Shl(j, l + 1)
  {
    if l > 0 { ShlDouble(j, l - 1); }
  }

  lemma {:induction false} ShlMono(a: nat, b: nat, l: nat)
    requires a <= b
    ensures Shl(a, l) <= Shl(b, l)
    ensures a < b ==> Shl(a, l) + Pow2(l) <= Shl(b, l)
  {
    if l > 0 { ShlMono(a, b, l - 1); }
  }

  lemma {:induction false} ShrStep(x: nat, l: nat)
    ensures Shr(x, l + 1) == Shr(x, l) / 2
  {
    if l > 0 { ShrStep(x / 2, l - 1); }
  }

  lemma {:induction false} ShlComp(j: nat, a: nat, b: nat)
    ensures Shl(Shl(j, a), b) == Shl(j, a + b)
  {
    if b > 0 { ShlComp(j, a, b - 1); }
  }

  lemma {:induction false} ShrComp(x: nat, a: nat, b: nat)
    ensures Shr(Shr(x, a), b) == Shr(x, a + b)
    decreases b
  {
    if b > 0 {
      ShrComp(x, a + 1, b - 1);
      ShrStep(x, a);
    }
  }

  // Shr(x, l) is the index of the one block of size 2^l that holds x.
  lemma {:induction false} ShrBracket(x: nat, l: nat)
    ensures Shl(Shr(x, l), l) <= x < Shl(Shr(x, l) + 1, l)
  {
    if l > 0 {
      ShrBracket(x, l - 1);
      ShrStep(x, l - 1);
      var q := Shr(x, l - 1);
      ShlDouble(q / 2, l - 1);
      ShlDouble(q / 2 + 1, l - 1);
      ShlMono(2 * (q / 2), q, l - 1);
      ShlMono(q + 1, 2 * (q / 2) + 2, l - 1);
    }
  }

  lemma ShrUnique(x: nat, j: nat, l: nat)
    requires Shl(j, l) <= x < Shl(j + 1, l)
    ensures Shr(x, l) == j
  {
    ShrBracket(x, l);
    var q := Shr(x, l);
    if q < j { ShlMono(q + 1, j, l); }
    if j < q { ShlMono(j + 1, q, l); }
  }

  lemma {:induction false} ShrMono(x: nat, y: nat, l: nat)
    requires x <= y
    ensures Shr(x, l) <= Shr(y, l)
    decreases l
  {
    if l > 0 { ShrMono(x / 2, y / 2, l - 1); }
  }

  lemma ShrShl(j: nat, l: nat)
    ensures Shr(Shl(j, l), l) == j
  {
    ShlNext(j, l);
    ShrUnique(Shl(j, l), j, l);
  }

  lemma {:induction false} Pow2Mono(a: nat, b: nat)
    requires a <= b
    ensures Pow2(a) <= Pow2(b)
    ensures a < b ==> 2 * Pow2(a) <= Pow2(b)
    decreases b
  {
    if a < b { Pow2Mono(a, b - 1); }
  }

  lemma {:induction false} Pow2Exceeds(n: nat)
    ensures n < Pow2(n)
  {
    if n > 0 { Pow2Exceeds(n - 1); }
  }

  // x is a multiple of 2^l.
  predicate Multiple(x: nat, l: nat) {
    x == Shl(Shr(x, l), l)
  }

  lemma MultipleOfShl(j: nat, l: nat)
    ensures Multiple(Shl(j, l), l)
  {
    ShrShl(j, l);
  }

  lemma MultipleLess(x: nat, a: nat, b: nat)
    requires Multiple(x, b) && a <= b
    ensures Multiple(x, a)
  {
    ShlComp(Shr(x, b), b - a, a);
    MultipleOfShl(Shl(Shr(x, b), b - a), a);
  }

  lemma MultipleSum(x: nat, y: nat, l: nat)
    requires Multiple(x, l) && Multiple(y, l)
    ensures Multiple(x + y, l)
    ensures Shr(x + y, l) == Shr(x, l) + Shr(y, l)
  {
    ShlAdd(Shr(x, l), Shr(y, l), l);
    MultipleOfShl(Shr(x, l) + Shr(y, l), l);
    ShrShl(Shr(x, l) + Shr(y, l), l);
  }

  lemma MultiplePow2(l: nat, t: nat)
    requires l <= t
    ensures Multiple(Pow2(t), l)
  {
    ShlOne(t);
    MultipleOfShl(1, t);
    MultipleLess(Pow2(t), l, t);
  }

  // A multiple of 2^(l+1) has an even block index at level l.
  lemma MultipleEven(x: nat, l: nat)
    requires Multiple(x, l + 1)
    ensures Multiple(x, l) && Shr(x, l) % 2 == 0
    ensures Shr(x, l) == 2 * Shr(x, l + 1)
  {
    hide Shl, Shr;
    var a := Shr(x, l + 1);
    ShlDouble(a, l);
    ShrShl(2 * a, l);
  }

  // ---------- lowest set bit ----------

  // The number of zeros at the low end of x.
  function TrailingZeros(x: nat): nat
    requires x > 0
  {
    if x % 2 == 1 then 0 else 1 + TrailingZeros(x / 2)
  }

  lemma {:induction false} MultipleTrailingZeros(x: nat, l: nat)
    requires x > 0
    ensures Multiple(x, l) <==> l <= TrailingZeros(x)
    decreases l
  {
    if l > 0 {
      MultipleHalf(x, l);
      if x % 2 == 0 { MultipleTrailingZeros(x / 2, l - 1); }
    }
  }

  lemma MultipleHalf(x: nat, l: nat)
    requires l > 0
    ensures Multiple(x, l) <==> x % 2 == 0 && Multiple(x / 2, l - 1)
  {
    assert Shr(x, l) == Shr(x / 2, l - 1);
  }

  // x and its w-bit complement have no bit in common.
  lemma {:induction false} AndComplement(x: nat, w: nat)
    requires x < Pow2(w)
    ensures BitAnd(x, Pow2(w) - 1 - x) == 0
    decreases w
  {
    if x > 0 {
      AndComplement(x / 2, w - 1);
      assert (Pow2(w) - 1 - x) / 2 == Pow2(w - 1) - 1 - x / 2;
    }
  }

  // `x & -x` is the lowest set bit of x.
  lemma {:induction false} AndNegation(x: nat, w: nat)
    requires 0 < x < Pow2(w)
    ensures BitAnd(x, Pow2(w) - x) == Pow2(TrailingZeros(x))
    decreases w
  {
    var y := Pow2(w) - x;
    if x % 2 == 0 {
      AndNegation(x / 2, w - 1);
      assert y / 2 == Pow2(w - 1) - x / 2;
    } else {
      AndComplement(x / 2, w - 1);
      assert y / 2 == Pow2(w - 1) - 1 - x / 2;
      assert y % 2 == 1;
    }
  }

  lemma Pow2Of64()
    ensures Pow2(64) == U64_SIZE
  {
    assert Pow2(8) == 0x100;
    assert Pow2(16) == 0x1_0000;
    assert Pow2(24) == 0x100_0000;
    assert Pow2(32) == 0x1_0000_0000;
    assert Pow2(40) == 0x100_0000_0000;
    assert Pow2(48) == 0x1_0000_0000_0000;
    assert Pow2(56) == 0x100_0000_0000_0000;
  }

  // ---------- the OR ladder ----------

  lemma {:induction false} OrBelow(x: nat, y: nat, w: nat)
    requires x < Pow2(w) && y < Pow2(w)
    ensures BitOr(x, y) < Pow2(w)
  {
    if w > 0 { OrBelow(x / 2, y / 2, w - 1); }
  }

  lemma {:induction false} OrZero(x: nat)
    ensures BitOr(x, 0) == x
  {
    if x > 0 { OrZero(x / 2); }
  }

  lemma {:induction false} ShrOr(x: nat, y: nat, l: nat)
    ensures Shr(BitOr(x, y), l) == BitOr(Shr(x, l), Shr(y, l))
    decreases l
  {
    if l > 0 {
      assert BitOr(x, y) / 2 == BitOr(x / 2, y / 2);
      ShrOr(x / 2, y / 2, l - 1);
    }
  }

  lemma {:induction false} ShrOnes(c: nat, e: nat)
    requires e <= c
    ensures Shr(Pow2(c) - 1, e) == Pow2(c - e) - 1
    decreases e
  {
    if e > 0 {
      assert (Pow2(c) - 1) / 2 == Pow2(c - 1) - 1;
      ShrOnes(c - 1, e - 1);
    }
  }

  lemma {:induction false} ShrSmall(x: nat, c: nat)
    requires x < Pow2(c)
    ensures Shr(x, c) == 0
    decreases c
  {
    if c > 0 { ShrSmall(x / 2, c - 1); }
  }

  // OR with d ones sets the low d bits and keeps the rest.
  lemma {:induction false} OrOnes(x: nat, d: nat)
    ensures BitOr(x, Pow2(d) - 1) == Shl(Shr(x, d), d) + Pow2(d) - 1
    decreases d
  {
    if d == 0 {
      OrZero(x);
    } else {
      OrOnes(x / 2, d - 1);
      assert (Pow2(d) - 1) / 2 == Pow2(d - 1) - 1;
      assert (Pow2(d) - 1) % 2 == 1;
    }
  }

  lemma {:induction false} ShlOnes(c: nat, d: nat)
    ensures Shl(Pow2(c) - 1, d) + Pow2(d) - 1 == Pow2(c + d) - 1
  {
    if d > 0 { ShlOnes(c, d - 1); }
  }

  // n has k bits, the top c of which (all of them when c >= k) are ones.
  predicate TopOnes(n: nat, k: nat, c: nat) {
    if c >= k then n == Pow2(k) - 1 else n < Pow2(k) && Shr(n, k - c) == Pow2(c) - 1
  }

  // One rung: `n |= n >> c` doubles the run of ones at the top.
  lemma LadderStep(n: nat, k: nat, c: nat)
    requires TopOnes(n, k, c)
    ensures TopOnes(BitOr(n, Shr(n, c)), k, 2 * c)
  {
    hide Shl, BitOr, Pow2;
    if c >= k {
      Pow2Mono(k, c);
      ShrSmall(n, c);
      OrZero(n);
    } else {
      var d := if 2 * c < k then c else k - c;
      LadderTop(n, k, c, d);
      ShrBelow(n, c);
      OrBelow(n, Shr(n, c), k);
    }
  }

  lemma LadderTop(n: nat, k: nat, c: nat, d: nat)
    requires d <= c && c + d <= k
    requires Shr(n, k - c) == Pow2(c) - 1
    ensures Shr(BitOr(n, Shr(n, c)), k - c - d) == Pow2(c + d) - 1
  {
    hide Shr, Shl, BitOr, Pow2;
    var r := k - c - d;
    ShrComp(n, r, d);
    ShrComp(n, c, r);
    ShrComp(n, k - c, c - d);
    ShrOnes(c, c - d);
    ShrOr(n, Shr(n, c), r);
    OrOnes(Shr(n, r), d);
    ShlOnes(c, d);
  }

  lemma {:induction false} ShrBelow(x: nat, l: nat)
    ensures Shr(x, l) <= x
    decreases l
  {
    if l > 0 { ShrBelow(x / 2, l - 1); }
  }

  // A ladder whose shifts double keeps doubling the run of ones.
  function Ladder(n: nat, shifts: seq<nat>): nat
    decreases |shifts|
  {
    if shifts == [] then n else Ladder(BitOr(n, Shr(n, shifts[0])), shifts[1..])
  }

  predicate Doubling(shifts: seq<nat>, c: nat)
    decreases |shifts|
  {
    shifts == [] || (shifts[0] == c && Doubling(shifts[1..], 2 * c))
  }

  lemma {:induction false} LadderTopOnes(n: nat, shifts: seq<nat>, k: nat, c: nat)
    requires TopOnes(n, k, c) && Doubling(shifts, c)
    ensures TopOnes(Ladder(n, shifts), k, Shl(c, |shifts|))
    decreases |shifts|
  {
    if shifts != [] {
      LadderStep(n, k, c);
      LadderTopOnes(BitOr(n, Shr(n, c)), shifts[1..], k, 2 * c);
      ShlDouble(c, |shifts| - 1);
    }
  }
}
