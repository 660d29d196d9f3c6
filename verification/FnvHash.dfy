/** The 32-bit FNV-1a hash of executable names, with letters lowered first. */
module FnvHash {

  import opened MacroText

  const MODULUS := 0x1_0000_0000

  type Hash = h: int | 0 <= h < MODULUS

  const OFFSET_BASIS: Hash := 2166136261
  const PRIME: Hash := 16777619
  const PRIME_INVERSE: Hash := 0x359C449B

  /** Exclusive or of the lowest `bits` bits. */
  function Xor(a: nat, b: nat, bits: nat): nat {
    if bits == 0 then 0 else 2 * Xor(a / 2, b / 2, bits - 1) + if a % 2 == b % 2 then 0 else 1
  }

  function PowerOfTwo(bits: nat): nat {
    if bits == 0 then 1 else 2 * PowerOfTwo(bits - 1)
  }

  lemma {:induction false} XorUndoes(a: nat, b: nat, bits: nat)
    requires a < PowerOfTwo(bits)
    ensures Xor(a, b, bits) < PowerOfTwo(bits) && Xor(Xor(a, b, bits), b, bits) == a
    decreases bits
  {
    if bits > 0 {
      XorUndoes(a / 2, b / 2, bits - 1);
      var x := Xor(a, b, bits);
      assert x / 2 == Xor(a / 2, b / 2, bits - 1) && x % 2 == if a % 2 == b % 2 then 0 else 1;
    }
  }

  lemma {:induction false} XorSeparates(a: nat, b: nat, c: nat, bits: nat)
    requires b < PowerOfTwo(bits) && c < PowerOfTwo(bits) && b != c
    ensures Xor(a, b, bits) != Xor(a, c, bits)
    decreases bits
  {
    if bits > 0 && b / 2 != c / 2 {
      XorSeparates(a / 2, b / 2, c / 2, bits - 1);
    }
  }

  lemma ThirtyTwoBits()
    ensures PowerOfTwo(32) == MODULUS
  {
    assert PowerOfTwo(8) == 256;
    assert PowerOfTwo(16) == 65536;
    assert PowerOfTwo(24) == 16777216;
  }

  function Xor32(hash: Hash, c: Hash): Hash {
    ThirtyTwoBits();
    XorUndoes(hash, c, 32);
    Xor(hash, c, 32)
  }

  function Step(hash: Hash, c: Wide): Hash {
    Xor32(hash, c) * PRIME % MODULUS
  }

  /** The hash a step came from. */
  function Unstep(hash: Hash, c: Wide): Hash {
    Xor32(hash * PRIME_INVERSE % MODULUS, c)
  }

  /** Multiplying by two factors whose product is one modulo 2^32. */
  lemma Cancel(x: Hash, p: Hash, q: Hash, k: int)
    requires p * q == 1 + k * MODULUS
    ensures (x * p % MODULUS) * q % MODULUS == x
  {
    var r, t := x * p % MODULUS, x * p / MODULUS;
    assert x * p == t * MODULUS + r;
    calc {
      r * q;
      (x * p - t * MODULUS) * q;
      x * (p * q) - t * q * MODULUS;
      x * (1 + k * MODULUS) - t * q * MODULUS;
      x + (x * k - t * q) * MODULUS;
    }
    Wrap(x, x * k - t * q);
  }

  lemma Wrap(x: Hash, n: int)
    ensures (x + n * MODULUS) % MODULUS == x
  {
  }

  lemma Inverse()
    ensures PRIME * PRIME_INVERSE == 1 + 3513497 * MODULUS
  {
  }

  /** Each step is a bijection of the 32-bit words. */
  lemma StepIsBijective(hash: Hash, c: Wide)
    ensures Unstep(Step(hash, c), c) == hash
    ensures Step(Unstep(hash, c), c) == hash
  {
    hide Xor;
    ThirtyTwoBits();
    Inverse();
    XorUndoes(hash, c, 32);
    Cancel(Xor32(hash, c), PRIME, PRIME_INVERSE, 3513497);
    Cancel(hash, PRIME_INVERSE, PRIME, 3513497);
    XorUndoes(hash * PRIME_INVERSE % MODULUS, c, 32);
  }

  lemma StepSeparates(hash: Hash, c: Wide, d: Wide)
    requires c != d
    ensures Step(hash, c) != Step(hash, d)
  {
    hide Xor;
    ThirtyTwoBits();
    Inverse();
    XorSeparates(hash, c, d, 32);
    Cancel(Xor32(hash, c), PRIME, PRIME_INVERSE, 3513497);
    Cancel(Xor32(hash, d), PRIME, PRIME_INVERSE, 3513497);
  }

  function Fold(hash: Hash, s: seq<Wide>): Hash {
    if s == [] then hash else Step(Fold(hash, s[..|s| - 1]), s[|s| - 1])
  }

  /** A name ends at its first zero. */
  function NameLength(s: seq<Wide>): (n: nat)
    ensures n <= |s| && (n < |s| ==> s[n] == 0)
    ensures forall i :: 0 <= i < n ==> s[i] != 0
  {
    if s == [] || s[0] == 0 then 0 else 1 + NameLength(s[1..])
  }

  function HashOf(name: seq<Wide>, lower: Wide -> Wide): Hash {
    Fold(OFFSET_BASIS, MapAll(lower, name[..NameLength(name)]))
  }

  lemma FoldNext(hash: Hash, s: seq<Wide>, c: Wide)
    ensures Fold(hash, s + [c]) == Step(Fold(hash, s), c)
  {
    assert (s + [c])[..|s|] == s;
  }

  /** `FnvHash`. */
  method FnvHash(str: seq<Wide>, lower: Wide -> Wide) returns (hash: Hash)
    ensures hash == HashOf(str, lower)
  {
    hide Step, NameLength, Fold;
    hash := OFFSET_BASIS;
    var i := 0;
    NothingHashed();
    assert MapAll(lower, str[..0]) == [];
    while i < |str| && str[i] != 0
      invariant 0 <= i <= NameLength(str)
      invariant hash == Fold(OFFSET_BASIS, MapAll(lower, str[..i]))
      decreases |str| - i
    {
      assert MapAll(lower, str[..i + 1]) == MapAll(lower, str[..i]) + [lower(str[i])];
      FoldNext(OFFSET_BASIS, MapAll(lower, str[..i]), lower(str[i]));
      hash := Step(hash, lower(str[i]));
      i := i + 1;
    }
  }

  lemma NothingHashed()
    ensures Fold(OFFSET_BASIS, []) == OFFSET_BASIS
  {
  }

  lemma {:induction false} FoldConcat(hash: Hash, a: seq<Wide>, b: seq<Wide>)
    ensures Fold(hash, a + b) == Fold(Fold(hash, a), b)
  {
    if b == [] {
      assert a + b == a;
    } else {
      assert (a + b)[..|a + b| - 1] == a + b[..|b| - 1];
      FoldConcat(hash, a, b[..|b| - 1]);
    }
  }

  lemma {:induction false} FoldSeparates(g: Hash, h: Hash, s: seq<Wide>)
    requires g != h
    ensures Fold(g, s) != Fold(h, s)
  {
    hide Step, Unstep;
    if s != [] {
      FoldSeparates(g, h, s[..|s| - 1]);
      StepIsBijective(Fold(g, s[..|s| - 1]), s[|s| - 1]);
      StepIsBijective(Fold(h, s[..|s| - 1]), s[|s| - 1]);
    }
  }

  /** Case does not matter: names with the same lowered form hash alike. */
  lemma IgnoresCase(a: seq<Wide>, b: seq<Wide>, lower: Wide -> Wide)
    requires |a| == |b| && forall i :: 0 <= i < |a| ==> lower(a[i]) == lower(b[i])
    requires 0 !in a && 0 !in b
    ensures HashOf(a, lower) == HashOf(b, lower)
  {
    WholeName(a);
    WholeName(b);
    assert MapAll(lower, a) == MapAll(lower, b);
  }

  lemma WholeName(s: seq<Wide>)
    requires 0 !in s
    ensures s[..NameLength(s)] == s
  {
    assert forall i :: 0 <= i < |s| ==> s[i] in s;
  }

  /** Names of equal length whose lowered forms differ in exactly one place never collide. */
  lemma OneDifferenceNeverCollides(a: seq<Wide>, b: seq<Wide>, lower: Wide -> Wide, k: nat)
    requires |a| == |b| && k < |a| && 0 !in a && 0 !in b
    requires lower(a[k]) != lower(b[k])
    requires forall i :: 0 <= i < |a| && i != k ==> lower(a[i]) == lower(b[i])
    ensures HashOf(a, lower) != HashOf(b, lower)
  {
    hide Step, Fold, NameLength;
    WholeName(a);
    WholeName(b);
    var x, y := MapAll(lower, a), MapAll(lower, b);
    SplitFold(x, k);
    SplitFold(y, k);
    assert x[..k] == y[..k];
    assert x[k + 1..] == y[k + 1..];
    var h := Fold(OFFSET_BASIS, x[..k]);
    StepSeparates(h, x[k], y[k]);
    FoldSeparates(Step(h, x[k]), Step(h, y[k]), x[k + 1..]);
  }

  lemma SplitFold(s: seq<Wide>, k: nat)
    requires k < |s|
    ensures Fold(OFFSET_BASIS, s) == Fold(Step(Fold(OFFSET_BASIS, s[..k]), s[k]), s[k + 1..])
  {
    hide Step, Fold;
    assert s == s[..k] + [s[k]] + s[k + 1..];
    FoldConcat(OFFSET_BASIS, s[..k] + [s[k]], s[k + 1..]);
    FoldNext(OFFSET_BASIS, s[..k], s[k]);
  }

  // ----- published values -----

  lemma XorNext(a: nat, b: nat, bits: nat)
    requires bits > 0
    ensures Xor(a, b, bits) == 2 * Xor(a / 2, b / 2, bits - 1) + if a % 2 == b % 2 then 0 else 1
  {
  }

  lemma {:induction false} XorNothing(a: nat, bits: nat)
    requires a < PowerOfTwo(bits)
    ensures Xor(a, 0, bits) == a
    decreases bits
  {
    if bits > 0 { XorNothing(a / 2, bits - 1); }
  }

  /** The published values of the 32-bit FNV-1a hash of nothing and of "a". */
  lemma PublishedValues(lower: Wide -> Wide)
    requires lower(97) == 97
    ensures HashOf([], lower) == 0x811C9DC5
    ensures HashOf([97], lower) == 0xE40C292C
  {
    hide Step, Fold, NameLength;
    NothingHashed();
    FirstStep();
    WholeName([]);
    assert MapAll(lower, []) == [];
    WholeName([97]);
    assert MapAll(lower, [97]) == [97] == [] + [97];
    FoldNext(OFFSET_BASIS, [], 97);
  }

  lemma FirstStep()
    ensures Step(0x811C9DC5, 97) == 0xE40C292C
  {
    hide Xor, PowerOfTwo;
    XorNext(0x811C9DC5, 97, 32);
    XorNext(0x408E4EE2, 48, 31);
    XorNext(0x20472771, 24, 30);
    XorNext(0x102393B8, 12, 29);
    XorNext(0x811C9DC, 6, 28);
    XorNext(0x408E4EE, 3, 27);
    XorNext(0x2047277, 1, 26);
    XorNext(0x102393B, 0, 25);
    assert PowerOfTwo(24) == 0x100_0000 by { TwentyFourBits(); }
    XorNothing(0x811C9D, 24);
    assert Xor(0x811C9DC5, 97, 32) == 0x811C9DA4;
  }

  lemma TwentyFourBits()
    ensures PowerOfTwo(24) == 0x100_0000
  {
    assert PowerOfTwo(8) == 256;
    assert PowerOfTwo(16) == 65536;
  }
}
