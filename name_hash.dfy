/** The multiplicative rolling hash the generator computes for attribute and element names. */
module NameHash {

  const Modulus: int := 0x1_0000_0000_0000_0000
  /** `ulong`: arithmetic on it wraps modulo 2^64. */
  newtype UInt64 = x: int | 0 <= x < 0x1_0000_0000_0000_0000

  const Seed: UInt64 := 0x2AAAAAAAAAAAAB67
  const Multiplier: UInt64 := 0x2AAAAAAAAAAAAB6F

  /** One loop iteration: `hashedValue += c; hashedValue *= Multiplier;`, each wrapping. */
  function Step(h: UInt64, c: char): UInt64 {
    var added := (h as int + c as int) % Modulus;
    ((added * Multiplier as int) % Modulus) as UInt64
  }

  /** The hash of `s`, defined by its last character. */
  function HashOf(s: string): UInt64 {
    if s == [] then Seed else Step(HashOf(s[..|s| - 1]), s[|s| - 1])
  }

  /** Folding `Step` over `s` from the front, starting at `h`. */
  function HashFrom(h: UInt64, s: string): UInt64
    decreases |s|
  {
    if s == [] then h else HashFrom(Step(h, s[0]), s[1..])
  }

  /** `HashName`: the loop over the characters of `name`. */
  method HashName(name: string) returns (hashedValue: UInt64)
    ensures hashedValue == HashOf(name)
  {
    hashedValue := Seed;
    for i := 0 to |name|
      invariant hashedValue == HashOf(name[..i])
    {
      assert name[..i + 1][..i] == name[..i];
      hashedValue := Step(hashedValue, name[i]);
    }
    assert name[..|name|] == name;
  }

  /** The hash of the empty name is the seed. */
  lemma HashOfEmpty()
    ensures HashOf("") == 0x2AAAAAAAAAAAAB67
  {
  }

  /** Appending a character takes one more wrapping step. */
  lemma HashOfSnoc(s: string, c: char)
    ensures HashOf(s + [c]) == ((((HashOf(s) as int + c as int) % Modulus) * Multiplier as int) % Modulus) as UInt64
  {
    assert (s + [c])[..|s|] == s;
  }

  /**
   * The hash of a concatenation continues from the hash of its first part, so the hash of `s` is
   * the left fold of `Step` over `s` starting at the seed.
   */
  lemma {:induction false} HashOfConcat(s: string, t: string)
    ensures HashOf(s + t) == HashFrom(HashOf(s), t)
    decreases |t|
  {
    if t != [] {
      var s', t' := s + [t[0]], t[1..];
      assert s + t == s' + t';
      assert s'[..|s'| - 1] == s;
      HashOfConcat(s', t');
    } else {
      assert s + t == s;
    }
  }

  /** The loop's result equals the left fold from the seed. */
  lemma HashOfIsFold(s: string)
    ensures HashOf(s) == HashFrom(Seed, s)
  {
    HashOfConcat([], s);
    assert [] + s == s;
  }

  /** One step maps distinct states, or distinct characters, to distinct states. */
  lemma StepInjective(h1: UInt64, c1: char, h2: UInt64, c2: char)
    requires (h1 == h2 && c1 != c2) || (h1 != h2 && c1 == c2)
    ensures Step(h1, c1) != Step(h2, c2)
  {
    var x := (h1 as int + c1 as int) % Modulus;
    var y := (h2 as int + c2 as int) % Modulus;
    assert x != y;
    MultiplierInjective(x, y);
  }

  lemma {:induction false} HashFromInjective(h1: UInt64, h2: UInt64, t: string)
    requires h1 != h2
    ensures HashFrom(h1, t) != HashFrom(h2, t)
    decreases |t|
  {
    if t != [] {
      StepInjective(h1, t[0], h2, t[0]);
      HashFromInjective(Step(h1, t[0]), Step(h2, t[0]), t[1..]);
    }
  }

  /** Two names that differ in exactly one position never collide. */
  lemma HashOfOneCharDifference(s: string, a: char, b: char, t: string)
    requires a != b
    ensures HashOf(s + [a] + t) != HashOf(s + [b] + t)
  {
    HashOfConcat(s + [a], t);
    HashOfConcat(s + [b], t);
    HashOfSnoc(s, a);
    HashOfSnoc(s, b);
    StepInjective(HashOf(s), a, HashOf(s), b);
    HashFromInjective(HashOf(s + [a]), HashOf(s + [b]), t);
  }

  /** Multiplying by the odd multiplier is a bijection modulo 2^64. */
  lemma MultiplierInjective(x: int, y: int)
    requires 0 <= x < Modulus && 0 <= y < Modulus && x != y
    ensures (x * Multiplier as int) % Modulus != (y * Multiplier as int) % Modulus
  {
    // The multiplier's inverse modulo 2^64.
    var inv := InverseOfMultiplier();
    if (x * Multiplier as int) % Modulus == (y * Multiplier as int) % Modulus {
      MulModCancel(x, y, inv);
    }
  }

  function InverseOfMultiplier(): (inv: int)
    ensures 0 <= inv < Modulus && (Multiplier as int * inv) % Modulus == 1
  {
    var i := 0xa5d030adda9f138f;
    assert (Multiplier as int * i) % Modulus == 1;
    i
  }

  lemma MulModCancel(x: int, y: int, inv: int)
    requires 0 <= x < Modulus && 0 <= y < Modulus
    requires (Multiplier as int * inv) % Modulus == 1
    requires (x * Multiplier as int) % Modulus == (y * Multiplier as int) % Modulus
    ensures x == y
  {
    var m := Multiplier as int;
    // (x * m) * inv == x (mod 2^64), and likewise for y.
    assert ((x * m) * inv) % Modulus == x by { ModMulOne(x, m, inv); }
    assert ((y * m) * inv) % Modulus == y by { ModMulOne(y, m, inv); }
    ModCongruentMul(x * m, y * m, inv);
  }

  lemma ModMulOne(x: int, m: int, inv: int)
    requires 0 <= x < Modulus && (m * inv) % Modulus == 1
    ensures ((x * m) * inv) % Modulus == x
  {
    var k := (m * inv) / Modulus;
    assert m * inv == k * Modulus + 1;
    assert (x * m) * inv == x * (m * inv);
    assert x * (m * inv) == (x * k) * Modulus + x;
    ModAddMultiple(x, x * k);
  }

  lemma ModAddMultiple(x: int, k: int)
    requires 0 <= x < Modulus
    ensures (k * Modulus + x) % Modulus == x
  {
  }

  lemma ModCongruentMul(a: int, b: int, c: int)
    requires a % Modulus == b % Modulus
    ensures (a * c) % Modulus == (b * c) % Modulus
  {
    var qa, qb := a / Modulus, b / Modulus;
    var r := a % Modulus;
    assert a == qa * Modulus + r && b == qb * Modulus + r;
    assert a * c == (qa * c) * Modulus + r * c;
    assert b * c == (qb * c) * Modulus + r * c;
    ModShift(r * c, qa * c);
    ModShift(r * c, qb * c);
  }

  lemma ModShift(x: int, k: int)
    ensures (k * Modulus + x) % Modulus == x % Modulus
  {
  }
}
