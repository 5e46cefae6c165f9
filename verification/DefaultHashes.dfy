/** The default hash, 64-bit FNV-1a with the offset basis of set.c:231. */
module DefaultHashes {
  import opened CStrings

  const FNV_OFFSET: Hash := 14695981039346656073
  const FNV_PRIME: nat := 1099511628211

  /** The inverse of the prime modulo 2^64. */
  const FNV_PRIME_INVERSE: nat := 0xce965057aff6957b

  /** What is left of the product of the two, over 2^64. */
  const FNV_CARRY: nat := 887285111055

  /** Bitwise exclusive or. */
  function Xor(a: nat, b: nat): nat
    decreases a + b
  {
    if a == 0 && b == 0 then 0 else (a + b) % 2 + 2 * Xor(a / 2, b / 2)
  }

  /** One round of the loop, for one byte of the key, in 64-bit arithmetic. */
  function Round(h: Hash, c: CChar): Hash {
    Xor(h, c as int) * FNV_PRIME % TWO_64
  }

  /** The state of the hash after the rest of the key. */
  function Fold(h: Hash, key: CString): Hash
    decreases |key|
  {
    if key == [] then h else Fold(Round(h, key[0]), key[1..])
  }

  function DefaultHash(key: CString): Hash {
    Fold(FNV_OFFSET, key)
  }

  /** `__default_hash`. */
  method ComputeDefaultHash(key: CString) returns (hash: Hash)
    ensures hash == DefaultHash(key)
    ensures key == [] ==> hash == 14695981039346656073
    ensures key != [] ==>
              var m := |key| - 1;
              hash == Xor(DefaultHash(key[..m]), key[m] as int) * 1099511628211 % 0x1_0000_0000_0000_0000
  {
    var h: nat := FNV_OFFSET;
    for i := 0 to |key|
      invariant h < TWO_64 && Fold(h, key[i..]) == Fold(FNV_OFFSET, key)
    {
      assert key[i..][0] == key[i] && key[i..][1..] == key[i + 1..];
      h := Xor(h, key[i] as int);
      h := h * FNV_PRIME % TWO_64;
    }
    hash := h;
    if key != [] {
      HashInFigures(key[..|key| - 1], key[|key| - 1]);
      assert key[..|key| - 1] + [key[|key| - 1]] == key;
    }
  }

  /** The hash of the empty key, and of a key with one byte more, in figures. */
  lemma HashInFigures(key: CString, c: CChar)
    ensures DefaultHash([]) == 14695981039346656073
    ensures DefaultHash(key + [c]) == Xor(DefaultHash(key), c as int) * 1099511628211 % 0x1_0000_0000_0000_0000
  {
    FoldAppends(FNV_OFFSET, key, [c]);
    assert [c][1..] == [];
    assert Fold(Fold(FNV_OFFSET, key), [c]) == Round(Fold(FNV_OFFSET, key), c);
  }

  function Bit(a: nat, k: nat): nat {
    if k == 0 then a % 2 else Bit(a / 2, k - 1)
  }

  /** Exclusive or, bit by bit. */
  lemma {:induction false} XorBits(a: nat, b: nat, k: nat)
    ensures Bit(Xor(a, b), k) == (Bit(a, k) + Bit(b, k)) % 2
    decreases k
  {
    XorHalves(a, b);
    if k > 0 {
      XorBits(a / 2, b / 2, k - 1);
    }
  }

  function Pow2(k: nat): nat {
    if k == 0 then 1 else 2 * Pow2(k - 1)
  }

  lemma Pow2Four(k: nat)
    ensures Pow2(k + 4) == 0x10 * Pow2(k)
  {
    assert Pow2(k + 2) == 4 * Pow2(k);
  }

  lemma Pow2Sixteen(k: nat)
    ensures Pow2(k + 16) == 0x1_0000 * Pow2(k)
  {
    Pow2Four(k);
    Pow2Four(k + 4);
    Pow2Four(k + 8);
    Pow2Four(k + 12);
  }

  lemma Pow2SixtyFour(k: nat)
    ensures Pow2(k + 64) == TWO_64 * Pow2(k)
  {
    Pow2Sixteen(k);
    Pow2Sixteen(k + 16);
    Pow2Sixteen(k + 32);
    Pow2Sixteen(k + 48);
  }

  /** Exclusive or undoes itself. */
  lemma {:induction false} XorTwice(a: nat, b: nat)
    ensures Xor(Xor(a, b), b) == a
    decreases a + b
  {
    if a != 0 || b != 0 {
      XorTwice(a / 2, b / 2);
      XorHalves(a, b);
      XorHalves(Xor(a, b), b);
      SameHalves(Xor(Xor(a, b), b), a, Xor(a, b), b);
    }
  }

  lemma SameHalves(y: nat, a: nat, x: nat, b: nat)
    requires y / 2 == a / 2 && y % 2 == (x + b) % 2 && x % 2 == (a + b) % 2
    ensures y == a
  {
  }

  /** The last bit, and the others. */
  lemma XorHalves(a: nat, b: nat)
    ensures Xor(a, b) % 2 == (a + b) % 2 && Xor(a, b) / 2 == Xor(a / 2, b / 2)
  {
    Halves(Xor(a / 2, b / 2), (a + b) % 2);
  }

  lemma Halves(x: nat, bit: nat)
    requires bit < 2
    ensures (bit + 2 * x) % 2 == bit && (bit + 2 * x) / 2 == x
  {
  }

  lemma {:induction false} XorCommutes(a: nat, b: nat)
    ensures Xor(a, b) == Xor(b, a)
    decreases a + b
  {
    if a != 0 || b != 0 {
      XorCommutes(a / 2, b / 2);
    }
  }

  lemma {:induction false} XorFits(a: nat, b: nat, k: nat)
    requires a < Pow2(k) && b < Pow2(k)
    ensures Xor(a, b) < Pow2(k)
    decreases k
  {
    if k > 0 && (a != 0 || b != 0) {
      XorFits(a / 2, b / 2, k - 1);
    }
  }

  /** Multiplying by the prime modulo 2^64 can be undone, because the prime is odd. */
  lemma TimesPrimeIsInjective(x: Hash, y: Hash)
    requires x * FNV_PRIME % TWO_64 == y * FNV_PRIME % TWO_64
    ensures x == y
  {
    var t := x * FNV_PRIME / TWO_64 - y * FNV_PRIME / TWO_64;
    assert (x - y) * FNV_PRIME == TWO_64 * t;
    assert FNV_PRIME * FNV_PRIME_INVERSE == 1 + FNV_CARRY * TWO_64;
    var z := t * FNV_PRIME_INVERSE - FNV_CARRY * (x - y);
    assert x - y == TWO_64 * z;
  }

  lemma XorFits64(a: nat, b: nat, k: nat := 0)
    requires a < TWO_64 && b < TWO_64 && k == 0
    ensures Xor(a, b) < TWO_64
  {
    Pow2SixtyFour(k);
    XorFits(a, b, k + 64);
  }

  lemma XorCancels(g: nat, a: nat, h: nat, b: nat)
    requires Xor(g, a) == Xor(h, b)
    ensures g == h <==> a == b
  {
    XorTwice(g, a);
    XorTwice(h, b);
    XorCommutes(g, a);
    XorCommutes(h, b);
    XorTwice(a, g);
    XorTwice(b, h);
  }

  /** The state before a round that ended in `y`. */
  function Unround(y: Hash, c: CChar): nat {
    Xor(y * FNV_PRIME_INVERSE % TWO_64, c as int)
  }

  /** Every state is reached by a round with any byte. */
  lemma RoundReachesAll(y: Hash, c: CChar)
    ensures Unround(y, c) < TWO_64 && Round(Unround(y, c), c) == y
  {
    var z := y * FNV_PRIME_INVERSE % TWO_64;
    XorFits64(z, c as int);
    XorTwice(z, c as int);
    InverseTimesPrime(y);
  }

  lemma InverseTimesPrime(y: Hash)
    ensures y * FNV_PRIME_INVERSE % TWO_64 * FNV_PRIME % TWO_64 == y
  {
    var a := y * FNV_PRIME_INVERSE;
    var t := TimesPrime(y, a % TWO_64, a / TWO_64);
    Residue(a % TWO_64 * FNV_PRIME, y, t);
  }

  lemma TimesPrime(y: Hash, z: Hash, q: nat) returns (t: int)
    requires y * FNV_PRIME_INVERSE == TWO_64 * q + z
    ensures z * FNV_PRIME == y + TWO_64 * t
  {
    assert FNV_PRIME * FNV_PRIME_INVERSE == 1 + FNV_CARRY * TWO_64;
    t := FNV_CARRY * y - q * FNV_PRIME;
  }

  lemma Residue(a: nat, y: Hash, t: int)
    requires a == y + TWO_64 * t
    ensures a % TWO_64 == y
  {
  }

  /** A round is injective in the state for a fixed byte, and tells bytes apart in a fixed state. */
  lemma RoundIsInjective(g: Hash, h: Hash, c: CChar, d: CChar)
    requires Round(g, c) == Round(h, d)
    ensures g == h <==> c == d
  {
    XorFits64(g, c as int);
    XorFits64(h, d as int);
    TimesPrimeIsInjective(Xor(g, c as int), Xor(h, d as int));
    XorCancels(g, c as int, h, d as int);
  }

  lemma {:induction false} FoldIsInjective(g: Hash, h: Hash, key: CString)
    requires g != h
    ensures Fold(g, key) != Fold(h, key)
    decreases |key|
  {
    if key != [] {
      if Round(g, key[0]) == Round(h, key[0]) {
        RoundIsInjective(g, h, key[0], key[0]);
      }
      FoldIsInjective(Round(g, key[0]), Round(h, key[0]), key[1..]);
    }
  }

  lemma {:induction false} FoldAppends(h: Hash, a: CString, b: CString)
    ensures Fold(h, a + b) == Fold(Fold(h, a), b)
    decreases |a|
  {
    if a == [] {
      assert a + b == b;
    } else {
      assert (a + b)[0] == a[0] && (a + b)[1..] == a[1..] + b;
      FoldAppends(Round(h, a[0]), a[1..], b);
    }
  }

  /** Keys that differ in one byte only never collide. */
  lemma OneByteApart(front: CString, c: CChar, d: CChar, back: CString)
    requires c != d
    ensures DefaultHash(front + [c] + back) != DefaultHash(front + [d] + back)
  {
    var h := Fold(FNV_OFFSET, front);
    forall x: CChar
      ensures DefaultHash(front + [x] + back) == Fold(Round(h, x), back)
    {
      assert front + [x] + back == front + ([x] + back);
      FoldAppends(FNV_OFFSET, front, [x] + back);
      assert ([x] + back)[1..] == back;
    }
    if Round(h, c) == Round(h, d) {
      RoundIsInjective(h, h, c, d);
    }
    FoldIsInjective(Round(h, c), Round(h, d), back);
  }
}
