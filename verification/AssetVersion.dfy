/**
 The 64-bit FNV-1a version stamped on the assets (`build.rs`; section 2 of
 draft-eastlake-fnv).
 */
module AssetVersion {
  import opened MachineTypes

  const TWO_64: nat := U64_MAX + 1
  const OFFSET_BASIS: nat := 0xcbf2_9ce4_8422_2325
  const PRIME: nat := 0x0000_0100_0000_01b3
  /** The inverse of the prime modulo 2^64. */
  const INVERSE: nat := 0xce96_5057_aff6_957b

  /** Exclusive or of the lowest `bits` bits. */
  function Xor(a: nat, b: nat, bits: nat): (x: nat) {
    if bits == 0 then 0 else (a % 2 + b % 2) % 2 + 2 * Xor(a / 2, b / 2, bits - 1)
  }

  function Pow2(n: nat): nat { if n == 0 then 1 else 2 * Pow2(n - 1) }

  /** Taking a number apart into its lowest bit and the rest. */
  lemma LowBit(bit: nat, rest: nat)
    requires bit < 2
    ensures (bit + 2 * rest) % 2 == bit && (bit + 2 * rest) / 2 == rest
  {
  }

  lemma XorUnfolds(a: nat, b: nat, bits: nat)
    requires bits != 0
    ensures Xor(a, b, bits) % 2 == (a % 2 + b % 2) % 2 && Xor(a, b, bits) / 2 == Xor(a / 2, b / 2, bits - 1)
  {
    LowBit((a % 2 + b % 2) % 2, Xor(a / 2, b / 2, bits - 1));
  }

  lemma BitCancels(p: nat, q: nat)
    requires p < 2 && q < 2
    ensures ((p + q) % 2 + q) % 2 == p
  {
  }

  /** An exclusive or undoes itself. */
  lemma {:induction false} XorCancels(a: nat, b: nat, bits: nat)
    requires a < Pow2(bits)
    ensures Xor(a, b, bits) < Pow2(bits) && Xor(Xor(a, b, bits), b, bits) == a
  {
    if bits != 0 {
      XorCancels(a / 2, b / 2, bits - 1);
      var x := Xor(a, b, bits);
      XorUnfolds(a, b, bits);
      XorUnfolds(x, b, bits);
      BitCancels(a % 2, b % 2);
    }
  }

  lemma Pow2Byte(n: nat)
    ensures Pow2(n + 8) == 256 * Pow2(n)
  {
    assert Pow2(n + 2) == 4 * Pow2(n);
    assert Pow2(n + 4) == 4 * Pow2(n + 2);
    assert Pow2(n + 6) == 4 * Pow2(n + 4);
  }

  lemma Pow64()
    ensures Pow2(64) == TWO_64
  {
    Pow2Byte(0);
    Pow2Byte(8);
    Pow2Byte(16);
    Pow2Byte(24);
    Pow2Byte(32);
    Pow2Byte(40);
    Pow2Byte(48);
    Pow2Byte(56);
  }

  /** `hash ^= u64::from(b)`. */
  function XorByte(h: u64, b: byte): u64 {
    Pow64();
    XorCancels(h, b as nat, 64);
    Xor(h, b as nat, 64)
  }

  /** `hash.wrapping_mul(prime)`. */
  function MulPrime(h: u64): u64 { (h * PRIME) % TWO_64 }

  function Step(h: u64, b: byte): u64 { MulPrime(XorByte(h, b)) }

  function Hash(s: bytes, h: u64): u64 {
    if s == [] then h else Step(Hash(s[..|s| - 1], h), s[|s| - 1])
  }

  method Fnv1a(s: bytes, start: u64) returns (hash: u64)
    ensures hash == Hash(s, start)
  {
    hash := start;
    for n := 0 to |s|
      invariant hash == Hash(s[..n], start)
    {
      assert s[..n + 1][..n] == s[..n];
      hash := XorByte(hash, s[n]);
      hash := MulPrime(hash);
    }
    assert s[..|s|] == s;
  }

  /** All assets one after the other. */
  function Concat(assets: seq<bytes>): bytes {
    if assets == [] then [] else Concat(assets[..|assets| - 1]) + assets[|assets| - 1]
  }

  /** The build script: hash the assets in turn, starting from the offset basis. */
  method Version(assets: seq<bytes>) returns (hash: u64)
    ensures hash == Hash(Concat(assets), OFFSET_BASIS)
  {
    hash := OFFSET_BASIS;
    for n := 0 to |assets|
      invariant hash == Hash(Concat(assets[..n]), OFFSET_BASIS)
    {
      assert assets[..n + 1][..n] == assets[..n];
      HashInTurn(Concat(assets[..n]), assets[n], OFFSET_BASIS);
      hash := Fnv1a(assets[n], hash);
    }
    assert assets[..|assets|] == assets;
  }

  /** Hashing in turn is hashing the concatenation. */
  lemma {:induction false} HashInTurn(a: bytes, b: bytes, h: u64)
    ensures Hash(a + b, h) == Hash(b, Hash(a, h))
  {
    if b == [] {
      assert a + b == a;
    } else {
      var n := |b| - 1;
      assert (a + b)[..|a| + n] == a + b[..n];
      HashInTurn(a, b[..n], h);
    }
  }

  // ---- Every step is a bijection -----------------------------------------------------------

  /** Undo the multiplication. */
  function DivPrime(h: u64): u64 { (h * INVERSE) % TWO_64 }

  lemma ModMul(a: nat, b: nat)
    ensures (a % TWO_64 * b) % TWO_64 == (a * b) % TWO_64
  {
    var q := a / TWO_64;
    assert a == q * TWO_64 + a % TWO_64;
    assert a * b == q * b * TWO_64 + a % TWO_64 * b;
    ModPlusMultiple(a % TWO_64 * b, q * b);
  }

  lemma ModPlusMultiple(x: nat, k: nat)
    ensures (k * TWO_64 + x) % TWO_64 == x % TWO_64
  {
  }

  lemma MulPrimeInverts(h: u64)
    ensures DivPrime(MulPrime(h)) == h && MulPrime(DivPrime(h)) == h
  {
    var k := (PRIME * INVERSE) / TWO_64;
    assert PRIME * INVERSE == k * TWO_64 + 1;
    ModMul(h * PRIME, INVERSE);
    ModMul(h * INVERSE, PRIME);
    assert h * PRIME * INVERSE == h * k * TWO_64 + h;
    ModPlusMultiple(h, h * k);
  }

  /** Undo one step. */
  function Unstep(h: u64, b: byte): u64 { XorByte(DivPrime(h), b) }

  lemma StepInverts(h: u64, b: byte)
    ensures Unstep(Step(h, b), b) == h && Step(Unstep(h, b), b) == h
  {
    Pow64();
    MulPrimeInverts(XorByte(h, b));
    XorCancels(h, b as nat, 64);
    XorCancels(DivPrime(h), b as nat, 64);
    MulPrimeInverts(h);
  }

  /** Different bytes take one state to different states. */
  lemma BytesSeparate(h: u64, a: byte, b: byte)
    requires a != b
    ensures Step(h, a) != Step(h, b)
  {
    Pow64();
    if Step(h, a) == Step(h, b) {
      MulPrimeInverts(XorByte(h, a));
      MulPrimeInverts(XorByte(h, b));
      SameXorSameByte(h, a as nat, b as nat, 64);
    }
  }

  lemma {:induction false} SameXorSameByte(h: nat, a: nat, b: nat, bits: nat)
    requires a < Pow2(bits) && b < Pow2(bits) && Xor(h, a, bits) == Xor(h, b, bits)
    ensures a == b
  {
    if bits != 0 {
      XorUnfolds(h, a, bits);
      XorUnfolds(h, b, bits);
      SameXorSameByte(h / 2, a / 2, b / 2, bits - 1);
    }
  }

  /** The same bytes keep different states apart. */
  lemma {:induction false} SuffixKeepsApart(s: bytes, g: u64, h: u64)
    ensures Hash(s, g) == Hash(s, h) <==> g == h
  {
    if s != [] {
      var n := |s| - 1;
      SuffixKeepsApart(s[..n], g, h);
      StepInverts(Hash(s[..n], g), s[n]);
      StepInverts(Hash(s[..n], h), s[n]);
    }
  }

  /**
   Changing one byte of the assets, anywhere, always changes the version, whatever the start
   state.
   */
  lemma {:induction false} OneByteChangesVersion(before: bytes, a: byte, b: byte, after: bytes, start: u64)
    requires a != b
    ensures Hash(before + [a] + after, start) != Hash(before + [b] + after, start)
  {
    var h := Hash(before, start);
    HashInTurn(before + [a], after, start);
    HashInTurn(before + [b], after, start);
    assert (before + [a])[..|before|] == before && (before + [b])[..|before|] == before;
    BytesSeparate(h, a, b);
    SuffixKeepsApart(after, Step(h, a), Step(h, b));
  }

  /** Two asset streams of one length that differ at exactly one place have different versions. */
  lemma {:induction false} OneDifferenceChangesVersion(s: bytes, t: bytes, i: nat, start: u64)
    requires |s| == |t| && i < |s| && s[i] != t[i]
    requires forall k :: 0 <= k < |s| && k != i ==> s[k] == t[k]
    ensures Hash(s, start) != Hash(t, start)
  {
    assert s == s[..i] + [s[i]] + s[i + 1..] && t == s[..i] + [t[i]] + s[i + 1..];
    OneByteChangesVersion(s[..i], s[i], t[i], s[i + 1..], start);
  }

  /** The version sees only the concatenation: moving bytes across an asset boundary does not change it. */
  lemma {:induction false} BoundariesAreInvisible(a: bytes, b: bytes, c: bytes, start: u64)
    ensures Hash(b + c, Hash(a, start)) == Hash(c, Hash(a + b, start))
  {
    HashInTurn(a, b + c, start);
    HashInTurn(a + b, c, start);
    assert a + (b + c) == a + b + c;
  }

  // ---- The published vector ----------------------------------------------------------------

  lemma OneBit(a: nat, b: nat, bits: nat, rest: nat)
    requires bits != 0 && Xor(a / 2, b / 2, bits - 1) == rest
    ensures Xor(a, b, bits) == (a % 2 + b % 2) % 2 + 2 * rest
  {
  }

  lemma {:induction false} XorZero(a: nat, bits: nat)
    requires a < Pow2(bits)
    ensures Xor(a, 0, bits) == a
  {
    if bits != 0 {
      XorZero(a / 2, bits - 1);
    }
  }

  lemma Pow56()
    ensures Pow2(56) == 0x100_0000_0000_0000
  {
    Pow64();
    Pow2Byte(56);
  }

  /** The offset basis with its low byte changed by the letter `a`. */
  lemma XorLetterA()
    ensures Xor(0xcbf29ce484222325, 97, 64) == 0xcbf29ce484222344
  {
    hide Xor, Pow2;
    Pow56();
    XorZero(0xcbf29ce4842223, 56);
    OneBit(0x197e539c9084446, 0, 57, 0xcbf29ce4842223);
    OneBit(0x32fca739210888c, 1, 58, 0x197e539c9084446);
    OneBit(0x65f94e724211119, 3, 59, 0x32fca739210888d);
    OneBit(0xcbf29ce48422232, 6, 60, 0x65f94e72421111a);
    OneBit(0x197e539c90844464, 12, 61, 0xcbf29ce48422234);
    OneBit(0x32fca739210888c9, 24, 62, 0x197e539c90844468);
    OneBit(0x65f94e7242111192, 48, 63, 0x32fca739210888d1);
    OneBit(0xcbf29ce484222325, 97, 64, 0x65f94e72421111a2);
  }

  /** The one-letter test vector of the draft: the hash of `a`. */
  lemma LetterAVector()
    ensures Hash([97], OFFSET_BASIS) == 0xaf63_dc4c_8601_ec8c
  {
    hide Xor;
    var s: bytes := [97];
    assert s[..0] == [];
    XorLetterA();
    assert MulPrime(0xcbf29ce484222344) == 0xaf63_dc4c_8601_ec8c;
  }
}
