/** The 64-bit FNV-1a prompt fingerprint of the KDN server, and the gateway's own copy of it
    (Internet-Draft draft-eastlake-fnv, section 2).  The state is an integer that the code masks to
    64 bits after every multiplication. */
module Fnv {
  type byte = b: nat | b < 256

  const MODULUS: nat := 0x1_0000_0000_0000_0000
  type Word = h: nat | h < MODULUS

  const FNV_PRIME: nat := 0x0000_0100_0000_01B3
  const FNV_OFFSET: Word := 0xCBF2_9CE4_8422_2325
  /** The inverse of the prime modulo 2^64: FNV_PRIME * PRIME_INVERSE == 1 + PRIME_CARRY * 2^64. */
  const PRIME_INVERSE: nat := 0xCE96_5057_AFF6_957B
  const PRIME_CARRY: nat := 887285111055
  /** Number of prompt bytes that enter a fingerprint. */
  const PREFIX_BYTES := 512

  /** Exclusive or of two natural numbers, bit by bit. */
  function Xor(a: nat, b: nat): nat
    decreases a + b
  {
    if a == 0 && b == 0 then 0 else 2 * Xor(a / 2, b / 2) + (a % 2 + b % 2) % 2
  }

  lemma XorBits(a: nat, b: nat)
    ensures Xor(a, b) / 2 == Xor(a / 2, b / 2)
    ensures Xor(a, b) % 2 == (a % 2 + b % 2) % 2
  {
  }

  lemma {:induction false} XorZero(a: nat)
    ensures Xor(a, 0) == a
  {
    if a > 0 { XorZero(a / 2); }
  }

  /** If `c` is the exclusive or of `a` and `b` in the last bit, and `x` that of `c` and `b`, then
      `x` is `a` as soon as their other bits agree. */
  lemma LastBit(a: nat, b: nat, c: nat, x: nat)
    requires c % 2 == (a % 2 + b % 2) % 2 && x % 2 == (c % 2 + b % 2) % 2
    requires x / 2 == a / 2
    ensures x == a
  {
  }

  lemma {:induction false} XorSymmetric(a: nat, b: nat)
    ensures Xor(a, b) == Xor(b, a)
    decreases a + b
  {
    if a > 0 || b > 0 { XorSymmetric(a / 2, b / 2); }
  }

  lemma XorTwiceStep(a: nat, b: nat, c: nat)
    requires c == Xor(a, b) && Xor(Xor(a / 2, b / 2), b / 2) == a / 2
    ensures Xor(c, b) == a
  {
    XorBits(a, b);
    XorBits(c, b);
    LastBit(a, b, c, Xor(c, b));
  }

  lemma {:induction false} XorTwice(a: nat, b: nat)
    ensures Xor(Xor(a, b), b) == a
    decreases a + b
  {
    if a > 0 || b > 0 {
      XorTwice(a / 2, b / 2);
      XorTwiceStep(a, b, Xor(a, b));
    }
  }

  /** `n` shifted right by `k` bits. */
  function ShiftRight(n: nat, k: nat): nat {
    if k == 0 then n else ShiftRight(n, k - 1) / 2
  }

  lemma {:induction false} XorShift(a: nat, b: nat, k: nat)
    ensures ShiftRight(Xor(a, b), k) == Xor(ShiftRight(a, k), ShiftRight(b, k))
  {
    if k > 0 {
      XorShift(a, b, k - 1);
      XorBits(ShiftRight(a, k - 1), ShiftRight(b, k - 1));
    }
  }

  lemma ShiftRightEight(n: nat)
    ensures ShiftRight(n, 8) == n / 256
  {
    assert ShiftRight(n, 1) == n / 2;
    assert ShiftRight(n, 2) == n / 4;
    assert ShiftRight(n, 3) == n / 8;
    assert ShiftRight(n, 4) == n / 16;
    assert ShiftRight(n, 5) == n / 32;
    assert ShiftRight(n, 6) == n / 64;
    assert ShiftRight(n, 7) == n / 128;
  }

  /** A byte reaches only the low eight bits of the state. */
  lemma XorKeepsHighBits(h: nat, b: byte)
    ensures Xor(h, b) / 256 == h / 256
  {
    XorShift(h, b, 8);
    ShiftRightEight(Xor(h, b));
    ShiftRightEight(h);
    ShiftRightEight(b);
    XorZero(h / 256);
  }

  /** `h ^ b` for a byte. */
  function XorByte(h: Word, b: byte): Word {
    XorKeepsHighBits(h, b);
    Xor(h, b)
  }

  function TimesPrime(h: Word): Word {
    h * FNV_PRIME % MODULUS
  }

  function Round(h: Word, b: byte): Word {
    TimesPrime(XorByte(h, b))
  }

  function HashFrom(h: Word, data: seq<byte>): Word {
    if data == [] then h else Round(HashFrom(h, data[..|data| - 1]), data[|data| - 1])
  }

  /** `fnv1a_64`. */
  method Fnv1a64(data: seq<byte>) returns (h: Word)
    ensures h == HashFrom(FNV_OFFSET, data)
  {
    h := FNV_OFFSET;
    for i := 0 to |data|
      invariant h == HashFrom(FNV_OFFSET, data[..i])
    {
      h := XorByte(h, data[i]);
      h := h * FNV_PRIME % MODULUS;
      assert data[..i + 1][..i] == data[..i];
    }
    assert data[..|data|] == data;
  }

  function Prefix(prompt: seq<byte>): seq<byte> {
    if |prompt| <= PREFIX_BYTES then prompt else prompt[..PREFIX_BYTES]
  }

  function Fingerprint(prompt: seq<byte>): Word {
    HashFrom(FNV_OFFSET, Prefix(prompt))
  }

  /** `compute_fingerprint`, on the bytes of the encoded prompt. */
  method ComputeFingerprint(prompt: seq<byte>) returns (h: Word)
    ensures h == Fingerprint(prompt)
  {
    h := Fnv1a64(Prefix(prompt));
  }

  // ----- a round is a bijection of the state ---------------------------------------------------

  function TimesInverse(h: Word): Word {
    h * PRIME_INVERSE % MODULUS
  }

  lemma RemainderOf(h: Word, k: int)
    ensures (h + k * MODULUS) % MODULUS == h
  {
  }

  lemma PrimeInvertible(h: Word)
    ensures TimesInverse(TimesPrime(h)) == h
    ensures TimesPrime(TimesInverse(h)) == h
  {
    assert FNV_PRIME * PRIME_INVERSE == 1 + PRIME_CARRY * MODULUS;
    var p, q := h * FNV_PRIME / MODULUS, h * PRIME_INVERSE / MODULUS;
    assert TimesPrime(h) == h * FNV_PRIME - p * MODULUS;
    assert TimesPrime(h) * PRIME_INVERSE == h + (h * PRIME_CARRY - p * PRIME_INVERSE) * MODULUS;
    RemainderOf(h, h * PRIME_CARRY - p * PRIME_INVERSE);
    assert TimesInverse(h) == h * PRIME_INVERSE - q * MODULUS;
    assert TimesInverse(h) * FNV_PRIME == h + (h * PRIME_CARRY - q * FNV_PRIME) * MODULUS;
    RemainderOf(h, h * PRIME_CARRY - q * FNV_PRIME);
  }

  function UndoRound(h: Word, b: byte): Word {
    XorByte(TimesInverse(h), b)
  }

  /** For a fixed byte, a round permutes the 2^64 states. */
  lemma RoundBijective(h: Word, b: byte)
    ensures UndoRound(Round(h, b), b) == h
    ensures Round(UndoRound(h, b), b) == h
  {
    PrimeInvertible(XorByte(h, b));
    XorTwice(h, b);
    PrimeInvertible(h);
    XorTwice(TimesInverse(h), b);
  }

  /** For a fixed state, a round separates all bytes. */
  lemma RoundSeparatesBytes(h: Word, b: byte, c: byte)
    requires Round(h, b) == Round(h, c)
    ensures b == c
  {
    PrimeInvertible(XorByte(h, b));
    PrimeInvertible(XorByte(h, c));
    XorSymmetric(h, b);
    XorSymmetric(h, c);
    XorTwice(b, h);
    XorTwice(c, h);
  }

  // ----- whole hashes --------------------------------------------------------------------------

  lemma {:induction false} HashConcat(h: Word, a: seq<byte>, b: seq<byte>)
    ensures HashFrom(h, a + b) == HashFrom(HashFrom(h, a), b)
  {
    if b == [] {
      assert a + b == a;
    } else {
      assert (a + b)[..|a + b| - 1] == a + b[..|b| - 1];
      HashConcat(h, a, b[..|b| - 1]);
    }
  }

  /** Hashing the same bytes from two states gives the same result only for the same state. */
  lemma {:induction false} HashInjectiveInState(g: Word, h: Word, data: seq<byte>)
    ensures HashFrom(g, data) == HashFrom(h, data) <==> g == h
  {
    if data != [] {
      var init, b := data[..|data| - 1], data[|data| - 1];
      HashInjectiveInState(g, h, init);
      RoundBijective(HashFrom(g, init), b);
      RoundBijective(HashFrom(h, init), b);
    }
  }

  /** A common suffix neither creates nor hides a collision. */
  lemma SuffixCancels(a: seq<byte>, b: seq<byte>, suffix: seq<byte>)
    ensures HashFrom(FNV_OFFSET, a + suffix) == HashFrom(FNV_OFFSET, b + suffix)
            <==> HashFrom(FNV_OFFSET, a) == HashFrom(FNV_OFFSET, b)
  {
    HashConcat(FNV_OFFSET, a, suffix);
    HashConcat(FNV_OFFSET, b, suffix);
    HashInjectiveInState(HashFrom(FNV_OFFSET, a), HashFrom(FNV_OFFSET, b), suffix);
  }

  /** Two byte strings that differ in exactly one position never share a hash. */
  lemma OneByteChangesHash(s: seq<byte>, i: nat, b: byte)
    requires i < |s| && b != s[i]
    ensures HashFrom(FNV_OFFSET, s[i := b]) != HashFrom(FNV_OFFSET, s)
  {
    var before, after := s[..i], s[i + 1..];
    assert s == (before + [s[i]]) + after && s[i := b] == (before + [b]) + after;
    SuffixCancels(before + [s[i]], before + [b], after);
    assert (before + [s[i]])[..i] == before && (before + [b])[..i] == before;
    if Round(HashFrom(FNV_OFFSET, before), s[i]) == Round(HashFrom(FNV_OFFSET, before), b) {
      RoundSeparatesBytes(HashFrom(FNV_OFFSET, before), s[i], b);
    }
  }

  /** Changing one byte of a prompt changes its fingerprint if and only if the byte is one of the
      first 512. */
  lemma FingerprintSeesPrefix(prompt: seq<byte>, i: nat, b: byte)
    requires i < |prompt| && b != prompt[i]
    ensures Fingerprint(prompt[i := b]) != Fingerprint(prompt) <==> i < 512
  {
    if i < PREFIX_BYTES {
      assert Prefix(prompt[i := b]) == Prefix(prompt)[i := b];
      OneByteChangesHash(Prefix(prompt), i, b);
    } else {
      assert Prefix(prompt[i := b]) == Prefix(prompt);
    }
  }

  // ----- the gateway's copy --------------------------------------------------------------------

  const GATEWAY_OFFSET: Word := 14695981039346656037
  const GATEWAY_PRIME: nat := 1099511628211

  /** `fingerprint` of the gateway: a `u64` state with a wrapping multiplication. */
  method GatewayFingerprint(data: seq<byte>) returns (h: Word)
    ensures h == HashFrom(FNV_OFFSET, data)
  {
    h := GATEWAY_OFFSET;
    for i := 0 to |data|
      invariant h == HashFrom(FNV_OFFSET, data[..i])
    {
      h := XorByte(h, data[i]);
      h := h * GATEWAY_PRIME % MODULUS;
      assert data[..i + 1][..i] == data[..i];
    }
    assert data[..|data|] == data;
  }

  /** The recurrence of the draft, section 2, with its 64-bit constants: the hash of the empty string is the
      offset basis; one more byte is first combined by exclusive or, then the state is multiplied by the
      prime and cut to 64 bits. */
  lemma FollowsDraft(data: seq<byte>, b: byte)
    ensures HashFrom(FNV_OFFSET, []) == 14695981039346656037
    ensures HashFrom(FNV_OFFSET, data + [b])
            == Xor(HashFrom(FNV_OFFSET, data), b) * 1099511628211 % 18446744073709551616
  {
    assert (data + [b])[..|data|] == data;
  }
}
