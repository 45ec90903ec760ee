/** Index keys of the KDN server: `_idx_key` writes a fingerprint as zero-padded hexadecimal, a colon and
    the model name; `scan_lmcache` writes `lmcache_chunk:` and a chunk hash.  Both live in one
    dictionary. */
module KdnKeys {

  const HEX_WIDTH := 16
  const CHUNK_TAG := "lmcache_chunk"

  function DigitChar(d: nat): char
    requires d < 16
  {
    "0123456789abcdef"[d]
  }

  function DigitValue(c: char): int {
    if '0' <= c <= '9' then c as int - '0' as int
    else if 'a' <= c <= 'f' then c as int - 'a' as int + 10
    else -1
  }

  /** Lower-case hexadecimal digits without padding; zero has one digit. */
  function Digits(n: nat): (s: string)
    ensures |s| > 0
  {
    if n < 16 then [DigitChar(n)] else Digits(n / 16) + [DigitChar(n % 16)]
  }

  function Zeros(n: nat): (s: string)
    ensures |s| == n
  {
    seq(n, _ => '0')
  }

  function Pad(s: string, width: nat): string {
    if |s| >= width then s else Zeros(width - |s|) + s
  }

  /** Python's `format(n, '016x')`: the sign comes first and counts towards the width; a number that
      needs more digits is not cut. */
  function Hex(n: int): string {
    if n >= 0 then Pad(Digits(n), HEX_WIDTH) else "-" + Pad(Digits(-n), HEX_WIDTH - 1)
  }

  /** `_idx_key`. */
  function IdxKey(fingerprint: int, model: string): string {
    Hex(fingerprint) + ":" + model
  }

  function ChunkKey(chunkHash: string): string {
    CHUNK_TAG + ":" + chunkHash
  }

  // ----- reading a key back --------------------------------------------------------------------

  function Value(s: string): int {
    if s == [] then 0 else 16 * Value(s[..|s| - 1]) + DigitValue(s[|s| - 1])
  }

  /** The part before the first colon and the part after it. */
  function SplitAtColon(s: string): (string, string) {
    if s == [] then ("", "")
    else if s[0] == ':' then ("", s[1..])
    else var (head, tail) := SplitAtColon(s[1..]); ([s[0]] + head, tail)
  }

  function ReadHex(s: string): int {
    if s != [] && s[0] == '-' then -Value(s[1..]) else Value(s)
  }

  /** The fingerprint and model an index key stands for. */
  function ReadKey(key: string): (int, string) {
    var (head, model) := SplitAtColon(key);
    (ReadHex(head), model)
  }

  ghost predicate AllDigits(s: string) {
    forall i :: 0 <= i < |s| ==> DigitValue(s[i]) >= 0
  }

  lemma DigitRoundTrip(d: nat)
    requires d < 16
    ensures DigitValue(DigitChar(d)) == d
  {
  }

  lemma AppendDigit(s: string, c: char)
    requires AllDigits(s) && DigitValue(c) >= 0
    ensures Value(s + [c]) == 16 * Value(s) + DigitValue(c) && AllDigits(s + [c])
  {
    assert (s + [c])[..|s|] == s;
  }

  lemma {:induction false} DigitsRoundTrip(n: nat)
    ensures Value(Digits(n)) == n && AllDigits(Digits(n))
  {
    var high, low := n / 16, n % 16;
    assert n == 16 * high + low;
    DigitRoundTrip(low);
    if high == 0 {
      AppendDigit([], DigitChar(low));
      assert [] + [DigitChar(low)] == [DigitChar(low)];
    } else {
      DigitsRoundTrip(high);
      AppendDigit(Digits(high), DigitChar(low));
    }
  }

  lemma {:induction false} LeadingZeros(k: nat, s: string)
    ensures Value(Zeros(k) + s) == Value(s)
  {
    if s == [] {
      assert Zeros(k) + s == Zeros(k);
      if k > 0 {
        assert Zeros(k)[..k - 1] == Zeros(k - 1) + [];
        LeadingZeros(k - 1, []);
      }
    } else {
      assert (Zeros(k) + s)[..k + |s| - 1] == Zeros(k) + s[..|s| - 1];
      LeadingZeros(k, s[..|s| - 1]);
    }
  }

  lemma PadRoundTrip(n: nat, width: nat)
    ensures Value(Pad(Digits(n), width)) == n && AllDigits(Pad(Digits(n), width)) && Pad(Digits(n), width) != []
  {
    DigitsRoundTrip(n);
    if |Digits(n)| < width {
      LeadingZeros(width - |Digits(n)|, Digits(n));
    }
  }

  lemma ReadSign(s: string)
    requires AllDigits(s) && s != []
    ensures ReadHex(s) == Value(s) && ReadHex("-" + s) == -Value(s)
    ensures ':' !in s && 'l' !in s && ':' !in "-" + s && 'l' !in "-" + s
  {
    assert ("-" + s)[1..] == s;
    assert s[0] != '-' by { assert DigitValue('-') < 0; }
    assert DigitValue(':') < 0 && DigitValue('l') < 0;
  }

  lemma HexRoundTrip(n: int)
    ensures ReadHex(Hex(n)) == n && ':' !in Hex(n) && 'l' !in Hex(n)
  {
    var magnitude, width := if n >= 0 then n else -n, if n >= 0 then HEX_WIDTH else HEX_WIDTH - 1;
    PadRoundTrip(magnitude, width);
    ReadSign(Pad(Digits(magnitude), width));
  }

  /** Lower-case hexadecimal. */
  predicate IsHexDigit(c: char) {
    '0' <= c <= '9' || 'a' <= c <= 'f'
  }

  function Power16(k: nat): nat {
    if k == 0 then 1 else 16 * Power16(k - 1)
  }

  lemma {:induction false} DigitsWidth(n: nat, k: nat)
    requires k > 0 && n < Power16(k)
    ensures |Digits(n)| <= k && forall i :: 0 <= i < |Digits(n)| ==> IsHexDigit(Digits(n)[i])
  {
    if n >= 16 {
      DigitsWidth(n / 16, k - 1);
    }
  }

  /** A 64-bit fingerprint is written with exactly sixteen lower-case hexadecimal digits. */
  lemma HexIsSixteenDigits(n: nat)
    requires n < 0x1_0000_0000_0000_0000
    ensures |Hex(n)| == 16 && forall i :: 0 <= i < 16 ==> IsHexDigit(Hex(n)[i])
  {
    assert Power16(4) == 0x1_0000;
    assert Power16(8) == 0x1_0000 * Power16(4);
    assert Power16(12) == 0x1_0000 * Power16(8);
    assert Power16(16) == 0x1_0000 * Power16(12);
    DigitsWidth(n, 16);
  }

  /** Keys as they stand in the index file. */
  lemma SomeKeys()
    ensures IdxKey(255, "m") == "00000000000000ff:m" && ChunkKey("h") == "lmcache_chunk:h"
  {
    assert Digits(15) == "f";
    assert Digits(255) == "ff";
    assert Zeros(14) == "00000000000000";
    assert Hex(255) == "00000000000000" + "ff";
  }

  lemma {:induction false} SplitRoundTrip(head: string, tail: string)
    requires ':' !in head
    ensures SplitAtColon(head + ":" + tail) == (head, tail)
  {
    var s := head + ":" + tail;
    if head == [] {
      assert s[1..] == tail;
    } else {
      assert s[1..] == head[1..] + ":" + tail;
      SplitRoundTrip(head[1..], tail);
      assert [head[0]] + head[1..] == head;
    }
  }

  /** Every key can be read back, for any integer fingerprint (also negative or wider than 64 bits) and
      any model name (also one with colons). */
  lemma KeyRoundTrip(fingerprint: int, model: string)
    ensures ReadKey(IdxKey(fingerprint, model)) == (fingerprint, model)
  {
    HexRoundTrip(fingerprint);
    SplitRoundTrip(Hex(fingerprint), model);
  }

  /** Distinct (fingerprint, model) pairs have distinct keys. */
  lemma KeyInjective(f: int, m: string, g: int, n: string)
    ensures IdxKey(f, m) == IdxKey(g, n) <==> f == g && m == n
  {
    KeyRoundTrip(f, m);
    KeyRoundTrip(g, n);
  }

  /** No prompt key is a chunk key, and chunk keys are told apart by their hash. */
  lemma ChunkKeysApart(f: int, m: string, hash: string, other: string)
    ensures IdxKey(f, m) != ChunkKey(hash)
    ensures ChunkKey(hash) == ChunkKey(other) <==> hash == other
  {
    HexRoundTrip(f);
    SplitRoundTrip(Hex(f), m);
    SplitRoundTrip(CHUNK_TAG, hash);
    SplitRoundTrip(CHUNK_TAG, other);
    assert CHUNK_TAG[0] == 'l';
  }
}
