/** Bytes, and little-endian fields in a sequence of bytes. */
module ByteSequences {
  type Byte = b: int | 0 <= b < 256

  function Le16(n: nat): (r: seq<Byte>)
    ensures |r| == 2
  {
    [n % 256, n / 256 % 256]
  }

  function Le32(n: nat): (r: seq<Byte>)
    ensures |r| == 4
  {
    [n % 256, n / 256 % 256, n / 65536 % 256, n / 16777216 % 256]
  }

  function Signed16(n: int): int {
    if n < 0x8000 then n else n - 0x1_0000
  }

  function Signed32(n: int): int {
    if n < 0x8000_0000 then n else n - 0x1_0000_0000
  }

  /** The conversion to a C int of 32 bits. */
  function Int32(n: int): int {
    Signed32(n % 0x1_0000_0000)
  }

  /** Two's complement: the same number modulo the word, in the signed range. */
  lemma SignedIs(n: int)
    ensures 0 <= n < 0x1_0000 ==> -0x8000 <= Signed16(n) < 0x8000 && (Signed16(n) - n) % 0x1_0000 == 0
    ensures 0 <= n < 0x1_0000_0000 ==> -0x8000_0000 <= Signed32(n) < 0x8000_0000 && (Signed32(n) - n) % 0x1_0000_0000 == 0
    ensures -0x8000_0000 <= Int32(n) < 0x8000_0000 && (Int32(n) - n) % 0x1_0000_0000 == 0
  {
    var q, r := n / 0x1_0000_0000, n % 0x1_0000_0000;
    assert n == 0x1_0000_0000 * q + r;
    assert Int32(n) - n == 0x1_0000_0000 * ((if r < 0x8000_0000 then 0 else -1) - q);
  }

  /** A byte of a file as getc delivers it: behind the end it delivers -1, whose low byte is 255. */
  function ByteAt(s: seq<Byte>, p: nat): Byte {
    if p < |s| then s[p] else 255
  }

  function Word16(s: seq<Byte>, p: nat): (r: int)
    ensures 0 <= r < 0x1_0000
  {
    ByteAt(s, p) + 256 * ByteAt(s, p + 1)
  }

  function Word32(s: seq<Byte>, p: nat): (r: int)
    ensures 0 <= r < 0x1_0000_0000
  {
    ByteAt(s, p) + 256 * ByteAt(s, p + 1) + 65536 * ByteAt(s, p + 2) + 16777216 * ByteAt(s, p + 3)
  }

  function ShortAt(s: seq<Byte>, p: nat): int {
    Signed16(Word16(s, p))
  }

  function LongAt(s: seq<Byte>, p: nat): int {
    Signed32(Word32(s, p))
  }

  /** The bytes from p on are t. */
  ghost predicate HoldsAt(s: seq<Byte>, p: nat, t: seq<Byte>) {
    p + |t| <= |s| && s[p..p+|t|] == t
  }

  lemma HoldsBoth(s: seq<Byte>, p: nat, a: seq<Byte>, b: seq<Byte>)
    requires HoldsAt(s, p, a + b)
    ensures HoldsAt(s, p, a) && HoldsAt(s, p + |a|, b)
  {
    assert s[p..p+|a|] == s[p..p+|a+b|][..|a|];
    assert s[p+|a|..p+|a|+|b|] == s[p..p+|a+b|][|a|..];
  }

  lemma HoldsByte(s: seq<Byte>, p: nat, t: seq<Byte>, i: nat)
    requires HoldsAt(s, p, t) && i < |t|
    ensures ByteAt(s, p + i) == t[i]
  {
    assert s[p..p+|t|][i] == s[p+i];
  }

  lemma ShortIs(s: seq<Byte>, p: nat, n: nat)
    requires HoldsAt(s, p, Le16(n)) && n < 0x1_0000
    ensures ShortAt(s, p) == Signed16(n)
  {
    HoldsByte(s, p, Le16(n), 0);
    HoldsByte(s, p, Le16(n), 1);
  }

  function Sum32(b: seq<Byte>): int
    requires |b| == 4
  {
    var b0: int, b1: int, b2: int, b3: int := b[0], b[1], b[2], b[3];
    b0 + 256 * b1 + 65536 * b2 + 16777216 * b3
  }

  lemma Le32Value(n: nat)
    requires n < 0x1_0000_0000
    ensures Sum32(Le32(n)) == n
  {
    var h, k := n / 256, n / 65536;
    assert k == h / 256 && n / 16777216 == k / 256;
  }

  lemma LongIs(s: seq<Byte>, p: nat, n: nat)
    requires HoldsAt(s, p, Le32(n)) && n < 0x1_0000_0000
    ensures LongAt(s, p) == Signed32(n)
  {
    Le32Value(n);
    hide Le32;
    HoldsByte(s, p, Le32(n), 0);
    HoldsByte(s, p, Le32(n), 1);
    HoldsByte(s, p, Le32(n), 2);
    HoldsByte(s, p, Le32(n), 3);
  }
}
