/** How C++ objects appear as bytes in a disk sector or in the simulated memory: 4-byte little-endian
    ints and unsigned words, and arrays of fixed-size records laid end to end. */
module Layout {

  newtype byte = x: int | 0 <= x < 256

  const WORD_BYTES: nat := 4
  const INT_LIMIT: int := 0x8000_0000
  const WORD_LIMIT: int := 0x1_0000_0000

  /** The values of a 32-bit two's complement C int. */
  type CInt = n: int | -INT_LIMIT <= n < INT_LIMIT

  /** The bits of a C int, read as an unsigned word. */
  function Unsigned(n: CInt): (u: nat)
    ensures u < WORD_LIMIT
  {
    n % WORD_LIMIT
  }

  lemma UnsignedSign(n: CInt)
    ensures Unsigned(n) == if n < 0 then n + WORD_LIMIT else n
  {
  }

  /** An int holding these low 32 bits. */
  function Wrap(n: int): CInt {
    var u := n % WORD_LIMIT;
    if u >= INT_LIMIT then u - WORD_LIMIT else u
  }

  lemma WrapUnsigned(n: int)
    ensures Unsigned(Wrap(n)) == n % WORD_LIMIT
    ensures -INT_LIMIT <= n < INT_LIMIT ==> Wrap(n) == n
  {
  }

  /** C's integer division: truncation toward zero. */
  function TruncDiv(n: int, d: int): int
    requires d > 0
  {
    if n >= 0 then n / d else -((-n) / d)
  }

  /** C's remainder: it takes the sign of the dividend. */
  function TruncMod(n: int, d: int): int
    requires d > 0
  {
    n - TruncDiv(n, d) * d
  }

  /** The divRoundUp macro of lib/utility.h. */
  function DivRoundUp(n: int, d: int): int
    requires d > 0
  {
    TruncDiv(n, d) + if TruncMod(n, d) > 0 then 1 else 0
  }

  /** It is the least number of pieces of size d that cover n. */
  lemma RoundedUp(n: int, d: int)
    requires d > 0
    ensures n <= d * DivRoundUp(n, d) < n + d
  {
    hide TruncDiv, TruncMod;
    Truncated(n, d);
    var q := TruncDiv(n, d);
    assert d * (q + 1) == d * q + d;
  }

  lemma Truncated(n: int, d: int)
    requires d > 0
    ensures n == d * TruncDiv(n, d) + TruncMod(n, d)
    ensures if n < 0 then -d < TruncMod(n, d) <= 0 else 0 <= TruncMod(n, d) < d
  {
    var m := if n < 0 then -n else n;
    DivModSmall(m, d);
    assert d * -(m / d) == -(d * (m / d));
  }

  lemma DivModSmall(m: nat, d: int)
    requires d > 0
    ensures m == d * (m / d) + m % d && 0 <= m % d < d
  {
  }

  function EncodeInt(n: CInt): (b: seq<byte>)
    ensures |b| == WORD_BYTES
  {
    var u := n % WORD_LIMIT;
    [(u % 256) as byte, (u / 256 % 256) as byte, (u / 256 / 256 % 256) as byte, (u / 256 / 256 / 256 % 256) as byte]
  }

  function DecodeInt(b: seq<byte>): CInt
    requires |b| == WORD_BYTES
  {
    var u := b[0] as int + 256 * (b[1] as int + 256 * (b[2] as int + 256 * b[3] as int));
    if u >= INT_LIMIT then u - WORD_LIMIT else u
  }

  lemma Digits(u: nat)
    requires u < WORD_LIMIT
    ensures u == u % 256 + 256 * (u / 256 % 256 + 256 * (u / 256 / 256 % 256 + 256 * (u / 256 / 256 / 256 % 256)))
  {
    var u1 := u / 256;
    var u2 := u1 / 256;
    var u3 := u2 / 256;
    assert u3 < 256;
  }

  lemma {:induction false} IntRoundTrip(n: CInt)
    ensures DecodeInt(EncodeInt(n)) == n
  {
    Digits(n % WORD_LIMIT);
  }

  function ByteOf(low: bv8): byte {
    low as byte
  }

  function BitsOf(b: byte): bv8 {
    b as bv8
  }

  function EncodeWord(w: bv32): (b: seq<byte>)
    ensures |b| == WORD_BYTES
  {
    [ByteOf((w & 0xff) as bv8), ByteOf(((w >> 8) & 0xff) as bv8),
     ByteOf(((w >> 16) & 0xff) as bv8), ByteOf(((w >> 24) & 0xff) as bv8)]
  }

  function Assemble(b0: bv8, b1: bv8, b2: bv8, b3: bv8): bv32 {
    (b0 as bv32) | ((b1 as bv32) << 8) | ((b2 as bv32) << 16) | ((b3 as bv32) << 24)
  }

  function DecodeWord(b: seq<byte>): bv32
    requires |b| == WORD_BYTES
  {
    Assemble(BitsOf(b[0]), BitsOf(b[1]), BitsOf(b[2]), BitsOf(b[3]))
  }

  lemma ByteConversion(low: bv8)
    ensures BitsOf(ByteOf(low)) == low
  {
  }

  lemma WordBytes(w: bv32)
    ensures Assemble((w & 0xff) as bv8, ((w >> 8) & 0xff) as bv8, ((w >> 16) & 0xff) as bv8, ((w >> 24) & 0xff) as bv8) == w
  {
  }

  lemma WordRoundTrip(w: bv32)
    ensures DecodeWord(EncodeWord(w)) == w
  {
    hide ByteOf, BitsOf, Assemble;
    ByteConversion((w & 0xff) as bv8);
    ByteConversion(((w >> 8) & 0xff) as bv8);
    ByteConversion(((w >> 16) & 0xff) as bv8);
    ByteConversion(((w >> 24) & 0xff) as bv8);
    WordBytes(w);
  }

  /** The records of s, each `width` bytes long, laid end to end. */
  function Pack<T>(s: seq<T>, enc: T -> seq<byte>, width: nat): (b: seq<byte>)
    requires forall x <- s :: |enc(x)| == width
    ensures |b| == |s| * width
  {
    if s == [] then [] else enc(s[0]) + Pack(s[1..], enc, width)
  }

  /** The first `count` records found in b. */
  function Unpack<T>(b: seq<byte>, count: nat, dec: seq<byte> --> T, width: nat): (s: seq<T>)
    requires |b| >= count * width
    requires forall c: seq<byte> | |c| == width :: dec.requires(c)
    ensures |s| == count
  {
    if count == 0 then [] else
    assert count * width == (count - 1) * width + width;
    [dec(b[..width])] + Unpack(b[width..], count - 1, dec, width)
  }

  /** Record k is in the k-th place. */
  lemma {:induction false} PackedAt<T>(s: seq<T>, enc: T -> seq<byte>, width: nat, k: nat)
    requires (forall x <- s :: |enc(x)| == width) && k < |s|
    ensures 0 <= k * width && (k + 1) * width <= |s| * width && Pack(s, enc, width)[k * width..(k + 1) * width] == enc(s[k])
  {
    var b, rest := Pack(s, enc, width), Pack(s[1..], enc, width);
    assert (|s| - 1) * width + width == |s| * width;
    if k == 0 {
      assert b[..width] == enc(s[0]);
    } else {
      PackedAt(s[1..], enc, width, k - 1);
      assert (k - 1) * width + width == k * width && k * width + width == (k + 1) * width;
      assert b[width..] == rest;
      assert b[k * width..(k + 1) * width] == rest[(k - 1) * width..k * width];
    }
  }

  lemma {:induction false} UnpackPack<T>(s: seq<T>, enc: T -> seq<byte>, dec: seq<byte> --> T, width: nat)
    requires forall x <- s :: |enc(x)| == width
    requires forall c: seq<byte> | |c| == width :: dec.requires(c)
    requires forall x <- s :: dec(enc(x)) == x
    ensures Unpack(Pack(s, enc, width), |s|, dec, width) == s
  {
    if s != [] {
      var b := Pack(s, enc, width);
      assert b[..width] == enc(s[0]);
      assert b[width..] == Pack(s[1..], enc, width);
      UnpackPack(s[1..], enc, dec, width);
    }
  }
}
