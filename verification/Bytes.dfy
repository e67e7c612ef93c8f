/** Byte sequences as they travel on the wire: fixed-width integers in both byte
    orders, four-byte alignment, and a stream that is read from the front. */
module Bytes {

  type byte = b: int | 0 <= b < 256

  datatype Option<+T> = None | Some(value: T)

  /** What is left of a stream after `taken` was read from its front. */
  datatype Read<+T> = Short | Read(taken: T, rest: seq<byte>)

  const MIN_INT32 := -0x8000_0000
  const MAX_INT32 := 0x7fff_ffff
  /** The cap on any payload size the server claims. */
  const MAX_WIRE_PAYLOAD := 0x100_0000

  predicate FitsInt32(v: int) {
    MIN_INT32 <= v <= MAX_INT32
  }

  predicate FitsInt64(v: int) {
    -0x8000_0000_0000_0000 <= v <= 0x7fff_ffff_ffff_ffff
  }

  /** The two's complement reading of the low 32 bits of `v`. */
  function ToInt32(v: int): int {
    var u := v % 0x1_0000_0000;
    if u > MAX_INT32 then u - 0x1_0000_0000 else u
  }

  // --- unsigned words ---------------------------------------------------

  function Word16LE(v: int): seq<byte> {
    [v % 256, v / 256 % 256]
  }

  function UInt16LE(b: seq<byte>): (v: int)
    requires |b| >= 2
    ensures 0 <= v < 0x1_0000
  {
    var b0: int, b1: int := b[0], b[1];
    b0 + 256 * b1
  }

  function Word32LE(v: int): seq<byte> {
    [v % 256, v / 256 % 256, v / 256 / 256 % 256, v / 256 / 256 / 256 % 256]
  }

  function UInt32LE(b: seq<byte>): (v: int)
    requires |b| >= 4
    ensures 0 <= v < 0x1_0000_0000
  {
    var b0: int, b1: int, b2: int, b3: int := b[0], b[1], b[2], b[3];
    b0 + 256 * b1 + 0x1_0000 * b2 + 0x100_0000 * b3
  }

  function Word32BE(v: int): seq<byte> {
    [v / 256 / 256 / 256 % 256, v / 256 / 256 % 256, v / 256 % 256, v % 256]
  }

  function UInt32BE(b: seq<byte>): (v: int)
    requires |b| >= 4
    ensures 0 <= v < 0x1_0000_0000
  {
    var b0: int, b1: int, b2: int, b3: int := b[0], b[1], b[2], b[3];
    0x100_0000 * b0 + 0x1_0000 * b1 + 256 * b2 + b3
  }

  // --- signed words -----------------------------------------------------

  function Int16LE(b: seq<byte>): int
    requires |b| >= 2
  {
    var u := UInt16LE(b);
    if u >= 0x8000 then u - 0x1_0000 else u
  }

  function Int32LE(b: seq<byte>): int
    requires |b| >= 4
  {
    ToInt32(UInt32LE(b))
  }

  function Int32BE(b: seq<byte>): int
    requires |b| >= 4
  {
    ToInt32(UInt32BE(b))
  }

  /** A 64-bit integer is two big-endian words, the high one first. */
  function Word64BE(v: int): seq<byte> {
    Word32BE(v / 0x1_0000_0000) + Word32BE(v)
  }

  function Int64BE(b: seq<byte>): int
    requires |b| >= 8
  {
    Int32BE(b) * 0x1_0000_0000 + UInt32BE(b[4..])
  }

  /** Every word writer keeps exactly the low bits of its argument. */
  lemma WordsKeepLowBits(v: int)
    ensures UInt16LE(Word16LE(v)) == v % 0x1_0000
    ensures UInt32LE(Word32LE(v)) == v % 0x1_0000_0000
    ensures UInt32BE(Word32BE(v)) == v % 0x1_0000_0000
  {
    var a := v / 256;
    var b := a / 256;
    var c := b / 256;
    LowBits16(v, b, v % 256 + 256 * (a % 256));
    LowBits32(v, c / 256, v % 256 + 256 * (a % 256) + 0x1_0000 * (b % 256) + 0x100_0000 * (c % 256));
  }

  lemma LowBits16(v: int, q: int, r: int)
    requires v == 0x1_0000 * q + r && 0 <= r < 0x1_0000
    ensures v % 0x1_0000 == r
  {
  }

  lemma LowBits32(v: int, q: int, r: int)
    requires v == 0x1_0000_0000 * q + r && 0 <= r < 0x1_0000_0000
    ensures v % 0x1_0000_0000 == r
  {
  }

  /** A 32-bit integer survives both byte orders; a wider one wraps. */
  lemma Int32RoundTrip(v: int)
    ensures Int32LE(Word32LE(v)) == Int32BE(Word32BE(v)) == ToInt32(v)
    ensures FitsInt32(v) ==> ToInt32(v) == v
  {
    WordsKeepLowBits(v);
  }

  /** Writing what was read gives back the same four bytes, in both orders. */
  lemma Int32BytesRoundTrip(b: seq<byte>)
    requires |b| == 4
    ensures Word32BE(Int32BE(b)) == b
    ensures Word32LE(Int32LE(b)) == b
  {
    UnsignedBytesRoundTrip(b);
    SignedForms(UInt32BE(b));
    SignedForms(UInt32LE(b));
    ShiftByWord(UInt32BE(b));
    ShiftByWord(UInt32LE(b));
  }

  lemma UnsignedBytesRoundTrip(b: seq<byte>)
    requires |b| == 4
    ensures Word32BE(UInt32BE(b)) == b
    ensures Word32LE(UInt32LE(b)) == b
  {
    assert b == [b[0], b[1], b[2], b[3]];
    WordOfBytes(b[0], b[1], b[2], b[3]);
    WordOfBytes(b[3], b[2], b[1], b[0]);
  }

  lemma WordOfBytes(a: int, b: int, c: int, d: int)
    requires 0 <= a < 256 && 0 <= b < 256 && 0 <= c < 256 && 0 <= d < 256
    ensures var v := 0x100_0000 * a + 0x1_0000 * b + 256 * c + d;
            Word32BE(v) == [a, b, c, d] && Word32LE(v) == [d, c, b, a]
  {
    var v := 0x100_0000 * a + 0x1_0000 * b + 256 * c + d;
    assert v / 256 == 0x1_0000 * a + 256 * b + c;
    assert (0x1_0000 * a + 256 * b + c) / 256 == 256 * a + b;
    assert (256 * a + b) / 256 == a;
  }

  lemma SignedForms(u: int)
    requires 0 <= u < 0x1_0000_0000
    ensures ToInt32(u) == u || ToInt32(u) == u - 0x1_0000_0000
  {
  }

  lemma ShiftByWord(v: int)
    ensures Word32BE(v - 0x1_0000_0000) == Word32BE(v)
    ensures Word32LE(v - 0x1_0000_0000) == Word32LE(v)
  {
    var a := v / 256;
    var b := a / 256;
    var c := b / 256;
    assert (v - 0x1_0000_0000) / 256 == a - 0x100_0000;
    assert (a - 0x100_0000) / 256 == b - 0x1_0000;
    assert (b - 0x1_0000) / 256 == c - 0x100;
  }

  lemma Int64RoundTrip(v: int)
    requires FitsInt64(v)
    ensures Int64BE(Word64BE(v)) == v
  {
    Int32RoundTrip(v / 0x1_0000_0000);
    WordsKeepLowBits(v);
    assert Word64BE(v)[4..] == Word32BE(v);
    Int32BEPrefix(Word32BE(v / 0x1_0000_0000), Word32BE(v));
    assert v == 0x1_0000_0000 * (v / 0x1_0000_0000) + v % 0x1_0000_0000;
  }

  lemma Int32BEPrefix(b: seq<byte>, more: seq<byte>)
    requires |b| >= 4
    ensures UInt32BE(b + more) == UInt32BE(b)
    ensures UInt32LE(b + more) == UInt32LE(b)
  {
  }

  // --- alignment and streams --------------------------------------------

  function Repeat(b: byte, n: nat): (r: seq<byte>)
    ensures |r| == n
    ensures forall i | 0 <= i < n :: r[i] == b
  {
    seq(n, i => b)
  }

  /** The bytes needed to reach the next multiple of four. */
  function Padding(n: nat): (p: nat)
    ensures p < 4 && (n + p) % 4 == 0
  {
    (4 - n % 4) % 4
  }

  /** The writers spell the same padding `(4 - n) & 3`. */
  lemma PaddingByMask(n: nat)
    ensures Padding(n) == (4 - n) % 4
  {
    assert (4 - n) % 4 == (4 - n % 4) % 4;
  }

  /** Reads `n` bytes, or fails when the stream ends first (recvPackets). */
  function Recv(s: seq<byte>, n: nat): Read<seq<byte>> {
    if |s| < n then Short else Read(s[..n], s[n..])
  }

  /** Reads `n` bytes and drops their padding (recvPacketsAlignment). */
  function RecvAligned(s: seq<byte>, n: nat): Read<seq<byte>> {
    if |s| < n + Padding(n) then Short else Read(s[..n], s[n + Padding(n)..])
  }

  /** Reads one big-endian word. */
  function RecvInt(s: seq<byte>): Read<int> {
    if |s| < 4 then Short else Read(Int32BE(s), s[4..])
  }

  lemma RecvAlignedReads(b: seq<byte>, fill: seq<byte>, rest: seq<byte>)
    requires |fill| == Padding(|b|)
    ensures RecvAligned(b + fill + rest, |b|) == Read(b, rest)
  {
    var s := b + fill + rest;
    assert s[..|b|] == b;
    assert s[|b| + |fill|..] == rest;
  }

  lemma RecvIntReads(v: int, rest: seq<byte>)
    ensures RecvInt(Word32BE(v) + rest) == Read(ToInt32(v), rest)
    ensures FitsInt32(v) ==> RecvInt(Word32BE(v) + rest) == Read(v, rest)
  {
    Int32RoundTrip(v);
    Int32BEPrefix(Word32BE(v), rest);
    assert (Word32BE(v) + rest)[4..] == rest;
  }

  /** XDR opaque data: a big-endian length, the data, zeros up to a multiple of four. */
  function Xdr(data: seq<byte>): (r: seq<byte>) {
    Word32BE(|data|) + data + Repeat(0, Padding(|data|))
  }

  /** Builds the XDR form by indexed writes into a zeroed buffer of the exact size. */
  method XdrBytes(bs: seq<byte>) returns (buf: array<byte>)
    ensures fresh(buf)
    ensures buf[..] == Xdr(bs)
  {
    var n := |bs|;
    var padding := 0;
    if n % 4 != 0 {
      padding := 4 - n % 4;
    }
    buf := new byte[4 + n + padding](_ => 0);
    ghost var head := Word32BE(n);
    HeadBytes(n);
    hide *;
    buf[0] := n / 256 / 256 / 256 % 256;
    buf[1] := n / 256 / 256 % 256;
    buf[2] := n / 256 % 256;
    buf[3] := n % 256;
    for i := 0 to n
      invariant forall k | 0 <= k < 4 :: buf[k] == head[k]
      invariant forall k | 0 <= k < i :: buf[4 + k] == bs[k]
      invariant forall k | 4 + i <= k < buf.Length :: buf[k] == 0
    {
      buf[4 + i] := bs[i];
    }
    XdrLayout(bs, padding, buf[..]);
  }

  lemma HeadBytes(n: nat)
    ensures var head := Word32BE(n);
            |head| == 4 && head[0] == n / 256 / 256 / 256 % 256 && head[1] == n / 256 / 256 % 256
            && head[2] == n / 256 % 256 && head[3] == n % 256
  {
  }

  lemma XdrLayout(bs: seq<byte>, padding: nat, s: seq<byte>)
    requires padding == (if |bs| % 4 == 0 then 0 else 4 - |bs| % 4) && |s| == 4 + |bs| + padding
    requires forall k | 0 <= k < 4 :: s[k] == Word32BE(|bs|)[k]
    requires forall k | 0 <= k < |bs| :: s[4 + k] == bs[k]
    requires forall k | 4 + |bs| <= k < |s| :: s[k] == 0
    ensures s == Xdr(bs)
  {
    var n := |bs|;
    assert padding == Padding(n) && |Word32BE(n)| == 4;
    hide Word32BE;
    assert s == s[..4] + s[4..4 + n] + s[4 + n..];
    assert s[..4] == Word32BE(n);
    assert s[4 + n..] == Repeat(0, padding);
    var body := s[4..4 + n];
    forall k | 0 <= k < n
      ensures body[k] == bs[k]
    {
      assert body[k] == s[4 + k];
    }
    assert body == bs;
  }

  /** Reading the length word and then that many aligned bytes undoes the XDR form and
      leaves the stream right behind it. */
  lemma XdrRoundTrip(data: seq<byte>, rest: seq<byte>)
    requires |data| <= MAX_INT32
    ensures var len := RecvInt(Xdr(data) + rest);
            len.Read? && len.taken == |data| && RecvAligned(len.rest, len.taken) == Read(data, rest)
  {
    var body := data + Repeat(0, Padding(|data|)) + rest;
    assert Xdr(data) + rest == Word32BE(|data|) + body;
    RecvIntReads(|data|, body);
    RecvAlignedReads(data, Repeat(0, Padding(|data|)), rest);
  }
}
