/** Naturals as big-endian byte sequences of any length. */
module BigEndian {
  import opened Bytes
  import opened ModularPower

  /** The number a big-endian byte sequence denotes. */
  function Big(s: seq<byte>): nat {
    if s == [] then 0 else Big(s[..|s| - 1]) * 256 + s[|s| - 1]
  }

  method BytesToBigInt(v: seq<byte>) returns (r: nat)
    ensures r == Big(v)
  {
    r := 0;
    for i := 0 to |v|
      invariant r == Big(v[..i])
    {
      assert v[..i + 1][..i] == v[..i];
      r := r * 256;
      r := r + v[i];
    }
    assert v[..|v|] == v;
  }

  /** `v` with its low `i` bytes dropped. */
  function Shifted(v: nat, i: nat): nat {
    if i == 0 then v else Shifted(v, i - 1) / 256
  }

  function ByteAt(v: nat, i: nat): byte {
    Shifted(v, i) % 256
  }

  /** The low `len` bytes of `v`, big-endian. */
  function FixedBytes(v: nat, len: nat): (s: seq<byte>)
    ensures |s| == len
    ensures forall j | 0 <= j < len :: s[j] == ByteAt(v, len - 1 - j)
  {
    seq(len, j requires 0 <= j < len => ByteAt(v, len - 1 - j))
  }

  lemma {:induction false} ShiftedStep(v: nat, i: nat)
    ensures Shifted(v, i + 1) == Shifted(v / 256, i)
  {
    if i > 0 {
      ShiftedStep(v, i - 1);
    }
  }

  lemma FixedBytesStep(v: nat, len: nat)
    ensures FixedBytes(v, len + 1) == FixedBytes(v / 256, len) + [v % 256]
  {
    forall j | 0 <= j < len
      ensures FixedBytes(v, len + 1)[j] == FixedBytes(v / 256, len)[j]
    {
      ShiftedStep(v, len - 1 - j);
      assert FixedBytes(v, len + 1)[j] == ByteAt(v, (len - 1 - j) + 1);
    }
    assert FixedBytes(v, len + 1)[len] == ByteAt(v, 0);
  }

  lemma NextRemainder(v: nat, m: nat)
    requires m > 0
    ensures v % (256 * m) == v / 256 % m * 256 + v % 256
  {
    var q, r, d := v / 256 / m, v / 256 % m, v % 256;
    assert v / 256 == m * q + r && r < m;
    Associate(256, m, q);
    RemainderIs(v, 256 * m, q, r * 256 + d);
  }

  lemma {:induction false} FixedBytesValue(v: nat, len: nat)
    ensures Pow(256, len) > 0
    ensures Big(FixedBytes(v, len)) == v % Pow(256, len)
  {
    if len == 0 {
    } else {
      FixedBytesStep(v, len - 1);
      FixedBytesValue(v / 256, len - 1);
      var s, m := FixedBytes(v / 256, len - 1), Pow(256, len - 1);
      assert (s + [v % 256])[..len - 1] == s;
      NextRemainder(v, m);
    }
  }

  lemma {:induction false} BigBound(s: seq<byte>)
    ensures Big(s) < Pow(256, |s|)
  {
    if s != [] {
      BigBound(s[..|s| - 1]);
    }
  }

  /** The words of the wire are big-endian: the highest byte comes first, and the bytes denote
      the number modulo 2^32 or 2^64. */
  lemma WordsAreBigEndian(v: int)
    ensures |Word32BE(v)| == 4 && Big(Word32BE(v)) == v % 0x1_0000_0000
    ensures |Word64BE(v)| == 8 && Big(Word64BE(v)) == v % 0x1_0000_0000_0000_0000
  {
    BigOfWord(v);
    BigOfWord(v / 0x1_0000_0000);
    TwoWords(v);
    hide Word32BE, Big;
    BigConcat(Word32BE(v / 0x1_0000_0000), Word32BE(v));
    assert Pow(256, 4) == 0x1_0000_0000;
  }

  lemma BigOfWord(v: int)
    ensures |Word32BE(v)| == 4 && Big(Word32BE(v)) == v % 0x1_0000_0000
  {
    assert |Word32BE(v)| == 4;
    BigOfFour(Word32BE(v));
    WordsKeepLowBits(v);
    hide Word32BE, Big, UInt32BE;
  }

  lemma BigOfFour(s: seq<byte>)
    requires |s| == 4
    ensures Big(s) == UInt32BE(s)
  {
    var b0: int, b1: int, b2: int := s[0], s[1], s[2];
    assert s[..3][..2] == s[..2] && s[..2][..1] == s[..1] && s[..1][..0] == [];
    assert Big(s[..1]) == b0;
    assert Big(s[..2]) == 256 * b0 + b1;
    assert Big(s[..3]) == 0x1_0000 * b0 + 256 * b1 + b2;
  }

  lemma TwoWords(v: int)
    ensures Word64BE(v) == Word32BE(v / 0x1_0000_0000) + Word32BE(v)
    ensures v % 0x1_0000_0000_0000_0000 == v / 0x1_0000_0000 % 0x1_0000_0000 * 0x1_0000_0000 + v % 0x1_0000_0000
  {
    hide Word32BE;
  }

  /** The little-endian forms are the big-endian ones backwards, and are read backwards. */
  lemma LittleIsReversed(v: int, b: seq<byte>)
    requires |b| >= 4
    ensures |Word32BE(v)| == 4 && var w := Word32BE(v); Word32LE(v) == [w[3], w[2], w[1], w[0]]
    ensures UInt32LE(b) == Big([b[3], b[2], b[1], b[0]]) && UInt32BE(b) == Big(b[..4])
    ensures UInt16LE(b) == Big([b[1], b[0]])
  {
    BigOfFour([b[3], b[2], b[1], b[0]]);
    BigOfFour(b[..4]);
    BigOfTwo(b[1], b[0]);
    hide Big;
  }

  lemma BigOfTwo(high: byte, low: byte)
    ensures Big([high, low]) == 256 * (high as int) + (low as int)
  {
    assert [high, low][..1] == [high] && [high][..0] == [];
    assert Big([high]) == high;
  }

  lemma {:induction false} BigConcat(s: seq<byte>, t: seq<byte>)
    ensures Big(s + t) == Big(s) * Pow(256, |t|) + Big(t)
  {
    if t == [] {
      assert s + t == s;
    } else {
      var t', last := t[..|t| - 1], t[|t| - 1];
      assert (s + t)[..|s + t| - 1] == s + t';
      BigConcat(s, t');
      assert Pow(256, |t|) == 256 * Pow(256, |t'|);
      Associate(Big(s), 256, Pow(256, |t'|));
      assert (Big(s) * Pow(256, |t'|) + Big(t')) * 256 + last
          == Big(s) * Pow(256, |t|) + (Big(t') * 256 + last);
    }
  }
}
