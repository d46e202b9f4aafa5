/** Fixed-width big-endian field encodings shared by every index key, and the
    byte-lexicographic order under which the store keeps its keys. */
module Bytes {

  /** One octet of a key (Go's `byte`). */
  type Byte = x: int | 0 <= x < 256

  /** Go's `uint64`: the range of a sequence identifier. */
  type Uint64 = x: int | 0 <= x < 0x1_0000_0000_0000_0000

  /** Width in bytes of an encoded sequence identifier or timestamp. */
  const Uint64Width: nat := 8

  /** 256^width: the number of values a field of `width` bytes can hold. */
  function Pow256(width: nat): (p: nat)
    ensures p >= 1
  {
    if width == 0 then 1 else 256 * Pow256(width - 1)
  }

  lemma Pow256Uint64Width()
    ensures Pow256(Uint64Width) == 0x1_0000_0000_0000_0000
  {
  }

  /** `n` written as `width` bytes, most significant byte first. */
  function BigEndian(n: nat, width: nat): (r: seq<Byte>)
    requires n < Pow256(width)
    ensures |r| == width
  {
    if width == 0 then [] else BigEndian(n / 256, width - 1) + [n % 256]
  }

  /** The number a big-endian byte string stands for. */
  function FromBigEndian(s: seq<Byte>): (n: nat)
    ensures n < Pow256(|s|)
  {
    if s == [] then 0 else FromBigEndian(s[..|s| - 1]) * 256 + s[|s| - 1]
  }

  lemma {:induction false} DecodeEncode(n: nat, width: nat)
    requires n < Pow256(width)
    ensures FromBigEndian(BigEndian(n, width)) == n
  {
    if width > 0 {
      var s := BigEndian(n, width);
      assert s[..|s| - 1] == BigEndian(n / 256, width - 1);
      DecodeEncode(n / 256, width - 1);
    }
  }

  lemma {:induction false} EncodeDecode(s: seq<Byte>)
    ensures BigEndian(FromBigEndian(s), |s|) == s
  {
    if s != [] {
      var init := s[..|s| - 1];
      EncodeDecode(init);
      var n := FromBigEndian(s);
      assert n / 256 == FromBigEndian(init);
      assert n % 256 == s[|s| - 1];
      assert s == init + [s[|s| - 1]];
    }
  }

  /** Two numbers of the same width have the same encoding exactly when they are equal. */
  lemma BigEndianInjective(n: nat, m: nat, width: nat)
    requires n < Pow256(width) && m < Pow256(width)
    ensures BigEndian(n, width) == BigEndian(m, width) <==> n == m
  {
    DecodeEncode(n, width);
    DecodeEncode(m, width);
  }

  /** `a` sorts strictly before `b` under byte-wise comparison (Go's
      `bytes.Compare(a, b) < 0`); a proper prefix sorts first. */
  predicate LexLess(a: seq<Byte>, b: seq<Byte>)
  {
    if a == [] then b != []
    else b != [] && (a[0] < b[0] || (a[0] == b[0] && LexLess(a[1..], b[1..])))
  }

  /** Comparing two keys whose heads have equal width: the heads decide, and
      only equal heads hand the decision to the tails. */
  lemma {:induction false} LexLessConcat(a: seq<Byte>, c: seq<Byte>, b: seq<Byte>, d: seq<Byte>)
    requires |a| == |b|
    ensures LexLess(a + c, b + d) <==> LexLess(a, b) || (a == b && LexLess(c, d))
  {
    if a == [] {
      assert a + c == c;
      assert b + d == d;
    } else {
      assert (a + c)[1..] == a[1..] + c;
      assert (b + d)[1..] == b[1..] + d;
      LexLessConcat(a[1..], c, b[1..], d);
      assert a == [a[0]] + a[1..];
      assert b == [b[0]] + b[1..];
    }
  }

  /** Big-endian encoding of one width preserves numeric order in both directions. */
  lemma {:induction false} BigEndianOrder(n: nat, m: nat, width: nat)
    requires n < Pow256(width) && m < Pow256(width)
    ensures n < m <==> LexLess(BigEndian(n, width), BigEndian(m, width))
  {
    if width > 0 {
      var hn, hm := BigEndian(n / 256, width - 1), BigEndian(m / 256, width - 1);
      BigEndianOrder(n / 256, m / 256, width - 1);
      BigEndianInjective(n / 256, m / 256, width - 1);
      LexLessConcat(hn, [n % 256], hm, [m % 256]);
      assert [n % 256][1..] == [] && [m % 256][1..] == [];
      assert LexLess([n % 256], [m % 256]) <==> n % 256 < m % 256;
    }
  }

  /** The shared 8-byte big-endian encoder: weave's sequence identifiers
      (`weavetest.SequenceID`) and the time-ordered index's timestamps. */
  function EncodeUint64(n: Uint64): (r: seq<Byte>)
    ensures |r| == Uint64Width && FromBigEndian(r) == n
  {
    Pow256Uint64Width();
    DecodeEncode(n, Uint64Width);
    BigEndian(n, Uint64Width)
  }

  /** Every 8-byte string is the encoding of exactly one `Uint64`. */
  lemma EncodeUint64Decodes(s: seq<Byte>)
    requires |s| == Uint64Width
    ensures FromBigEndian(s) < 0x1_0000_0000_0000_0000
    ensures EncodeUint64(FromBigEndian(s)) == s
  {
    Pow256Uint64Width();
    EncodeDecode(s);
  }

  /** Sequence identifiers sort under byte comparison as their numbers do. */
  lemma EncodeUint64Order(n: Uint64, m: Uint64)
    ensures n < m <==> LexLess(EncodeUint64(n), EncodeUint64(m))
  {
    Pow256Uint64Width();
    BigEndianOrder(n, m, Uint64Width);
  }

  /** `SequenceID(1)` is the byte string `{0,0,0,0,0,0,0,1}`. */
  lemma EncodeUint64One()
    ensures EncodeUint64(1) == [0, 0, 0, 0, 0, 0, 0, 1]
  {
  }
}
