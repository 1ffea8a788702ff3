/**
 * Byte strings, and the four-byte unsigned big-endian integer that carries the
 * ciphertext length of a frame: `int.to_bytes(4, 'big')` on the sending side and
 * `int.from_bytes(..., 'big')` on the receiving side.
 */
module Bytes {
  import opened Wrappers

  newtype Byte = b: int | 0 <= b < 256

  type Bytes = seq<Byte>

  /** The first length that `to_bytes(4, 'big')` cannot encode. */
  const LengthLimit: nat := 0x1_0000_0000

  /** Slices of a concatenation that lie within its first part, and what follows a cut in the first part. */
  lemma ConcatSlices<T>(a: seq<T>, b: seq<T>, i: nat, j: nat)
    requires i <= j <= |a|
    ensures (a + b)[i..j] == a[i..j]
    ensures (a + b)[..j] == a[..j]
    ensures (a + b)[i..] == a[i..] + b
  {
  }

  /** Taking from, or dropping from, what is left after dropping the first i elements. */
  lemma DropSlices<T>(w: seq<T>, i: nat, n: nat)
    requires i + n <= |w|
    ensures w[i..][..n] == w[i..i + n]
    ensures w[i..][n..] == w[i + n..]
  {
  }

  function Pow256(k: nat): (r: nat)
    ensures r >= 1
  {
    if k == 0 then 1 else 256 * Pow256(k - 1)
  }

  /** `int.from_bytes(s, 'big')`: the unsigned big-endian value of s, whatever its length. */
  function FromBigEndian(s: Bytes): (r: nat)
    ensures r < Pow256(|s|)
  {
    if s == [] then 0
    else
      var high := FromBigEndian(s[..|s| - 1]);
      assert high * 256 <= (Pow256(|s| - 1) - 1) * 256;
      high * 256 + s[|s| - 1] as nat
  }

  /**
   * `n.to_bytes(4, 'big')`, or None where Python raises OverflowError because n
   * needs more than four bytes.
   */
  function ToBigEndian4(n: nat): (r: Option<Bytes>)
    ensures r.Some? <==> n < LengthLimit
    ensures r.Some? ==> |r.value| == 4
  {
    if n < LengthLimit then
      Some([(n / 256 / 256 / 256) as Byte, (n / 256 / 256 % 256) as Byte,
            (n / 256 % 256) as Byte, (n % 256) as Byte])
    else
      None
  }

  /** At most four bytes decode to a length below the limit. */
  lemma FromBigEndianShort(s: Bytes)
    requires |s| <= 4
    ensures FromBigEndian(s) < LengthLimit
  {
    assert Pow256(4) == LengthLimit;
    if |s| < 4 {
      assert Pow256(|s|) <= Pow256(3) by {
        assert Pow256(0) <= Pow256(1) <= Pow256(2) <= Pow256(3);
      }
    }
  }

  /** Unfolds `FromBigEndian` on four bytes: the most significant byte comes first. */
  lemma FromBigEndianOfFour(s: Bytes)
    requires |s| == 4
    ensures FromBigEndian(s) == ((s[0] as nat * 256 + s[1] as nat) * 256 + s[2] as nat) * 256 + s[3] as nat
  {
    assert s[..3][..2][..1][..0] == [];
    assert s[..3][..2][..1] == [s[0]];
    assert s[..3][..2] == [s[0], s[1]];
    assert s[..3] == [s[0], s[1], s[2]];
    assert FromBigEndian(s[..3][..2][..1]) == s[0] as nat;
  }

  /** Decoding what the server encodes gives back the length it encoded. */
  lemma DecodeEncode(n: nat)
    requires n < LengthLimit
    ensures FromBigEndian(ToBigEndian4(n).value) == n
  {
    FromBigEndianOfFour(ToBigEndian4(n).value);
  }

  /** Encoding the decoded value of four bytes gives back those bytes: the encoding is onto. */
  lemma EncodeDecode(s: Bytes)
    requires |s| == 4
    ensures FromBigEndian(s) < LengthLimit
    ensures ToBigEndian4(FromBigEndian(s)) == Some(s)
  {
    FromBigEndianOfFour(s);
    var n := FromBigEndian(s);
    var a, b, c, d := s[0] as nat, s[1] as nat, s[2] as nat, s[3] as nat;
    assert n / 256 == (a * 256 + b) * 256 + c;
    assert n / 256 / 256 == a * 256 + b;
    assert n / 256 / 256 / 256 == a;
    assert n % 256 == d && n / 256 % 256 == c && n / 256 / 256 % 256 == b;
    var r := ToBigEndian4(n).value;
    assert r[0] == s[0] && r[1] == s[1] && r[2] == s[2] && r[3] == s[3];
    assert r == s;
  }

  /** Two lengths with the same prefix are the same length. */
  lemma EncodingInjective(m: nat, n: nat)
    requires m < LengthLimit && n < LengthLimit
    requires ToBigEndian4(m) == ToBigEndian4(n)
    ensures m == n
  {
    DecodeEncode(m);
    DecodeEncode(n);
  }
}
