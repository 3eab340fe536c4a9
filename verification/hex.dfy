/** Commit hashes and their short form: go-git's `plumbing.Hash` is a 20-byte
    SHA-1 digest whose `String()` is `hex.EncodeToString`, lowercase. */
module Hex {
  import opened Prelude

  /** A SHA-1 object id. */
  type Hash = h: seq<byte> | |h| == 20 witness seq(20, _ => 0)

  /** '0'-'9' then 'a'-'f', as `hex.EncodeToString` writes them. */
  predicate IsHexDigit(c: char) {
    '0' <= c <= '9' || 'a' <= c <= 'f'
  }

  /** The lowercase digit of a value below 16. */
  function Digit(v: int): (c: char)
    requires 0 <= v < 16
    ensures IsHexDigit(c)
  {
    if v < 10 then (48 + v) as char else (87 + v) as char
  }

  /** Distinct values have distinct digits. */
  lemma DigitInjective(a: int, b: int)
    requires 0 <= a < 16 && 0 <= b < 16
    ensures Digit(a) == Digit(b) <==> a == b
  {
  }

  /** `hex.EncodeToString`: for each byte, its high digit then its low digit. */
  function Encode(bs: seq<byte>): (r: string)
    ensures |r| == 2 * |bs|
    ensures forall k :: 0 <= k < |r| ==> IsHexDigit(r[k])
  {
    seq(2 * |bs|, k requires 0 <= k < 2 * |bs| =>
      if k % 2 == 0 then Digit(bs[k / 2] / 16) else Digit(bs[k / 2] % 16))
  }

  /** Different byte strings have different encodings. */
  lemma EncodeInjective(a: seq<byte>, b: seq<byte>)
    ensures Encode(a) == Encode(b) <==> a == b
  {
    if Encode(a) == Encode(b) {
      var ea, eb := Encode(a), Encode(b);
      forall i | 0 <= i < |a| ensures a[i] == b[i] {
        assert ea[2 * i] == eb[2 * i] && ea[2 * i + 1] == eb[2 * i + 1];
        assert (2 * i) % 2 == 0 && (2 * i) / 2 == i;
        assert (2 * i + 1) % 2 == 1 && (2 * i + 1) / 2 == i;
        DigitInjective(a[i] / 16, b[i] / 16);
        DigitInjective(a[i] % 16, b[i] % 16);
        assert a[i] == 16 * (a[i] / 16) + a[i] % 16;
        assert b[i] == 16 * (b[i] / 16) + b[i] % 16;
      }
    }
  }

  /** The two digits of one byte. */
  function ByteDigits(b: byte): string
  {
    [Digit(b / 16), Digit(b % 16)]
  }

  /** `ref.Hash().String()[:7]`: the first seven hex digits of the hash,
      that is the digits of its first three bytes and the high digit of the
      fourth. The string is always 40 characters, so the slice never panics. */
  function ShortSha(h: Hash): (r: string)
    ensures r == ByteDigits(h[0]) + ByteDigits(h[1]) + ByteDigits(h[2]) + [Digit(h[3] / 16)]
  {
    var e := Encode(h);
    assert e[..7] == [e[0], e[1], e[2], e[3], e[4], e[5], e[6]];
    e[..7]
  }

  /** A byte is determined by its two digits. */
  lemma ByteDigitsInjective(a: byte, b: byte)
    ensures ByteDigits(a) == ByteDigits(b) <==> a == b
  {
    if ByteDigits(a) == ByteDigits(b) {
      assert ByteDigits(a)[0] == ByteDigits(b)[0] && ByteDigits(a)[1] == ByteDigits(b)[1];
      DigitInjective(a / 16, b / 16);
      DigitInjective(a % 16, b % 16);
      assert a == 16 * (a / 16) + a % 16;
      assert b == 16 * (b / 16) + b % 16;
    }
  }

  /** Two commits get the same short id exactly when their hashes agree on
      the first 28 bits: three full bytes and the high nibble of the fourth. */
  lemma ShortShaIdentifiesPrefix(a: Hash, b: Hash)
    ensures ShortSha(a) == ShortSha(b) <==> a[..3] == b[..3] && a[3] / 16 == b[3] / 16
  {
    var sa, sb := ShortSha(a), ShortSha(b);
    if sa == sb {
      assert sa[..2] == ByteDigits(a[0]) && sb[..2] == ByteDigits(b[0]);
      assert sa[2..4] == ByteDigits(a[1]) && sb[2..4] == ByteDigits(b[1]);
      assert sa[4..6] == ByteDigits(a[2]) && sb[4..6] == ByteDigits(b[2]);
      ByteDigitsInjective(a[0], b[0]);
      ByteDigitsInjective(a[1], b[1]);
      ByteDigitsInjective(a[2], b[2]);
      assert sa[6] == sb[6];
      DigitInjective(a[3] / 16, b[3] / 16);
      assert a[..3] == [a[0], a[1], a[2]] && b[..3] == [b[0], b[1], b[2]];
    } else if a[..3] == b[..3] {
      assert a[0] == a[..3][0] && a[1] == a[..3][1] && a[2] == a[..3][2];
      assert b[0] == b[..3][0] && b[1] == b[..3][1] && b[2] == b[..3][2];
    }
  }

  /** Every character of a short id is a lowercase hex digit, so it never
      contains the '-' that separates the parts of an artifact name. */
  lemma ShortShaIsHex(h: Hash)
    ensures |ShortSha(h)| == 7
    ensures forall k :: 0 <= k < 7 ==> IsHexDigit(ShortSha(h)[k])
    ensures '-' !in ShortSha(h)
  {
    var s := ShortSha(h);
    forall k | 0 <= k < 7 ensures IsHexDigit(s[k]) {
      assert s[k] in [s[0], s[1], s[2], s[3], s[4], s[5], s[6]];
    }
  }
}
