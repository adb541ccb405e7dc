/** Object identifiers: the 40-character lowercase hex form that keys the
    `objs` table, the 20-byte binary form the pack indexer hands out, and the
    normalisation `_to_hexsha` between them. A Python 2 `str` is a byte
    string; the model's `string` stands for it, and `ByteOf` reads a character
    as the byte it holds. */
module HexSha {
  import opened Wrappers

  /** Every character is a byte, as in a Python 2 `str`. */
  predicate IsByteString(s: string) {
    forall i :: 0 <= i < |s| ==> s[i] as int < 256
  }

  /** A lowercase hex digit, `0`-`9` or `a`-`f`. */
  predicate IsHexDigit(c: char) {
    '0' <= c <= '9' || 'a' <= c <= 'f'
  }

  /** Every character is a lowercase hex digit. */
  predicate IsLowerHex(s: string) {
    forall i :: 0 <= i < |s| ==> IsHexDigit(s[i])
  }

  /** The lowercase hex digit of a nibble. */
  function HexDigit(n: nat): (c: char)
    requires n < 16
    ensures IsHexDigit(c)
  {
    if n < 10 then ('0' as int + n) as char else ('a' as int + n - 10) as char
  }

  /** The byte a character of a Python 2 `str` holds (the reduction is the
      identity on byte strings). */
  function ByteOf(c: char): nat {
    (c as int) % 256
  }

  /** The value of a lowercase hex digit. */
  function DigitValue(c: char): (n: nat)
    ensures n < 16
  {
    if '0' <= c <= '9' then c as int - '0' as int
    else if 'a' <= c <= 'f' then c as int - 'a' as int + 10
    else 0
  }

  /** `sha_to_hex`: two lowercase hex digits per byte, high nibble first. */
  function ShaToHex(s: string): (r: string)
    ensures |r| == 2 * |s|
    ensures IsLowerHex(r)
    decreases |s|
  {
    if s == [] then ""
    else
      var b := ByteOf(s[0]);
      [HexDigit(b / 16), HexDigit(b % 16)] + ShaToHex(s[1..])
  }

  /** The inverse conversion, from hex digit pairs to bytes (an odd trailing
      digit is dropped). */
  function HexToSha(h: string): (r: string)
    ensures |r| == |h| / 2
    ensures IsByteString(r)
    decreases |h|
  {
    if |h| < 2 then ""
    else [(16 * DigitValue(h[0]) + DigitValue(h[1])) as char] + HexToSha(h[2..])
  }

  lemma DigitValueOfDigit(n: nat)
    requires n < 16
    ensures DigitValue(HexDigit(n)) == n
  {
  }

  lemma DigitOfDigitValue(c: char)
    requires IsHexDigit(c)
    ensures HexDigit(DigitValue(c)) == c
  {
  }

  lemma NibblesOfByte(c: char)
    requires c as int < 256
    ensures ByteOf(c) == c as int
    ensures 16 * (ByteOf(c) / 16) + ByteOf(c) % 16 == c as int
  {
  }

  /** Decoding the hex form gives back the binary sha. */
  lemma {:induction false} HexOfShaRoundTrip(s: string)
    requires IsByteString(s)
    ensures HexToSha(ShaToHex(s)) == s
    decreases |s|
  {
    if s != [] {
      var b := ByteOf(s[0]);
      var hex := ShaToHex(s);
      var hi, lo := b / 16, b % 16;
      assert hex == [HexDigit(hi), HexDigit(lo)] + ShaToHex(s[1..]);
      DigitValueOfDigit(hi);
      DigitValueOfDigit(lo);
      assert hex[2..] == ShaToHex(s[1..]);
      HexOfShaRoundTrip(s[1..]);
      assert s[0] as int < 256;
      NibblesOfByte(s[0]);
      assert hex[0] == HexDigit(hi) && hex[1] == HexDigit(lo);
      var d0, d1 := DigitValue(hex[0]), DigitValue(hex[1]);
      assert d0 == hi && d1 == lo;
      assert (16 * d0 + d1) as char == s[0];
      assert HexToSha(hex) == [(16 * d0 + d1) as char] + HexToSha(hex[2..]);
    }
  }

  /** The byte two hex digits decode to encodes back to those digits. */
  lemma HexPairRoundTrip(a: char, b: char)
    requires IsHexDigit(a) && IsHexDigit(b)
    ensures var c := (16 * DigitValue(a) + DigitValue(b)) as char;
      HexDigit(ByteOf(c) / 16) == a && HexDigit(ByteOf(c) % 16) == b
  {
    var hi, lo := DigitValue(a), DigitValue(b);
    var n := 16 * hi + lo;
    assert ByteOf(n as char) == n;
    assert n / 16 == hi && n % 16 == lo;
    DigitOfDigitValue(a);
    DigitOfDigitValue(b);
  }

  lemma LowerHexDrop(h: string, k: nat)
    requires k <= |h| && IsLowerHex(h)
    ensures IsLowerHex(h[k..])
  {
    forall i | 0 <= i < |h[k..]| ensures IsHexDigit(h[k..][i]) { assert h[k..][i] == h[i + k]; }
  }

  /** Encoding the decoded bytes gives back a lowercase hex string. */
  lemma {:induction false} ShaOfHexRoundTrip(h: string)
    requires |h| % 2 == 0 && IsLowerHex(h)
    ensures ShaToHex(HexToSha(h)) == h
    decreases |h|
  {
    if h != [] {
      var c := (16 * DigitValue(h[0]) + DigitValue(h[1])) as char;
      var bytes := HexToSha(h);
      assert bytes == [c] + HexToSha(h[2..]);
      HexPairRoundTrip(h[0], h[1]);
      LowerHexDrop(h, 2);
      ShaOfHexRoundTrip(h[2..]);
      assert bytes[0] == c && bytes[1..] == HexToSha(h[2..]);
      var b := ByteOf(c);
      assert ShaToHex(bytes) == [HexDigit(b / 16), HexDigit(b % 16)] + ShaToHex(bytes[1..]);
      assert h == [h[0], h[1]] + h[2..];
    }
  }

  /** `_to_hexsha`: a 40-character sha is returned as it is (it is not checked
      to be hex), a 20-character sha is hex-encoded, any other length raises
      ValueError. */
  function ToHexSha(sha: string): (r: Result<string>)
    ensures |sha| == 40 ==> r == Ok(sha)
    ensures |sha| == 20 ==> r.Ok? && |r.value| == 40 && IsLowerHex(r.value)
    ensures |sha| != 20 && |sha| != 40 ==> r == Err(ValueError)
  {
    if |sha| == 40 then Ok(sha)
    else if |sha| == 20 then
      Ok(ShaToHex(sha))
    else Err(ValueError)
  }

  /** Hex-encoding loses nothing: the binary sha is recovered from the
      normalised form, so two binary shas never share a row key. */
  lemma ToHexShaRecoversSha(sha: string)
    requires |sha| == 20 && IsByteString(sha)
    ensures ToHexSha(sha).Ok? && HexToSha(ToHexSha(sha).value) == sha
  {
    HexOfShaRoundTrip(sha);
  }
}
