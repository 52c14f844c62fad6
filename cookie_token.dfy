/**
 * Session cookie values.  `generate_cookie` returns `secrets.token_hex(16)`:
 * sixteen bytes from the operating system's random source, written as
 * lower-case hexadecimal, high nibble first.  The random bytes are a
 * parameter here; the encoding is modelled exactly and proved injective, so
 * two different draws never yield the same cookie.
 */
module CookieToken {

  type byte = b: int | 0 <= b < 256

  /** Number of random bytes behind one session cookie. */
  const CookieBytes: nat := 16

  predicate IsLowerHexDigit(c: char) {
    '0' <= c <= '9' || 'a' <= c <= 'f'
  }

  predicate IsLowerHex(s: string) {
    forall i :: 0 <= i < |s| ==> IsLowerHexDigit(s[i])
  }

  /** The digit for a nibble, as Python's hexadecimal encoders write it. */
  function HexDigit(n: nat): (c: char)
    requires n < 16
    ensures IsLowerHexDigit(c)
    ensures DigitValue(c) == n
  {
    if n < 10 then ('0' as int + n) as char else ('a' as int + n - 10) as char
  }

  /** The nibble a digit stands for. */
  function DigitValue(c: char): (n: nat)
    requires IsLowerHexDigit(c)
    ensures n < 16
  {
    if c <= '9' then c as int - '0' as int else c as int - 'a' as int + 10
  }

  lemma DigitOfValue(c: char)
    requires IsLowerHexDigit(c)
    ensures HexDigit(DigitValue(c)) == c
  {
  }

  /** `bytes.hex()`: two digits per byte, high nibble first. */
  function TokenHex(bytes: seq<byte>): (s: string)
    ensures |s| == 2 * |bytes|
    ensures IsLowerHex(s)
  {
    if bytes == [] then []
    else [HexDigit(bytes[0] / 16), HexDigit(bytes[0] % 16)] + TokenHex(bytes[1..])
  }

  /** `bytes.fromhex` restricted to what `TokenHex` produces. */
  function HexDecode(s: string): (bytes: seq<byte>)
    requires |s| % 2 == 0 && IsLowerHex(s)
    ensures 2 * |bytes| == |s|
  {
    if s == [] then []
    else [16 * DigitValue(s[0]) + DigitValue(s[1])] + HexDecode(s[2..])
  }

  /** Decoding recovers the random bytes: the encoding loses nothing. */
  lemma {:induction false} DecodeTokenHex(bytes: seq<byte>)
    ensures HexDecode(TokenHex(bytes)) == bytes
  {
    if bytes != [] {
      var s := TokenHex(bytes);
      assert s[2..] == TokenHex(bytes[1..]);
      DecodeTokenHex(bytes[1..]);
    }
  }

  /** Every even-length lower-case hex string is the encoding of its decoding. */
  lemma {:induction false} EncodeHexDecode(s: string)
    requires |s| % 2 == 0 && IsLowerHex(s)
    ensures TokenHex(HexDecode(s)) == s
  {
    if s != [] {
      DigitOfValue(s[0]);
      DigitOfValue(s[1]);
      EncodeHexDecode(s[2..]);
    }
  }

  /** `generate_cookie()`, given the bytes `token_hex(16)` draws. */
  function GenerateCookie(entropy: seq<byte>): (cookie: string)
    requires |entropy| == CookieBytes
    ensures |cookie| == 32 && IsLowerHex(cookie)
    ensures HexDecode(cookie) == entropy
  {
    DecodeTokenHex(entropy);
    TokenHex(entropy)
  }

  /** Different random draws give different cookies. */
  lemma GenerateCookieInjective(e1: seq<byte>, e2: seq<byte>)
    requires |e1| == CookieBytes && |e2| == CookieBytes && e1 != e2
    ensures GenerateCookie(e1) != GenerateCookie(e2)
  {
  }
}
