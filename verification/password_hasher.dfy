/** The SHA-256 password hasher: a blank password hashes to "", any other
    password to the lowercase, two-digits-per-byte hex rendering of its
    digest; verification recomputes the hash and compares ordinally.
    The digest itself (UTF-8 encoding followed by SHA-256) is a parameter. */
module PasswordHasher {
  import opened Text

  newtype byte = x: int | 0 <= x < 256

  /** SHA-256 yields 32 bytes. */
  const DigestLength: nat := 32

  function ZeroDigest(s: string): seq<byte> {
    seq(DigestLength, _ => 0)
  }

  /** The encoding of a password followed by SHA-256, left abstract: any
      function from strings to 32-byte sequences. */
  type Digest = f: string -> seq<byte> | forall s :: |f(s)| == DigestLength witness ZeroDigest

  predicate IsHexDigit(c: char) {
    '0' <= c <= '9' || 'a' <= c <= 'f'
  }

  /** All characters are lowercase hex digits. */
  predicate IsLowerHex(s: string) {
    forall i | 0 <= i < |s| :: IsHexDigit(s[i])
  }

  /** The lowercase hex digit of a nibble. */
  function HexDigit(n: int): (c: char)
    requires 0 <= n < 16
    ensures IsHexDigit(c)
  {
    if n < 10 then ('0' as int + n) as char else ('a' as int + n - 10) as char
  }

  /** The nibble a lowercase hex digit stands for. */
  function DigitValue(c: char): (n: int)
    requires IsHexDigit(c)
    ensures 0 <= n < 16
  {
    if c <= '9' then c as int - '0' as int else c as int - 'a' as int + 10
  }

  /** Digits and nibbles are in one-to-one correspondence. */
  lemma DigitRoundTrip(n: int, c: char)
    requires 0 <= n < 16 && IsHexDigit(c)
    ensures DigitValue(HexDigit(n)) == n
    ensures HexDigit(DigitValue(c)) == c
  {
  }

  /** `b.ToString("x2")`: high nibble first, leading zero kept. */
  function HexByte(b: byte): (r: string)
    ensures |r| == 2 && IsLowerHex(r)
    ensures r[0] == HexDigit(b as int / 16) && r[1] == HexDigit(b as int % 16)
  {
    [HexDigit(b as int / 16), HexDigit(b as int % 16)]
  }

  /** The bytes rendered one after the other; characters 2i and 2i+1 are
      the high and low nibble of byte i. */
  function Hex(bytes: seq<byte>): (r: string)
    ensures |r| == 2 * |bytes|
    ensures IsLowerHex(r)
    ensures forall i | 0 <= i < |bytes| ::
      r[2 * i] == HexDigit(bytes[i] as int / 16) && r[2 * i + 1] == HexDigit(bytes[i] as int % 16)
  {
    if bytes == [] then ""
    else
      var init := bytes[..|bytes| - 1];
      var r := Hex(init) + HexByte(bytes[|bytes| - 1]);
      assert forall i | 0 <= i < |init| :: bytes[i] == init[i];
      r
  }

  /** The builder loop that renders the digest. */
  method AppendHex(bytes: seq<byte>) returns (s: string)
    ensures s == Hex(bytes)
  {
    s := "";
    var i := 0;
    while i < |bytes|
      invariant 0 <= i <= |bytes|
      invariant s == Hex(bytes[..i])
    {
      assert bytes[..i + 1][..i] == bytes[..i];
      s := s + HexByte(bytes[i]);
      i := i + 1;
    }
    assert bytes[..i] == bytes;
  }

  /** Reads a lowercase hex rendering back into bytes. */
  function Unhex(s: string): (r: seq<byte>)
    requires |s| % 2 == 0 && IsLowerHex(s)
    ensures |r| == |s| / 2
  {
    seq(|s| / 2, i requires 0 <= i < |s| / 2 =>
      (16 * DigitValue(s[2 * i]) + DigitValue(s[2 * i + 1])) as byte)
  }

  /** Decoding undoes the rendering. */
  lemma UnhexHex(bytes: seq<byte>)
    ensures Unhex(Hex(bytes)) == bytes
  {
    var h := Hex(bytes);
    forall i | 0 <= i < |bytes|
      ensures Unhex(h)[i] == bytes[i]
    {
      DigitRoundTrip(bytes[i] as int / 16, h[2 * i]);
      DigitRoundTrip(bytes[i] as int % 16, h[2 * i + 1]);
    }
  }

  /** Rendering undoes the decoding: every even-length lowercase hex string
      is the rendering of exactly one byte sequence. */
  lemma HexUnhex(s: string)
    requires |s| % 2 == 0 && IsLowerHex(s)
    ensures Hex(Unhex(s)) == s
  {
    var bytes := Unhex(s);
    var h := Hex(bytes);
    forall i | 0 <= i < |bytes|
      ensures h[2 * i] == s[2 * i] && h[2 * i + 1] == s[2 * i + 1]
    {
      var hi, lo := DigitValue(s[2 * i]), DigitValue(s[2 * i + 1]);
      assert bytes[i] as int == 16 * hi + lo;
      assert bytes[i] as int / 16 == hi && bytes[i] as int % 16 == lo;
      DigitRoundTrip(0, s[2 * i]);
      DigitRoundTrip(0, s[2 * i + 1]);
    }
    forall k | 0 <= k < |s|
      ensures h[k] == s[k]
    {
      Halves(k);
    }
  }

  lemma Halves(k: nat)
    ensures k == 2 * (k / 2) || k == 2 * (k / 2) + 1
  {
  }

  /** Rendering is injective. */
  lemma HexInjective(a: seq<byte>, b: seq<byte>)
    requires Hex(a) == Hex(b)
    ensures a == b
  {
    UnhexHex(a);
    UnhexHex(b);
  }

  /** The hash of a password: "" for a blank one, otherwise a 64-character
      lowercase hex string that decodes to the password's digest. */
  function HashPassword(digest: Digest, password: string): (r: string)
    ensures Blank(password) ==> r == ""
    ensures !Blank(password) ==>
      && |r| == 2 * DigestLength
      && IsLowerHex(r)
      && Unhex(r) == digest(password)
  {
    if Blank(password) then ""
    else
      UnhexHex(digest(password));
      Hex(digest(password))
  }

  /** The hash is empty exactly for blank passwords. */
  lemma EmptyHashIffBlank(digest: Digest, password: string)
    ensures HashPassword(digest, password) == "" <==> Blank(password)
  {
    if !Blank(password) {
      assert |HashPassword(digest, password)| == 64;
    }
  }

  /** Equal non-blank hashes mean equal digests. */
  lemma HashDeterminesDigest(digest: Digest, p: string, q: string)
    requires !Blank(p) && !Blank(q)
    requires HashPassword(digest, p) == HashPassword(digest, q)
    ensures digest(p) == digest(q)
  {
  }

  /** A candidate password matches a stored hash when the hash is the one it
      would produce: "" for a blank candidate, otherwise a 64-character
      lowercase hex string decoding to the candidate's digest. */
  function Verify(digest: Digest, password: string, hash: string): (r: bool)
    ensures r <==>
      if Blank(password) then hash == ""
      else |hash| == 2 * DigestLength && IsLowerHex(hash) && Unhex(hash) == digest(password)
  {
    var r := HashPassword(digest, password) == hash;
    assert r <==>
      if Blank(password) then hash == ""
      else |hash| == 2 * DigestLength && IsLowerHex(hash) && Unhex(hash) == digest(password)
    by {
      if !Blank(password) && |hash| == 2 * DigestLength && IsLowerHex(hash) {
        HexUnhex(hash);
      }
    }
    r
  }

  /** Every password matches its own hash, and a blank one matches "". */
  lemma VerifyOwnHash(digest: Digest, password: string)
    ensures Verify(digest, password, HashPassword(digest, password))
    ensures Blank(password) ==> Verify(digest, password, "")
  {
  }
}
