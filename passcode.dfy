/** Passcode storage and verification. New passcodes are stored as `salt:digest` (hex salt, hex key
    derived by a slow one-way function); entries without a `:` are legacy plaintext and are compared
    as they are. The key-derivation function and the random salt are parameters of the model. */
module Passcode {
  import opened Wrappers
  import opened JsStrings

  newtype byte = x: int | 0 <= x < 256

  /** Bytes of derived key (`KEY_LENGTH`) and of random salt. */
  const KeyLength: nat := 64
  const SaltLength: nat := 16

  /** The key-derivation function `scrypt(passcode, salt, KEY_LENGTH)`: deterministic, otherwise unknown. */
  type Kdf = (string, string) -> seq<byte>

  predicate IsDigit(c: char) {
    '0' <= c <= '9'
  }

  /** Does `s` consist of exactly `n` decimal digits and nothing else (the regular expression `^\d{n}$`)? */
  function MatchesDigits(s: string, n: nat): bool {
    if n == 0 then s == [] else s != [] && IsDigit(s[0]) && MatchesDigits(s[1..], n - 1)
  }

  /** `validatePasscode`: the test `/^\d{4}$/`. */
  predicate ValidatePasscode(passcode: string) {
    MatchesDigits(passcode, 4)
  }

  lemma {:induction false} MatchesDigitsIff(s: string, n: nat)
    ensures MatchesDigits(s, n) <==> |s| == n && forall i :: 0 <= i < |s| ==> IsDigit(s[i])
    decreases n
  {
    if n > 0 && s != [] {
      MatchesDigitsIff(s[1..], n - 1);
      assert forall i :: 1 <= i < |s| ==> s[i] == s[1..][i - 1];
    }
  }

  /** A passcode is valid exactly when it has four characters, each a decimal digit. */
  lemma ValidatePasscodeIff(passcode: string)
    ensures ValidatePasscode(passcode) <==> |passcode| == 4 && forall i :: 0 <= i < 4 ==> IsDigit(passcode[i])
  {
    MatchesDigitsIff(passcode, 4);
  }

  /** `isLegacyPasscode`: a stored value with no separator is a plaintext passcode. */
  predicate IsLegacyPasscode(stored: string) {
    ':' !in stored
  }

  /** The lower-case hexadecimal digit for `k`. */
  function HexDigit(k: int): char
    requires 0 <= k < 16
  {
    if k < 10 then ('0' as int + k) as char else ('a' as int + k - 10) as char
  }

  /** The value of a hexadecimal digit of either case, or nothing for any other character. */
  function Unhex(c: char): (r: Option<int>)
    ensures r.Some? ==> 0 <= r.value < 16
  {
    if '0' <= c <= '9' then Some(c as int - '0' as int)
    else if 'a' <= c <= 'f' then Some(c as int - 'a' as int + 10)
    else if 'A' <= c <= 'F' then Some(c as int - 'A' as int + 10)
    else None
  }

  /** `buf.toString('hex')`: two lower-case digits per byte. */
  function HexEncode(bs: seq<byte>): (s: string)
    ensures |s| == 2 * |bs|
    ensures forall i :: 0 <= i < |s| ==> Unhex(s[i]).Some? && s[i] != ':'
  {
    if bs == [] then ""
    else [HexDigit(bs[0] as int / 16), HexDigit(bs[0] as int % 16)] + HexEncode(bs[1..])
  }

  /** `Buffer.from(s, 'hex')`: pairs of hexadecimal digits decoded up to the first pair that is not one;
      a trailing odd character is dropped. */
  function HexDecode(s: string): (bs: seq<byte>)
    ensures |bs| <= |s| / 2
  {
    if |s| < 2 then []
    else
      match (Unhex(s[0]), Unhex(s[1]))
      case (Some(hi), Some(lo)) => [(16 * hi + lo) as byte] + HexDecode(s[2..])
      case _ => []
  }

  /** Decoding the hexadecimal text of a byte string gives the byte string back. */
  lemma {:induction false} HexRoundTrip(bs: seq<byte>)
    ensures HexDecode(HexEncode(bs)) == bs
  {
    if bs != [] {
      var s := HexEncode(bs);
      assert s[2..] == HexEncode(bs[1..]);
      HexRoundTrip(bs[1..]);
    }
  }

  /** `hashPasscode` with the given random salt: hex salt, `:`, hex derived key. */
  function HashPasscode(kdf: Kdf, passcode: string, salt: seq<byte>): string
    requires |salt| == SaltLength
  {
    var saltHex := HexEncode(salt);
    saltHex + ":" + HexEncode(kdf(passcode, saltHex))
  }

  /** `verifyPasscode`: plaintext equality for a legacy value; otherwise the first two `:`-separated
      fields are salt and digest, both must be non-empty, and the decoded digest must equal the key
      derived with that salt. Digests of another length are rejected (the length check throws inside
      a `try` whose `catch` returns false). */
  function VerifyPasscode(kdf: Kdf, passcode: string, stored: string): bool {
    if IsLegacyPasscode(stored) then stored == passcode
    else
      var parts := Split(stored, ':');
      var salt, digest := parts[0], parts[1];
      if salt == "" || digest == "" then false
      else
        var expected := HexDecode(digest);
        var derived := HexDecode(HexEncode(kdf(passcode, salt)));
        if |expected| != |derived| then false
        else expected == derived
  }

  /** A hash is 32 hexadecimal characters, `:`, then 128 hexadecimal characters; so it is never legacy. */
  lemma HashFormat(kdf: Kdf, passcode: string, salt: seq<byte>)
    requires |salt| == SaltLength && |kdf(passcode, HexEncode(salt))| == KeyLength
    ensures var h := HashPasscode(kdf, passcode, salt);
      && |h| == 161 && h[32] == ':'
      && (forall i :: 0 <= i < |h| && i != 32 ==> Unhex(h[i]).Some?)
      && !IsLegacyPasscode(h)
  {
    var h := HashPasscode(kdf, passcode, salt);
    assert h[32] == ':';
  }

  /** `split` finds the first separator after a separator-free prefix. */
  lemma {:induction false} SplitAfterPrefix(a: string, sep: char, rest: string)
    requires sep !in a
    ensures Split(a + [sep] + rest, sep) == [a] + Split(rest, sep)
    decreases |a|
  {
    if a != [] {
      assert (a + [sep] + rest)[1..] == a[1..] + [sep] + rest;
      SplitAfterPrefix(a[1..], sep, rest);
      var r := Split(a[1..] + [sep] + rest, sep);
      assert r[0] == a[1..] && r[1..] == Split(rest, sep);
      assert [a[0]] + a[1..] == a;
    } else {
      assert a + [sep] + rest == [sep] + rest;
    }
  }

  lemma {:induction false} SplitWithoutSeparator(a: string, sep: char)
    requires sep !in a
    ensures Split(a, sep) == [a]
  {
  }

  /** Every hash verifies for the passcode it was made from. */
  lemma HashThenVerify(kdf: Kdf, passcode: string, salt: seq<byte>)
    requires |salt| == SaltLength && |kdf(passcode, HexEncode(salt))| == KeyLength
    ensures VerifyPasscode(kdf, passcode, HashPasscode(kdf, passcode, salt))
  {
    var saltHex := HexEncode(salt);
    var digest := HexEncode(kdf(passcode, saltHex));
    HashFormat(kdf, passcode, salt);
    SplitWithoutSeparator(digest, ':');
    SplitAfterPrefix(saltHex, ':', digest);
    assert saltHex + ":" + digest == saltHex + [':'] + digest;
  }

  /** A hash made from one passcode rejects another whose derived key (with the same salt) differs. */
  lemma HashRejectsOther(kdf: Kdf, passcode: string, other: string, salt: seq<byte>)
    requires |salt| == SaltLength
    requires kdf(other, HexEncode(salt)) != kdf(passcode, HexEncode(salt))
    ensures !VerifyPasscode(kdf, other, HashPasscode(kdf, passcode, salt))
  {
    var saltHex := HexEncode(salt);
    var digest := HexEncode(kdf(passcode, saltHex));
    SplitWithoutSeparator(digest, ':');
    SplitAfterPrefix(saltHex, ':', digest);
    assert saltHex + ":" + digest == saltHex + [':'] + digest;
    HexRoundTrip(kdf(passcode, saltHex));
    HexRoundTrip(kdf(other, saltHex));
  }

  /** A legacy value verifies exactly the identical passcode. */
  lemma LegacyIsPlainEquality(kdf: Kdf, passcode: string, stored: string)
    requires IsLegacyPasscode(stored)
    ensures VerifyPasscode(kdf, passcode, stored) <==> passcode == stored
  {
  }

  /** After `split(':', 2)`, an empty salt or an empty digest verifies false; fields after a second `:`
      are ignored. */
  lemma MalformedVerifiesFalse(kdf: Kdf, passcode: string, salt: string, digest: string, tail: string)
    requires ':' !in salt && ':' !in digest
    ensures salt == "" || digest == "" ==> !VerifyPasscode(kdf, passcode, salt + ":" + digest)
    ensures VerifyPasscode(kdf, passcode, salt + ":" + digest + ":" + tail)
      == VerifyPasscode(kdf, passcode, salt + ":" + digest)
  {
    SplitWithoutSeparator(digest, ':');
    SplitAfterPrefix(salt, ':', digest);
    assert salt + ":" + digest == salt + [':'] + digest;
    SplitAfterPrefix(digest, ':', tail);
    SplitAfterPrefix(salt, ':', digest + ":" + tail);
    assert salt + ":" + digest + ":" + tail == salt + [':'] + (digest + [':'] + tail);
  }

  /** A digest that decodes to a byte string of another length than the derived key verifies false
      (rather than failing). */
  lemma DigestLengthMismatchFalse(kdf: Kdf, passcode: string, salt: string, digest: string)
    requires ':' !in salt && ':' !in digest
    requires |HexDecode(digest)| != |kdf(passcode, salt)|
    ensures !VerifyPasscode(kdf, passcode, salt + ":" + digest)
  {
    SplitWithoutSeparator(digest, ':');
    SplitAfterPrefix(salt, ':', digest);
    assert salt + ":" + digest == salt + [':'] + digest;
    HexRoundTrip(kdf(passcode, salt));
  }
}
