/** Password hashing (`app/core/security.py`, first half). Both hashing and
    verification first cut the UTF-8 encoding of the password to 72 bytes
    and decode it again ignoring a cut character.

    bcrypt itself is an uninterpreted function here: the datatype
    constructor `Bcrypt(salt, secret)` is injective and has no inverse the
    model uses, which is the idealisation "equal digests only for equal
    (salt, secret) pairs". */
module Passwords {
  import opened Utf8

  const BcryptMaxPasswordLength: nat := 72

  /** `bs[:k]` */
  function Take(bs: seq<byte>, k: nat): (r: seq<byte>)
    ensures |r| <= k && r <= bs
    ensures |bs| <= k ==> r == bs
  {
    if |bs| <= k then bs else bs[..k]
  }

  /** `password.encode('utf-8')[:72].decode('utf-8', errors='ignore')`:
      the longest prefix of the password whose encoding fits in 72 bytes. */
  function TruncatePassword(p: string): (t: string)
    ensures t == FitPrefix(p, BcryptMaxPasswordLength)
    ensures t <= p && |Encode(t)| <= BcryptMaxPasswordLength
  {
    DecodeTakeIsFitPrefix(p, BcryptMaxPasswordLength);
    DecodeIgnore(Take(Encode(p), BcryptMaxPasswordLength))
  }

  /** The longest prefix of `s` whose UTF-8 encoding fits in `budget` bytes. */
  function FitPrefix(s: string, budget: nat): (t: string)
    ensures t <= s
    ensures |Encode(t)| <= budget
    ensures t != s ==> Width(s[|t|]) > budget - |Encode(t)|
    decreases |s|
  {
    if |s| == 0 || Width(s[0]) > budget then []
    else
      var rest := FitPrefix(s[1..], budget - Width(s[0]));
      var t := [s[0]] + rest;
      assert t[0] == s[0] && t[1..] == rest;
      t
  }

  lemma TakeAfterPrefix(e: seq<byte>, tail: seq<byte>, k: nat)
    requires |e| <= k
    ensures Take(e + tail, k) == e + Take(tail, k - |e|)
  {
  }

  lemma TakeWithinPrefix(e: seq<byte>, tail: seq<byte>, k: nat)
    requires k < |e|
    ensures Take(e + tail, k) == e[..k]
  {
  }

  /** Decoding the first `k` bytes of an encoding, ignoring a cut
      character, gives the longest prefix that fits in `k` bytes. */
  lemma {:induction false} DecodeTakeIsFitPrefix(s: string, k: nat)
    ensures DecodeIgnore(Take(Encode(s), k)) == FitPrefix(s, k)
    decreases |s|
  {
    if |s| > 0 {
      var e := EncodeChar(s[0]);
      var tail := Encode(s[1..]);
      assert Encode(s) == e + tail;
      if Width(s[0]) <= k {
        var k' := k - |e|;
        TakeAfterPrefix(e, tail, k);
        DecodeCons(s[0], Take(tail, k'));
        DecodeTakeIsFitPrefix(s[1..], k');
        assert FitPrefix(s, k) == [s[0]] + FitPrefix(s[1..], k');
      } else {
        TakeWithinPrefix(e, tail, k);
        DecodeCutChar(s[0], k);
      }
    }
  }

  /** What the 72-byte truncation does: it keeps a prefix of the password
      whose encoding is a prefix of the original encoding of at most 72
      bytes; it keeps everything when the encoding already fits; and it is
      shorter than 72 bytes only when the next character is a multibyte
      character that would not fit. */
  lemma TruncationKeepsFittingPrefix(p: string)
    ensures var t := TruncatePassword(p);
      && t <= p
      && Encode(t) <= Encode(p)
      && |Encode(t)| <= BcryptMaxPasswordLength
      && (|Encode(p)| <= BcryptMaxPasswordLength ==> t == p)
      && (t != p ==> |Encode(t)| + Width(p[|t|]) > BcryptMaxPasswordLength)
      && (t != p && |Encode(t)| < BcryptMaxPasswordLength ==> Width(p[|t|]) >= 2)
  {
    var t := TruncatePassword(p);
    DecodeTakeIsFitPrefix(p, BcryptMaxPasswordLength);
    assert p == t + p[|t|..];
    EncodeAppend(t, p[|t|..]);
    if t != p {
      var rest := p[|t|..];
      assert rest[0] == p[|t|];
      assert |Encode(rest)| >= Width(p[|t|]);
    }
  }

  datatype PasswordHash = Bcrypt(salt: nat, secret: string)

  /** `hash_password`: bcrypt of the truncated password under a fresh salt. */
  function HashPassword(p: string, salt: nat): (h: PasswordHash)
    ensures h.salt == salt
  {
    Bcrypt(salt, TruncatePassword(p))
  }

  /** `verify_password`: bcrypt verification of the truncated password. A
      candidate verifies exactly when hashing it under the stored hash's
      own salt reproduces the stored hash. */
  function VerifyPassword(p: string, h: PasswordHash): (b: bool)
    ensures b <==> h == HashPassword(p, h.salt)
  {
    TruncatePassword(p) == h.secret
  }

  /** A password verifies against its own hash, whatever the salt. */
  lemma VerifyOwnHash(p: string, salt: nat)
    ensures VerifyPassword(p, HashPassword(p, salt))
  {
  }

  /** A candidate verifies against the hash of `p` exactly when the two
      passwords truncate identically. */
  lemma VerifyIffSameTruncation(p: string, q: string, salt: nat)
    ensures VerifyPassword(q, HashPassword(p, salt)) <==> TruncatePassword(q) == TruncatePassword(p)
  {
  }

  /** Two passwords sharing their first 72 encoded bytes verify identically
      against any stored hash: hashing and verification truncate alike. */
  lemma SharedPrefixVerifiesAlike(p: string, q: string, h: PasswordHash)
    requires Take(Encode(p), BcryptMaxPasswordLength) == Take(Encode(q), BcryptMaxPasswordLength)
    ensures VerifyPassword(p, h) == VerifyPassword(q, h)
    ensures HashPassword(p, h.salt) == HashPassword(q, h.salt)
  {
  }
}
