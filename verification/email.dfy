/** What the `EmailStr` type of the `UserCreate` schema
    (`app/schemas/user.py`) does to an address before the route sees it:
    surrounding whitespace is stripped as Python's `str.strip()` strips it,
    then the part after the last `@` (the domain) is lower-cased. Only ASCII
    case is modelled. The local part keeps its letters as written, which is
    not what the library does for role mailbox names such as `info` and
    `postmaster` (it lower-cases them) nor for local parts that Unicode
    normalisation changes. */
module Email {
  import opened Wrappers

  const At: char := '@'

  /** ASCII lower-casing of one character; every other character is kept. */
  function LowerChar(c: char): (d: char)
    ensures 'A' <= c <= 'Z' ==> d as int == c as int + 32
    ensures !('A' <= c <= 'Z') ==> d == c
    ensures !('A' <= d <= 'Z')
  {
    if 'A' <= c <= 'Z' then (c as int + 32) as char else c
  }

  function LowerAscii(s: string): (r: string)
    ensures |r| == |s|
    ensures forall i :: 0 <= i < |s| ==> r[i] == LowerChar(s[i])
  {
    seq(|s|, i requires 0 <= i < |s| => LowerChar(s[i]))
  }

  /** Position of the last `@`, where the address splits into local part
      and domain; `None` when there is no `@`. */
  function LastAt(s: string): (r: Option<nat>)
    ensures r.Some? ==> r.value < |s| && s[r.value] == At && At !in s[r.value + 1..]
    ensures r.None? ==> At !in s
    decreases |s|
  {
    if |s| == 0 then None
    else if s[|s| - 1] == At then Some(|s| - 1)
    else match LastAt(s[..|s| - 1])
      case None => None
      case Some(k) =>
        assert s[k + 1..] == s[..|s| - 1][k + 1..] + [s[|s| - 1]];
        Some(k)
  }

  /** An `@` with none after it is the last one. */
  lemma LastAtUnique(s: string, k: nat)
    requires k < |s| && s[k] == At && At !in s[k + 1..]
    ensures LastAt(s) == Some(k)
  {
    var r := LastAt(s);
    assert s[k] in s;
  }

  lemma LowerAsciiAppend(a: string, b: string)
    ensures LowerAscii(a + b) == LowerAscii(a) + LowerAscii(b)
  {
    assert forall i :: 0 <= i < |a| ==> (a + b)[i] == a[i];
    assert forall i :: |a| <= i < |a + b| ==> (a + b)[i] == b[i - |a|];
  }

  lemma LowerAsciiIdempotent(s: string)
    ensures LowerAscii(LowerAscii(s)) == LowerAscii(s)
  {
  }

  /** Lower-casing the part after the last `@` keeps that `@` the last one. */
  lemma LowerDomain(local: string, domain: string)
    requires |local| > 0 && local[|local| - 1] == At && At !in domain
    ensures var r := local + LowerAscii(domain);
            && LastAt(r) == Some(|local| - 1)
            && r[..|local|] == local && r[|local|..] == LowerAscii(domain)
  {
    var r := local + LowerAscii(domain);
    assert r[|local|..] == LowerAscii(domain);
    assert At !in r[|local|..] by {
      forall j | 0 <= j < |domain|
        ensures LowerAscii(domain)[j] != At
      {
        assert domain[j] != At;
      }
    }
    LastAtUnique(r, |local| - 1);
  }

  /** Only the domain changes: the address keeps its length, its local
      part and its last `@`, and its domain comes out in lower case. An
      address without `@` is kept as it is. */
  function Normalize(e: string): (r: string)
    ensures |r| == |e|
    ensures LastAt(r) == LastAt(e)
    ensures LastAt(e).None? ==> r == e
    ensures LastAt(e).Some? ==>
              var k := LastAt(e).value;
              && r[..k + 1] == e[..k + 1] && r[k + 1..] == LowerAscii(e[k + 1..])
              && LowerAscii(r[k + 1..]) == r[k + 1..]
  {
    match LastAt(e)
    case None => e
    case Some(k) =>
      assert e == e[..k + 1] + e[k + 1..];
      LowerDomain(e[..k + 1], e[k + 1..]);
      LowerAsciiIdempotent(e[k + 1..]);
      e[..k + 1] + LowerAscii(e[k + 1..])
  }

  /** Normalisation changes letter case only: ignoring case, the address
      is the one given. */
  lemma NormalizeOnlyCase(e: string)
    ensures LowerAscii(Normalize(e)) == LowerAscii(e)
  {
    if LastAt(e).Some? {
      var k := LastAt(e).value;
      var local, domain := e[..k + 1], e[k + 1..];
      assert e == local + domain;
      assert Normalize(e) == local + LowerAscii(domain);
      LowerAsciiIdempotent(domain);
      LowerAsciiAppend(local, domain);
      LowerAsciiAppend(local, LowerAscii(domain));
    }
  }

  /** Normalising twice is normalising once: a stored address compares
      equal to itself after the route normalises it again. */
  lemma NormalizeIdempotent(e: string)
    ensures Normalize(Normalize(e)) == Normalize(e)
  {
    var n := Normalize(e);
    if LastAt(e).Some? {
      var k := LastAt(e).value;
      assert n == n[..k + 1] + n[k + 1..];
      assert Normalize(n) == Normalize(n)[..k + 1] + Normalize(n)[k + 1..];
    }
  }

  /** Two addresses that differ only in the case of their domain normalise
      to the same address. */
  lemma DomainCaseIgnored(a: string, b: string, k: nat)
    requires |a| == |b| && k < |a|
    requires a[..k + 1] == b[..k + 1] && a[k] == At && At !in a[k + 1..]
    requires LowerAscii(a[k + 1..]) == LowerAscii(b[k + 1..])
    ensures Normalize(a) == Normalize(b)
  {
    assert At !in b[k + 1..] by {
      forall j | k + 1 <= j < |b|
        ensures b[j] != At
      {
        assert LowerAscii(a[k + 1..])[j - k - 1] == LowerAscii(b[k + 1..])[j - k - 1];
        assert a[k + 1..][j - k - 1] != At;
      }
    }
    assert b[k] == b[..k + 1][k];
    LastAtUnique(a, k);
    LastAtUnique(b, k);
    var na, nb := Normalize(a), Normalize(b);
    assert na == na[..k + 1] + na[k + 1..];
    assert nb == nb[..k + 1] + nb[k + 1..];
  }

  /** Python's `str.isspace()`: the ASCII separators and the Unicode
      characters of the space, line and paragraph separator classes. */
  predicate IsSpace(c: char) {
    || '\t' <= c <= '\r'
    || '\U{1C}' <= c <= ' '
    || c == '\U{85}' || c == '\U{A0}' || c == '\U{1680}'
    || '\U{2000}' <= c <= '\U{200A}'
    || c == '\U{2028}' || c == '\U{2029}' || c == '\U{202F}' || c == '\U{205F}' || c == '\U{3000}'
  }

  predicate AllSpace(s: string) {
    forall i :: 0 <= i < |s| ==> IsSpace(s[i])
  }

  /** `str.lstrip()`: a suffix that does not start with whitespace. */
  function StripLeft(s: string): (r: string)
    ensures |r| <= |s| && r == s[|s| - |r|..]
    ensures |r| > 0 ==> !IsSpace(r[0])
    decreases |s|
  {
    if |s| > 0 && IsSpace(s[0]) then
      var r := StripLeft(s[1..]);
      assert s[1..][|s| - 1 - |r|..] == s[|s| - |r|..];
      r
    else s
  }

  /** What `lstrip()` cuts off is whitespace. */
  lemma {:induction false} StripLeftCut(s: string)
    ensures AllSpace(s[..|s| - |StripLeft(s)|])
    decreases |s|
  {
    if |s| > 0 && IsSpace(s[0]) {
      var m := |s| - |StripLeft(s)|;
      StripLeftCut(s[1..]);
      forall i | 0 <= i < m
        ensures IsSpace(s[..m][i])
      {
        if i > 0 {
          assert s[..m][i] == s[1..][..m - 1][i - 1];
        }
      }
    }
  }

  /** `str.rstrip()`: a prefix that does not end with whitespace. */
  function StripRight(s: string): (r: string)
    ensures |r| <= |s| && r == s[..|r|]
    ensures |r| > 0 ==> !IsSpace(r[|r| - 1])
    decreases |s|
  {
    if |s| > 0 && IsSpace(s[|s| - 1]) then
      var r := StripRight(s[..|s| - 1]);
      assert s[..|s| - 1][..|r|] == s[..|r|];
      r
    else s
  }

  /** What `rstrip()` cuts off is whitespace. */
  lemma {:induction false} StripRightCut(s: string)
    ensures AllSpace(s[|StripRight(s)|..])
    decreases |s|
  {
    if |s| > 0 && IsSpace(s[|s| - 1]) {
      var n := |StripRight(s)|;
      StripRightCut(s[..|s| - 1]);
      forall j | 0 <= j < |s| - n
        ensures IsSpace(s[n..][j])
      {
        if n + j < |s| - 1 {
          assert s[n..][j] == s[..|s| - 1][n..][j];
        }
      }
    }
  }

  /** `str.strip()`: what remains starts and ends with a non-space. */
  function Strip(s: string): (r: string)
    ensures |r| <= |s|
    ensures |r| > 0 ==> !IsSpace(r[0]) && !IsSpace(r[|r| - 1])
  {
    var t := StripRight(s);
    var r := StripLeft(t);
    assert |r| > 0 ==> r[|r| - 1] == t[|t| - 1];
    r
  }

  /** The stripped text is a slice of the input, and everything cut from
      either end is whitespace. */
  lemma StripSlice(s: string)
    ensures exists i, j :: 0 <= i <= j <= |s| && Strip(s) == s[i..j] && AllSpace(s[..i]) && AllSpace(s[j..])
  {
    var t := StripRight(s);
    var r := StripLeft(t);
    var i, j := |t| - |r|, |t|;
    StripRightCut(s);
    StripLeftCut(t);
    assert s[..i] == t[..i];
    assert Strip(s) == s[i..j];
  }

  lemma {:induction false} StripLeftPadding(pre: string, s: string)
    requires AllSpace(pre)
    ensures StripLeft(pre + s) == StripLeft(s)
    decreases |pre|
  {
    if |pre| > 0 {
      var x := pre + s;
      assert x[0] == pre[0] && IsSpace(x[0]);
      assert x[1..] == pre[1..] + s;
      assert StripLeft(x) == StripLeft(x[1..]);
      StripLeftPadding(pre[1..], s);
    } else {
      assert pre + s == s;
    }
  }

  lemma {:induction false} StripRightPadding(s: string, post: string)
    requires AllSpace(post)
    ensures StripRight(s + post) == StripRight(s)
    decreases |post|
  {
    if |post| > 0 {
      var n := |post| - 1;
      var x := s + post;
      assert x[|x| - 1] == post[n] && IsSpace(x[|x| - 1]);
      assert x[..|x| - 1] == s + post[..n];
      assert StripRight(x) == StripRight(x[..|x| - 1]);
      assert AllSpace(post[..n]) by {
        forall i | 0 <= i < n
          ensures IsSpace(post[..n][i])
        {
          assert post[..n][i] == post[i];
        }
      }
      StripRightPadding(s, post[..n]);
    } else {
      assert s + post == s;
    }
  }

  /** Right-stripping after a whitespace prefix: the prefix survives unless
      nothing else does. */
  lemma {:induction false} StripRightAfter(pre: string, s: string)
    requires AllSpace(pre)
    ensures StripRight(s) == [] ==> StripRight(pre + s) == []
    ensures StripRight(s) != [] ==> StripRight(pre + s) == pre + StripRight(s)
    decreases |s|
  {
    if |s| == 0 {
      assert pre + s == pre;
    } else if IsSpace(s[|s| - 1]) {
      assert (pre + s)[..|pre + s| - 1] == pre + s[..|s| - 1];
      StripRightAfter(pre, s[..|s| - 1]);
    }
  }

  /** Whitespace around an address does not change what `strip()` keeps. */
  lemma {:induction false} StripPadding(pre: string, s: string, post: string)
    requires AllSpace(pre) && AllSpace(post)
    ensures Strip(pre + s + post) == Strip(s)
  {
    StripRightPadding(pre + s, post);
    StripRightAfter(pre, s);
    if StripRight(s) != [] {
      StripLeftPadding(pre, StripRight(s));
    }
  }

  /** An address that starts and ends with a non-space is kept whole. */
  lemma StripTrimmed(s: string)
    requires |s| > 0 ==> !IsSpace(s[0]) && !IsSpace(s[|s| - 1])
    ensures Strip(s) == s
  {
  }

  /** Stripping twice is stripping once. */
  lemma StripIdempotent(s: string)
    ensures Strip(Strip(s)) == Strip(s)
  {
    StripTrimmed(Strip(s));
  }

  /** Lower-casing never turns a space into a non-space or back. */
  lemma SpaceIgnoresCase(x: char, y: char)
    requires LowerChar(x) == LowerChar(y)
    ensures IsSpace(x) <==> IsSpace(y)
  {
  }

  /** The same, character by character, for two strings equal up to case. */
  lemma SameSpacing(a: string, b: string)
    requires |a| == |b| && LowerAscii(a) == LowerAscii(b)
    ensures forall i :: 0 <= i < |a| ==> (IsSpace(a[i]) <==> IsSpace(b[i]))
  {
    forall i | 0 <= i < |a|
      ensures IsSpace(a[i]) <==> IsSpace(b[i])
    {
      assert LowerAscii(a)[i] == LowerAscii(b)[i];
      SpaceIgnoresCase(a[i], b[i]);
    }
  }

  /** The address `EmailStr` hands to the route: stripped, then with its
      domain lower-cased. Apart from letter case it is the stripped text. */
  function Canonical(e: string): (r: string)
    ensures |r| <= |e|
    ensures LowerAscii(r) == LowerAscii(Strip(e))
  {
    NormalizeOnlyCase(Strip(e));
    Normalize(Strip(e))
  }

  /** A canonical address has no surrounding whitespace left to strip. */
  lemma CanonicalStripped(e: string)
    ensures Strip(Canonical(e)) == Canonical(e)
  {
    var t := Strip(e);
    var n := Canonical(e);
    assert n == Normalize(t);
    NormalizeOnlyCase(t);
    SameSpacing(n, t);
    assert |n| > 0 ==> !IsSpace(n[0]) && !IsSpace(n[|n| - 1]);
    StripTrimmed(n);
  }

  /** Canonicalising a canonical address changes nothing, so an address
      stored by registration is its own canonical form. */
  lemma CanonicalIdempotent(e: string)
    ensures Canonical(Canonical(e)) == Canonical(e)
  {
    CanonicalStripped(e);
    NormalizeIdempotent(Strip(e));
  }

  /** Every address that differs from a canonical address `c` only in the
      case of its domain and in surrounding whitespace has `c` as its
      canonical form. */
  lemma SameCanonical(pre: string, a: string, post: string, c: string, k: nat)
    requires AllSpace(pre) && AllSpace(post) && c == Canonical(c)
    requires |a| == |c| && k < |c|
    requires c[..k + 1] == a[..k + 1] && c[k] == At && At !in c[k + 1..]
    requires LowerAscii(c[k + 1..]) == LowerAscii(a[k + 1..])
    ensures Canonical(pre + a + post) == c
  {
    CanonicalStripped(c);
    assert Strip(c) == c;
    assert !IsSpace(c[0]) && !IsSpace(c[|c| - 1]);
    assert a[0] == a[..k + 1][0] == c[..k + 1][0];
    assert !IsSpace(a[|a| - 1]) by {
      var n := |a| - 1;
      if n <= k {
        assert a[n] == a[..k + 1][n] == c[..k + 1][n];
      } else {
        assert LowerAscii(c[k + 1..])[n - k - 1] == LowerAscii(a[k + 1..])[n - k - 1];
        SpaceIgnoresCase(c[n], a[n]);
      }
    }
    StripPadding(pre, a, post);
    StripTrimmed(a);
    DomainCaseIgnored(c, a, k);
  }
}
