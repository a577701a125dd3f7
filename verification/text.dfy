/** The few Python string operations the application relies on, over
    `string` = `seq<char>`: decimal rendering of integers (`str(n)`,
    f-string `{n}` and `{n:0Wd}`), `int()` on digit strings, and
    `str.split` / `str.join` with a one-character separator. */
module Text {
  import opened Wrappers

  predicate IsDigit(c: char) {
    '0' <= c <= '9'
  }

  predicate AllDigits(s: string) {
    forall i :: 0 <= i < |s| ==> IsDigit(s[i])
  }

  function DigitChar(d: nat): (c: char)
    requires d < 10
    ensures IsDigit(c) && c as int - '0' as int == d
  {
    (('0' as int) + d) as char
  }

  function DigitValue(c: char): (d: nat)
    requires IsDigit(c)
    ensures d < 10
  {
    c as int - '0' as int
  }

  /** Decimal digits of `n`, most significant first, without leading zeros. */
  function NatToString(n: nat): (s: string)
    ensures 1 <= |s|
    ensures AllDigits(s)
    ensures |s| > 1 ==> s[0] != '0'
    decreases n
  {
    if n < 10 then [DigitChar(n)] else NatToString(n / 10) + [DigitChar(n % 10)]
  }

  /** Python `str(i)` for an `int`. */
  function IntToString(i: int): (s: string)
    ensures i >= 0 ==> AllDigits(s)
    ensures i < 0 ==> |s| > 1 && s[0] == '-' && AllDigits(s[1..])
  {
    if i < 0 then "-" + NatToString(-i) else NatToString(i)
  }

  /** The value of a digit string read in base ten (empty string reads as 0). */
  function DigitsValue(s: string): nat
    requires AllDigits(s)
  {
    if |s| == 0 then 0 else DigitsValue(s[..|s| - 1]) * 10 + DigitValue(s[|s| - 1])
  }

  /** `int(s)` restricted to digit-only strings: `None` stands for the
      `ValueError` Python raises on an empty or non-numeric string. */
  function ParseDigits(s: string): (r: Option<nat>)
    ensures r.Some? <==> |s| > 0 && AllDigits(s)
  {
    if |s| > 0 && AllDigits(s) then Some(DigitsValue(s)) else None
  }

  function Zeros(k: nat): (z: string)
    ensures |z| == k && AllDigits(z)
    ensures forall i :: 0 <= i < k ==> z[i] == '0'
  {
    if k == 0 then [] else Zeros(k - 1) + "0"
  }

  /** f-string `{n:0Wd}` for a non-negative `n`: left-padded with zeros to
      `width` characters, never truncated. */
  function ZeroPad(n: nat, width: nat): (s: string)
    ensures AllDigits(s)
    ensures |s| >= width && |s| >= 1
  {
    var d := NatToString(n);
    if |d| >= width then d else Zeros(width - |d|) + d
  }

  lemma {:induction false} RenderParses(n: nat)
    ensures DigitsValue(NatToString(n)) == n
    decreases n
  {
    if n >= 10 {
      RenderParses(n / 10);
      var s := NatToString(n);
      assert s[..|s| - 1] == NatToString(n / 10);
    }
  }

  /** Leading zeros do not change the value of a digit string. */
  lemma {:induction false} LeadingZerosIgnored(k: nat, s: string)
    requires AllDigits(s)
    ensures DigitsValue(Zeros(k) + s) == DigitsValue(s)
    decreases |s|
  {
    if |s| == 0 {
      ZerosValue(k);
      assert Zeros(k) + s == Zeros(k);
    } else {
      var t := Zeros(k) + s;
      assert t[..|t| - 1] == Zeros(k) + s[..|s| - 1];
      LeadingZerosIgnored(k, s[..|s| - 1]);
    }
  }

  lemma {:induction false} ZerosValue(k: nat)
    ensures DigitsValue(Zeros(k)) == 0
  {
    if k > 0 {
      var z := Zeros(k);
      assert z[..k - 1] == Zeros(k - 1);
      ZerosValue(k - 1);
      assert DigitValue(z[k - 1]) == 0;
      assert DigitsValue(z) == DigitsValue(Zeros(k - 1)) * 10 + DigitValue(z[k - 1]);
    }
  }

  /** `int(f"{n:0Wd}") == n`: zero padding is undone by parsing. */
  lemma ParseZeroPad(n: nat, width: nat)
    ensures ParseDigits(ZeroPad(n, width)) == Some(n)
  {
    var d := NatToString(n);
    RenderParses(n);
    if |d| < width {
      LeadingZerosIgnored(width - |d|, d);
    }
  }

  /** Python `s.split(sep)`: the maximal separator-free pieces, in order;
      there is always at least one piece. */
  function Split(s: string, sep: char): (parts: seq<string>)
    ensures |parts| >= 1
    ensures forall i :: 0 <= i < |parts| ==> sep !in parts[i]
    decreases |s|
  {
    if |s| == 0 then [""]
    else if s[0] == sep then [""] + Split(s[1..], sep)
    else
      var rest := Split(s[1..], sep);
      [[s[0]] + rest[0]] + rest[1..]
  }

  /** Python `sep.join(parts)` for a non-empty list. */
  function Join(parts: seq<string>, sep: char): string
    requires |parts| >= 1
    decreases |parts|
  {
    if |parts| == 1 then parts[0] else parts[0] + [sep] + Join(parts[1..], sep)
  }

  /** Joining the pieces of a split gives the string back. */
  lemma {:induction false} JoinSplit(s: string, sep: char)
    ensures Join(Split(s, sep), sep) == s
    decreases |s|
  {
    if |s| > 0 {
      JoinSplit(s[1..], sep);
      var rest := Split(s[1..], sep);
      if s[0] == sep {
        assert Split(s, sep)[1..] == rest;
      } else {
        var parts := Split(s, sep);
        if |rest| == 1 {
          assert parts == [[s[0]] + rest[0]];
        } else {
          assert parts[1..] == rest[1..];
          assert Join(rest, sep) == rest[0] + [sep] + Join(rest[1..], sep);
        }
      }
    }
  }

  /** A separator-free piece contributes exactly one part. */
  lemma {:induction false} SplitNoSep(c: string, sep: char)
    requires sep !in c
    ensures Split(c, sep) == [c]
    decreases |c|
  {
    if |c| > 0 {
      assert sep !in c[1..] by {
        forall i | 0 <= i < |c[1..]| ensures c[1..][i] != sep {
          assert c[1..][i] == c[i + 1];
        }
      }
      SplitNoSep(c[1..], sep);
      assert [c[0]] + c[1..] == c;
    }
  }

  /** Splitting `a + sep + c`, where `c` has no separator, appends `c`
      to the pieces of `a`. */
  lemma {:induction false} SplitAppend(a: string, sep: char, c: string)
    requires sep !in c
    ensures Split(a + [sep] + c, sep) == Split(a, sep) + [c]
    decreases |a|
  {
    var s := a + [sep] + c;
    if |a| == 0 {
      assert s[1..] == c;
      SplitNoSep(c, sep);
    } else {
      assert s[1..] == a[1..] + [sep] + c;
      SplitAppend(a[1..], sep, c);
      if a[0] != sep {
        var rest := Split(a[1..], sep);
        assert Split(s[1..], sep) == rest + [c];
        assert (rest + [c])[0] == rest[0];
        assert (rest + [c])[1..] == rest[1..] + [c];
      }
    }
  }
}
