/**
 * The few pieces of Python's string behaviour that the naming engine relies on:
 * `str()` of an integer, `'%0Nd'` zero padding, ASCII `lower()` and
 * `os.path.splitext`.
 */
module Strings {

  predicate IsDigit(c: char) {
    '0' <= c <= '9'
  }

  predicate AllDigits(s: string) {
    forall i :: 0 <= i < |s| ==> IsDigit(s[i])
  }

  function DigitChar(d: nat): (c: char)
    requires d < 10
    ensures IsDigit(c)
  {
    (48 + d) as char
  }

  function DigitValue(c: char): nat
    requires IsDigit(c)
  {
    (c as int) - 48
  }

  /** The number a string of decimal digits denotes; leading zeros are allowed. */
  function DigitsValue(s: string): nat
    requires AllDigits(s)
  {
    if s == [] then 0 else 10 * DigitsValue(s[..|s| - 1]) + DigitValue(s[|s| - 1])
  }

  /** Python's `str(n)` for a non-negative integer. */
  function NatToString(n: nat): (s: string)
    ensures 1 <= |s| && AllDigits(s)
    ensures DigitsValue(s) == n
    ensures s[0] == '0' ==> n == 0
  {
    if n < 10 then [DigitChar(n)]
    else
      var t := NatToString(n / 10);
      var s := t + [DigitChar(n % 10)];
      assert s[..|s| - 1] == t;
      s
  }

  /** Python's `str(n)` for any integer. */
  function IntToString(n: int): string {
    if n < 0 then "-" + NatToString(-n) else NatToString(n)
  }

  lemma IntToStringInjective(a: int, b: int)
    requires IntToString(a) == IntToString(b)
    ensures a == b
  {
    if a < 0 && b < 0 {
      assert NatToString(-a) == IntToString(a)[1..];
      assert NatToString(-b) == IntToString(b)[1..];
    }
  }

  /** A wider number never has fewer decimal digits. */
  lemma {:induction false} DigitCountMonotone(a: nat, b: nat)
    requires a <= b
    ensures |NatToString(a)| <= |NatToString(b)|
  {
    if a >= 10 {
      DigitCountMonotone(a / 10, b / 10);
    }
  }

  function Zeros(k: nat): (z: string)
    ensures |z| == k && AllDigits(z)
  {
    if k == 0 then [] else Zeros(k - 1) + ['0']
  }

  lemma {:induction false} ZerosValue(k: nat)
    ensures DigitsValue(Zeros(k)) == 0
  {
    if k > 0 {
      assert Zeros(k)[..k - 1] == Zeros(k - 1);
      ZerosValue(k - 1);
    }
  }

  /** Leading zeros do not change the value of a digit string. */
  lemma {:induction false} LeadingZerosValue(k: nat, s: string)
    requires AllDigits(s)
    ensures AllDigits(Zeros(k) + s)
    ensures DigitsValue(Zeros(k) + s) == DigitsValue(s)
  {
    var t := Zeros(k) + s;
    assert AllDigits(t) by {
      forall i | 0 <= i < |t| ensures IsDigit(t[i]) {
        if i < k { assert t[i] == Zeros(k)[i]; } else { assert t[i] == s[i - k]; }
      }
    }
    if s == [] {
      assert t == Zeros(k);
      ZerosValue(k);
    } else {
      assert t[..|t| - 1] == Zeros(k) + s[..|s| - 1];
      LeadingZerosValue(k, s[..|s| - 1]);
    }
  }

  /** The `'%0<width>d'` conversion of Python's `%` operator for a digit string. */
  function ZeroPad(s: string, width: nat): (r: string)
    requires AllDigits(s)
    ensures |r| == if |s| < width then width else |s|
    ensures AllDigits(r) && DigitsValue(r) == DigitsValue(s)
  {
    LeadingZerosValue(if |s| < width then width - |s| else 0, s);
    if |s| < width then Zeros(width - |s|) + s else s
  }

  /** Python 2's `str.lower()` on a byte string: only ASCII capitals change. */
  function LowerChar(c: char): char {
    if 'A' <= c <= 'Z' then (c as int + 32) as char else c
  }

  function Lower(s: string): (r: string)
    ensures |r| == |s|
  {
    seq(|s|, i requires 0 <= i < |s| => LowerChar(s[i]))
  }

  /** The index of the last occurrence of `c` in `s`, or -1 (Python's `str.rfind`). */
  function RFind(s: string, c: char): (k: int)
    ensures -1 <= k < |s|
    ensures k >= 0 ==> s[k] == c
    ensures forall j :: k < j < |s| ==> s[j] != c
  {
    if s == [] then -1
    else if s[|s| - 1] == c then |s| - 1
    else RFind(s[..|s| - 1], c)
  }

  /**
   * `os.path.splitext` on POSIX: the extension starts at the last dot of the
   * last path component, unless everything before that dot in the component
   * is dots (a leading-dot name such as `.bashrc` has no extension).
   */
  function SplitExt(p: string): (r: (string, string))
    ensures r.0 + r.1 == p
  {
    var sep := RFind(p, '/');
    var dot := RFind(p, '.');
    if dot > sep && exists k :: sep < k < dot && p[k] != '.' then
      assert p[..dot] + p[dot..] == p;
      (p[..dot], p[dot..])
    else
      (p, [])
  }

  /**
   * A non-empty extension is a dot and then no dot or slash, and what is
   * left of the path keeps a stem in its last component.
   */
  lemma SplitExtShape(p: string)
    ensures var r := SplitExt(p);
            r.1 != [] ==> r.1[0] == '.' && NoDotOrSlash(r.1[1..]) && HasStem(r.0)
  {
    var sep := RFind(p, '/');
    var dot := RFind(p, '.');
    if dot > sep && exists k :: sep < k < dot && p[k] != '.' {
      assert HasStem(p[..dot]) by {
        assert RFind(p[..dot], '/') == sep by { RFindPrefix(p, '/', dot); }
      }
    }
  }

  /** No dot and no slash: what follows the dot of an extension. */
  predicate NoDotOrSlash(s: string) {
    forall i :: 0 <= i < |s| ==> s[i] != '.' && s[i] != '/'
  }

  /** The last path component of `b` holds a character other than a dot. */
  predicate HasStem(b: string) {
    exists k :: RFind(b, '/') < k < |b| && b[k] != '.'
  }

  lemma {:induction false} RFindPrefix(p: string, c: char, n: nat)
    requires n <= |p|
    requires RFind(p, c) < n
    ensures RFind(p[..n], c) == RFind(p, c)
  {
    if n < |p| {
      assert p[..|p| - 1][..n] == p[..n];
      RFindPrefix(p[..|p| - 1], c, n);
    } else {
      assert p[..n] == p;
    }
  }

  lemma {:induction false} RFindAppend(b: string, e: string, c: char)
    requires forall i :: 0 <= i < |e| ==> e[i] != c
    ensures RFind(b + e, c) == RFind(b, c)
  {
    if e != [] {
      var be := b + e;
      assert be[..|be| - 1] == b + e[..|e| - 1];
      RFindAppend(b, e[..|e| - 1], c);
    } else {
      assert b + e == b;
    }
  }

  /**
   * Replacing the extension: for a base whose last component has a stem,
   * `splitext(base + ext)` gives back `base` and `ext` for any extension
   * `ext` made of a dot and then no dot or slash.
   */
  lemma SplitExtOfAppended(base: string, ext: string)
    requires HasStem(base)
    requires |ext| >= 1 && ext[0] == '.' && NoDotOrSlash(ext[1..])
    ensures SplitExt(base + ext) == (base, ext)
  {
    var p := base + ext;
    assert forall i :: 0 <= i < |ext[1..]| ==> ext[1..][i] == ext[i + 1];
    assert RFind(p, '/') == RFind(base, '/') by {
      assert p == (base + ext[..1]) + ext[1..];
      RFindAppend(base + ext[..1], ext[1..], '/');
      RFindAppend(base, ext[..1], '/');
    }
    assert RFind(p, '.') == |base| by {
      assert p == (base + ext[..1]) + ext[1..];
      RFindAppend(base + ext[..1], ext[1..], '.');
    }
    var k :| RFind(base, '/') < k < |base| && base[k] != '.';
    assert p[k] == base[k];
    assert p[..|base|] == base;
    assert p[|base|..] == ext;
  }
}
