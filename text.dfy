/** Character classes, string helpers and the few regular-expression building
    blocks that the catalog parser needs, written out by hand.

    Python's `\s` in a `str` pattern and `str.strip()` both test a character
    with the same whitespace table; `IsSpace` is that table. Case folding
    (`str.lower()`, `re.IGNORECASE`) and `\d` are modelled for ASCII only. */
module Text {

  datatype Option<T> = None | Some(value: T)

  /** The characters Python treats as whitespace (`\s`, `str.isspace`, `str.strip`). */
  predicate IsSpace(c: char): (b: bool)
    ensures c == ' ' || c == '\t' || c == '\n' || c == '\r' ==> b
    ensures b ==> !('0' <= c <= '9') && c != '-' && !('A' <= c <= 'Z')
  {
    var n := c as int;
    || 0x09 <= n <= 0x0D
    || 0x1C <= n <= 0x20
    || n == 0x85 || n == 0xA0 || n == 0x1680
    || 0x2000 <= n <= 0x200A
    || n == 0x2028 || n == 0x2029 || n == 0x202F || n == 0x205F || n == 0x3000
  }

  predicate IsDigit(c: char)
  {
    '0' <= c <= '9'
  }

  ghost predicate AllSpace(s: string)
  {
    forall k :: 0 <= k < |s| ==> IsSpace(s[k])
  }

  ghost predicate AllDigits(s: string)
  {
    forall k :: 0 <= k < |s| ==> IsDigit(s[k])
  }

  function ToLower(c: char): char
  {
    if 'A' <= c <= 'Z' then (c as int - 'A' as int + 'a' as int) as char else c
  }

  /** `str.lower()`, restricted to ASCII letters. */
  function Lower(s: string): (r: string)
    ensures |r| == |s|
    ensures forall k :: 0 <= k < |r| ==> !('A' <= r[k] <= 'Z')
    ensures forall k :: 0 <= k < |s| && 'A' <= s[k] <= 'Z' ==> r[k] as int == s[k] as int + 32
    ensures forall k :: 0 <= k < |s| && !('A' <= s[k] <= 'Z') ==> r[k] == s[k]
  {
    seq(|s|, k requires 0 <= k < |s| => ToLower(s[k]))
  }


  /** The character classes the patterns repeat: `\s`, `\d`, `-` and `.`
      (any character but a newline). */
  datatype CharClass = Space | Digit | Dash | NotNewline

  predicate InClass(c: char, cls: CharClass)
  {
    match cls
    case Space => IsSpace(c)
    case Digit => IsDigit(c)
    case Dash => c == '-'
    case NotNewline => c != '\n'
  }

  /** Length of the longest run of characters of class `cls` that starts at
      `i` (a greedy `cls*`). */
  function Run(s: string, i: nat, cls: CharClass): (r: nat)
    requires i <= |s|
    ensures i + r <= |s|
    ensures forall k :: i <= k < i + r ==> InClass(s[k], cls)
    ensures i + r == |s| || !InClass(s[i + r], cls)
    decreases |s| - i
  {
    if i < |s| && InClass(s[i], cls) then 1 + Run(s, i + 1, cls) else 0
  }

  /** Index of the first newline at or after `j`, or `|s|`: where a greedy `.+`
      that starts at `j` stops. */
  function LineEnd(s: string, j: nat): (e: nat)
    requires j <= |s|
    ensures j <= e <= |s|
    ensures forall k :: j <= k < e ==> s[k] != '\n'
    ensures e == |s| || s[e] == '\n'
  {
    j + Run(s, j, NotNewline)
  }

  /** The first success in `ms[p..]`: the outcome of trying a pattern at
      each position in turn and keeping the leftmost match, as `re.search` does. */
  function FirstSome<T>(ms: seq<Option<T>>, p: nat): (r: Option<T>)
    ensures r.Some? ==> exists q :: p <= q < |ms| && ms[q] == r && forall k :: p <= k < q ==> ms[k].None?
    ensures r.None? ==> forall q :: p <= q < |ms| ==> ms[q].None?
    decreases |ms| - p
  {
    if p >= |ms| then None
    else if ms[p].Some? then ms[p]
    else FirstSome(ms, p + 1)
  }

  /** Smallest `e` in `[lo, j]` such that everything in `s[e..j]` is whitespace. */
  function TrimmedEnd(s: string, lo: nat, j: nat): (e: nat)
    requires lo <= j <= |s|
    ensures lo <= e <= j
    ensures forall k :: e <= k < j ==> IsSpace(s[k])
    ensures e == lo || !IsSpace(s[e - 1])
    decreases j
  {
    if j == lo || !IsSpace(s[j - 1]) then j else TrimmedEnd(s, lo, j - 1)
  }

  /** `str.strip()`: the text with its leading and trailing whitespace removed. */
  function Strip(s: string): (r: string)
    ensures exists i, j :: 0 <= i <= j <= |s| && r == s[i..j] && AllSpace(s[..i]) && AllSpace(s[j..])
    ensures r != [] ==> !IsSpace(r[0]) && !IsSpace(r[|r| - 1])
  {
    var i := Run(s, 0, Space);
    var j := TrimmedEnd(s, i, |s|);
    assert AllSpace(s[..i]);
    assert AllSpace(s[j..]);
    s[i..j]
  }

  /** Stripping keeps a string free of a character it was free of. */
  lemma StripAvoids(s: string, c: char)
    requires forall k :: 0 <= k < |s| ==> s[k] != c
    ensures forall k :: 0 <= k < |Strip(s)| ==> Strip(s)[k] != c
  {
    var i := Run(s, 0, Space);
    var j := TrimmedEnd(s, i, |s|);
    assert Strip(s) == s[i..j];
  }

  predicate OccursAt(t: string, k: string, j: nat)
  {
    j + |k| <= |t| && t[j..j + |k|] == k
  }

  function ContainsFrom(t: string, k: string, i: nat): (b: bool)
    ensures b <==> exists j :: i <= j && OccursAt(t, k, j)
    decreases |t| - i
  {
    if i + |k| > |t| then false
    else OccursAt(t, k, i) || ContainsFrom(t, k, i + 1)
  }

  /** Python's `k in t` on two strings: `k` occurs somewhere in `t`. */
  function Contains(t: string, k: string): (b: bool)
    ensures b <==> exists j :: OccursAt(t, k, j)
  {
    ContainsFrom(t, k, 0)
  }

  function DigitValue(c: char): nat
    requires IsDigit(c)
  {
    c as int - '0' as int
  }

  function DigitChar(d: nat): char
    requires d < 10
  {
    ('0' as int + d) as char
  }

  /** `int(s)` for a string of decimal digits. */
  function DecimalValue(s: string): (r: nat)
    requires AllDigits(s)
    ensures r == 0 <==> forall k :: 0 <= k < |s| ==> s[k] == '0'
    decreases |s|
  {
    if s == [] then 0 else 10 * DecimalValue(s[..|s| - 1]) + DigitValue(s[|s| - 1])
  }

  /** A leading zero does not change the value: `int("007") == int("7")`. */
  lemma {:induction false} LeadingZero(d: string)
    requires AllDigits(d)
    ensures AllDigits("0" + d) && DecimalValue("0" + d) == DecimalValue(d)
    decreases |d|
  {
    var z := "0" + d;
    assert AllDigits(z) by {
      assert forall k :: 1 <= k < |z| ==> z[k] == d[k - 1];
    }
    if d != [] {
      var init := d[..|d| - 1];
      assert z[..|z| - 1] == "0" + init;
      assert z[|z| - 1] == d[|d| - 1];
      LeadingZero(init);
    }
  }

  /** `str(n)`, the formatting an f-string applies to an int: decimal digits,
      with no leading zero unless the number is zero. */
  function NatToDecimal(n: nat): (r: string)
    ensures |r| >= 1 && AllDigits(r)
    ensures r[0] == '0' <==> n == 0
    ensures |r| > 1 ==> r[0] != '0'
    decreases n
  {
    if n < 10 then [DigitChar(n)] else NatToDecimal(n / 10) + [DigitChar(n % 10)]
  }

  /** Formatting a number and reading it back gives the number. */
  lemma {:induction false} DecimalRoundTrip(n: nat)
    ensures DecimalValue(NatToDecimal(n)) == n
  {
    if n >= 10 {
      var r := NatToDecimal(n);
      assert r[..|r| - 1] == NatToDecimal(n / 10);
      DecimalRoundTrip(n / 10);
    }
  }

  lemma {:induction false} LeadingDigitBound(s: string)
    requires AllDigits(s) && |s| >= 1 && s[0] != '0'
    ensures DecimalValue(s) >= 1
    ensures |s| >= 2 ==> DecimalValue(s) >= 10
    decreases |s|
  {
    if |s| >= 2 {
      LeadingDigitBound(s[..|s| - 1]);
    }
  }

  /** Reading a digit string without superfluous leading zeros and formatting
      the number gives the same string back. */
  lemma {:induction false} DecimalCanonical(s: string)
    requires AllDigits(s) && |s| >= 1
    requires |s| > 1 ==> s[0] != '0'
    ensures NatToDecimal(DecimalValue(s)) == s
    decreases |s|
  {
    if |s| > 1 {
      var init := s[..|s| - 1];
      var v, d := DecimalValue(init), DigitValue(s[|s| - 1]);
      LeadingDigitBound(s);
      DecimalCanonical(init);
      assert (10 * v + d) / 10 == v && (10 * v + d) % 10 == d;
      assert NatToDecimal(10 * v + d) == NatToDecimal(v) + [DigitChar(d)];
      assert s == init + [s[|s| - 1]];
    }
  }
}
