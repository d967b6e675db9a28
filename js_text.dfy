/**
 * The few JavaScript string operations the route pipeline relies on: the first run
 * of decimal digits (`s.match(/\d+/)` followed by `parseInt(run, 10)`), `parseInt(s, 10)`,
 * `s.includes(t)`, and `s.toLowerCase().trim()`.
 */
module JsText {
  import opened Wrappers

  predicate IsDigit(c: char) { '0' <= c <= '9' }

  predicate AllDigits(s: string) { forall i :: 0 <= i < |s| ==> IsDigit(s[i]) }

  predicate HasNoDigit(s: string) { forall i :: 0 <= i < |s| ==> !IsDigit(s[i]) }

  /** JavaScript's white space and line terminators, as `trim` and `parseInt` skip them. */
  predicate IsJsSpace(c: char) {
    || ('\U{0009}' <= c <= '\U{000D}')   // tab, line feed, vertical tab, form feed, carriage return
    || c == '\U{0020}' || c == '\U{00A0}' || c == '\U{1680}'
    || ('\U{2000}' <= c <= '\U{200A}')
    || c == '\U{2028}' || c == '\U{2029}' || c == '\U{202F}' || c == '\U{205F}'
    || c == '\U{3000}' || c == '\U{FEFF}'
  }

  function DigitValue(c: char): nat
    requires IsDigit(c)
  {
    (c as int) - ('0' as int)
  }

  function DigitChar(d: nat): (c: char)
    requires d < 10
    ensures IsDigit(c) && DigitValue(c) == d
  {
    (('0' as int) + d) as char
  }

  /** The number a string of decimal digits denotes. */
  function DigitsValue(s: string): nat
    requires AllDigits(s)
  {
    if s == [] then 0 else DigitsValue(s[..|s| - 1]) * 10 + DigitValue(s[|s| - 1])
  }

  /** The shortest decimal rendering of `n`. */
  function Decimal(n: nat): (s: string)
    ensures |s| > 0 && AllDigits(s)
  {
    if n < 10 then [DigitChar(n)] else Decimal(n / 10) + [DigitChar(n % 10)]
  }

  /** The longest prefix of `s` made of digits. */
  function LeadingDigits(s: string): (d: string)
    ensures AllDigits(d) && d <= s
    ensures |d| < |s| ==> !IsDigit(s[|d|])
  {
    if s != [] && IsDigit(s[0]) then [s[0]] + LeadingDigits(s[1..]) else []
  }

  /** `s.match(/\d+/)` then `parseInt(match[0], 10)`: the value of the first digit run, if any. */
  function FirstDigitRun(s: string): Option<nat> {
    if s == [] then None
    else if IsDigit(s[0]) then Some(DigitsValue(LeadingDigits(s)))
    else FirstDigitRun(s[1..])
  }

  function SkipSpace(s: string): (r: string)
    ensures |r| <= |s| && r == s[|s| - |r|..]
    ensures r == [] || !IsJsSpace(r[0])
    ensures forall i | 0 <= i < |s| - |r| :: IsJsSpace(s[i])
  {
    if s != [] && IsJsSpace(s[0]) then SkipSpace(s[1..]) else s
  }

  /**
   * `parseInt(s, 10)`: leading white space is skipped, one optional sign is read, then
   * the longest digit prefix; with no digit the result is NaN (`None`). A `-0` reads as 0.
   */
  function ParseInt(s: string): Option<int> {
    var t := SkipSpace(s);
    var negative := t != [] && t[0] == '-';
    var body := if t != [] && (t[0] == '-' || t[0] == '+') then t[1..] else t;
    var digits := LeadingDigits(body);
    if digits == [] then None
    else if negative then Some(-(DigitsValue(digits) as int))
    else Some(DigitsValue(digits))
  }

  /** `s.includes(t)`. */
  predicate Includes(s: string, t: string)
    decreases |s|
  {
    t <= s || (s != [] && Includes(s[1..], t))
  }

  function LowerChar(c: char): char {
    if 'A' <= c <= 'Z' then (c as int + 32) as char else c
  }

  /** `s.toLowerCase()` on the ASCII letters. */
  function ToLower(s: string): (r: string)
    ensures |r| == |s|
    ensures forall i :: 0 <= i < |s| ==> r[i] == LowerChar(s[i])
  {
    seq(|s|, i requires 0 <= i < |s| => LowerChar(s[i]))
  }

  function TrimEnd(s: string): (r: string)
    ensures r <= s
    ensures r == [] || !IsJsSpace(r[|r| - 1])
    ensures forall i | |r| <= i < |s| :: IsJsSpace(s[i])
  {
    if s != [] && IsJsSpace(s[|s| - 1]) then TrimEnd(s[..|s| - 1]) else s
  }

  /** `s.trim()`: white space removed at both ends. */
  function Trim(s: string): string {
    TrimEnd(SkipSpace(s))
  }

  // ---------------------------------------------------------------------------
  // Properties

  /** Reading back a rendered number gives the number. */
  lemma {:induction false} DecimalRoundTrip(n: nat)
    ensures DigitsValue(Decimal(n)) == n
  {
    if n >= 10 {
      DecimalRoundTrip(n / 10);
      var s := Decimal(n);
      assert s[..|s| - 1] == Decimal(n / 10);
    }
  }

  /** A digit run followed by a non-digit (or nothing) is read up to its end. */
  lemma {:induction false} LeadingDigitsOfRun(d: string, q: string)
    requires AllDigits(d)
    requires q == [] || !IsDigit(q[0])
    ensures LeadingDigits(d + q) == d
  {
    if d != [] {
      assert (d + q)[1..] == d[1..] + q;
      LeadingDigitsOfRun(d[1..], q);
    }
  }

  /**
   * The value read from a tag such as "60 mph" or "50;70": text without digits, a
   * number, then anything that does not continue the number gives that number.
   */
  lemma {:induction false} FirstDigitRunFinds(p: string, n: nat, q: string)
    requires HasNoDigit(p)
    requires q == [] || !IsDigit(q[0])
    ensures FirstDigitRun(p + Decimal(n) + q) == Some(n)
  {
    var d := Decimal(n);
    if p == [] {
      assert p + d + q == d + q;
      LeadingDigitsOfRun(d, q);
      DecimalRoundTrip(n);
    } else {
      assert (p + d + q)[1..] == p[1..] + d + q;
      FirstDigitRunFinds(p[1..], n, q);
    }
  }

  /** A string with no digit at all has no digit run (`match` gives null). */
  lemma {:induction false} FirstDigitRunNone(s: string)
    requires HasNoDigit(s)
    ensures FirstDigitRun(s) == None
  {
    if s != [] {
      FirstDigitRunNone(s[1..]);
    }
  }

  lemma DigitIsNotSpaceOrSign(c: char)
    requires IsDigit(c)
    ensures !IsJsSpace(c) && c != '-' && c != '+'
  {
  }

  /** `parseInt` reads a rendered number followed by a non-digit. */
  lemma {:induction false} ParseIntReads(n: nat, q: string)
    requires q == [] || !IsDigit(q[0])
    ensures ParseInt(Decimal(n) + q) == Some(n)
  {
    var d := Decimal(n);
    var s := d + q;
    assert s[0] == d[0] && IsDigit(d[0]);
    DigitIsNotSpaceOrSign(s[0]);
    assert SkipSpace(s) == s;
    LeadingDigitsOfRun(d, q);
    assert LeadingDigits(s) == d;
    DecimalRoundTrip(n);
  }

  /** ... and with a minus sign in front, its negation. */
  lemma {:induction false} ParseIntReadsNegative(n: nat, q: string)
    requires q == [] || !IsDigit(q[0])
    ensures ParseInt("-" + Decimal(n) + q) == Some(-(n as int))
  {
    var d := Decimal(n);
    var s := "-" + d + q;
    assert s[0] == '-' && !IsJsSpace('-');
    assert SkipSpace(s) == s;
    assert s[1..] == d + q;
    LeadingDigitsOfRun(d, q);
    assert LeadingDigits(s[1..]) == d;
    DecimalRoundTrip(n);
    assert DigitsValue(d) == n;
  }

  /** `parseInt` gives NaN exactly when no digit follows the white space and the sign. */
  lemma ParseIntNaN(s: string)
    ensures ParseInt(s).None? <==>
      var t := SkipSpace(s);
      var body := if t != [] && (t[0] == '-' || t[0] == '+') then t[1..] else t;
      body == [] || !IsDigit(body[0])
  {
  }

  lemma {:induction false} TrimEndIdempotent(s: string)
    ensures TrimEnd(TrimEnd(s)) == TrimEnd(s)
  {
  }

  lemma {:induction false} SkipSpaceOfTrimEnd(s: string)
    requires s == [] || !IsJsSpace(s[0])
    ensures SkipSpace(TrimEnd(s)) == TrimEnd(s)
  {
  }

  lemma LowerCharIdempotent(c: char)
    ensures LowerChar(LowerChar(c)) == LowerChar(c)
  {
  }

  lemma LowerKeepsSpace(c: char)
    ensures IsJsSpace(LowerChar(c)) <==> IsJsSpace(c)
  {
  }

  /** Where `Trim` cuts: the number of leading white space characters it drops. */
  function TrimStart(s: string): nat {
    |s| - |SkipSpace(s)|
  }

  /** `Trim` keeps one slice of `s` and drops only white space on either side of it. */
  lemma TrimCut(s: string)
    ensures TrimStart(s) + |Trim(s)| <= |s|
    ensures Trim(s) == s[TrimStart(s)..TrimStart(s) + |Trim(s)|]
    ensures forall i | 0 <= i < TrimStart(s) :: IsJsSpace(s[i])
    ensures forall i | TrimStart(s) + |Trim(s)| <= i < |s| :: IsJsSpace(s[i])
  {
    var t := SkipSpace(s);
    var key := TrimEnd(t);
    SliceOfSuffix(s, t, key, |s| - |t|);
    SpaceAfterSlice(s, t, key, |s| - |t|);
  }

  /** A prefix `key` of the suffix `t` of `s` that starts at `lo` is a slice of `s`. */
  lemma SliceOfSuffix(s: string, t: string, key: string, lo: nat)
    requires lo <= |s| && t == s[lo..] && key <= t
    ensures lo + |key| <= |s| && key == s[lo..lo + |key|]
  {
    forall i | 0 <= i < |key| ensures key[i] == s[lo + i] {
      assert key[i] == t[i];
    }
  }

  /** White space after that prefix in `t` is white space after the slice in `s`. */
  lemma SpaceAfterSlice(s: string, t: string, key: string, lo: nat)
    requires lo <= |s| && t == s[lo..] && |key| <= |t|
    requires forall i | |key| <= i < |t| :: IsJsSpace(t[i])
    ensures forall i | lo + |key| <= i < |s| :: IsJsSpace(s[i])
  {
    forall i | lo + |key| <= i < |s| ensures IsJsSpace(s[i]) {
      assert t[i - lo] == s[i];
    }
  }
}
