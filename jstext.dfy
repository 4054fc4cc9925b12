/** The pieces of the JavaScript runtime that the calendar matcher leans on when it
    reads clock texts such as "09:30": `String.prototype.split` with a one-character
    separator, `Number` applied to a string of decimal digits, and `parseFloat`,
    which reads only the leading digits. */
module JsText {

  predicate IsDigit(c: char) {
    '0' <= c <= '9'
  }

  predicate AllDigits(s: string) {
    forall i :: 0 <= i < |s| ==> IsDigit(s[i])
  }

  /** The value of a decimal numeral; leading zeros are allowed and the empty
      numeral is 0, as `Number("")` is in JavaScript. */
  function DigitsValue(s: string): nat
    requires AllDigits(s)
  {
    if s == [] then 0 else DigitsValue(s[..|s| - 1]) * 10 + (s[|s| - 1] as int - '0' as int)
  }

  /** Position of the first `sep` in `s`. */
  function IndexOf(s: string, sep: char): (k: nat)
    requires sep in s
    ensures k < |s| && s[k] == sep && sep !in s[..k]
  {
    if s[0] == sep then 0 else IndexOf(s[1..], sep) + 1
  }

  /** Joins parts with the separator between consecutive parts (`Array.prototype.join`). */
  function Join(parts: seq<string>, sep: char): string
    requires parts != []
  {
    if |parts| == 1 then parts[0] else parts[0] + [sep] + Join(parts[1..], sep)
  }

  /** `s.split(sep)`: the maximal pieces of `s` that do not contain `sep`. */
  function Split(s: string, sep: char): (parts: seq<string>)
    ensures parts != []
    ensures forall i :: 0 <= i < |parts| ==> sep !in parts[i]
    decreases |s|
  {
    if sep !in s then [s]
    else
      var k := IndexOf(s, sep);
      [s[..k]] + Split(s[k + 1..], sep)
  }

  /** Joining the pieces back gives the original text. */
  lemma {:induction false} JoinSplit(s: string, sep: char)
    ensures Join(Split(s, sep), sep) == s
    decreases |s|
  {
    if sep in s {
      var k := IndexOf(s, sep);
      JoinSplit(s[k + 1..], sep);
      assert s == s[..k] + [sep] + s[k + 1..];
    }
  }

  /** Splitting undoes joining, for parts free of the separator. */
  lemma {:induction false} SplitJoin(parts: seq<string>, sep: char)
    requires parts != []
    requires forall i :: 0 <= i < |parts| ==> sep !in parts[i]
    ensures Split(Join(parts, sep), sep) == parts
    decreases |parts|
  {
    if |parts| == 1 {
    } else {
      var rest := Join(parts[1..], sep);
      var s := parts[0] + [sep] + rest;
      assert s[|parts[0]|] == sep;
      assert s[..|parts[0]|] == parts[0];
      assert s[|parts[0]| + 1..] == rest;
      IndexOfFirst(s, sep, |parts[0]|);
      SplitJoin(parts[1..], sep);
    }
  }

  /** The first separator is at `j` when `s[j]` is one and none comes before it. */
  lemma {:induction false} IndexOfFirst(s: string, sep: char, j: nat)
    requires j < |s| && s[j] == sep && sep !in s[..j]
    ensures IndexOf(s, sep) == j
    decreases j
  {
    if j > 0 {
      assert s[..j][0] == s[0];
      assert s[1..][..j - 1] == s[..j][1..];
      IndexOfFirst(s[1..], sep, j - 1);
    }
  }

  /** A clock text as the time input and the job list give it: hours and minutes,
      both non-empty decimal numerals, separated by ':' (a seconds part may follow). */
  predicate IsClockText(t: string) {
    var parts := Split(t, ':');
    |parts| >= 2 && parts[0] != [] && AllDigits(parts[0]) && parts[1] != [] && AllDigits(parts[1])
  }

  function Hours(t: string): nat
    requires IsClockText(t)
  {
    DigitsValue(Split(t, ':')[0])
  }

  function Minutes(t: string): nat
    requires IsClockText(t)
  {
    DigitsValue(Split(t, ':')[1])
  }

  /** The longest prefix of `s` made of decimal digits. */
  function LeadingDigits(s: string): (p: string)
    ensures p <= s && AllDigits(p)
    ensures |p| < |s| ==> !IsDigit(s[|p|])
  {
    if s != [] && IsDigit(s[0]) then [s[0]] + LeadingDigits(s[1..]) else []
  }

  /** `parseFloat(t)` for a clock text: the numeral before ':' is read and the rest is
      ignored, since ':' cannot continue a number. */
  function ParseFloat(t: string): (r: nat)
    requires IsClockText(t)
    ensures r == Hours(t)
  {
    LeadingDigitsOfClock(t);
    DigitsValue(LeadingDigits(t))
  }

  lemma LeadingDigitsOfClock(t: string)
    requires IsClockText(t)
    ensures LeadingDigits(t) == Split(t, ':')[0]
  {
    var parts := Split(t, ':');
    var k := IndexOf(t, ':');
    assert parts[0] == t[..k];
    LeadingDigitsPrefix(t, k);
  }

  lemma {:induction false} LeadingDigitsPrefix(s: string, k: nat)
    requires k < |s| && AllDigits(s[..k]) && !IsDigit(s[k])
    ensures LeadingDigits(s) == s[..k]
    decreases k
  {
    if k > 0 {
      assert IsDigit(s[..k][0]);
      assert s[1..][..k - 1] == s[..k][1..];
      LeadingDigitsPrefix(s[1..], k - 1);
    }
  }

  /** A clock text built from an hours numeral and a minutes numeral reads back as
      those two numbers, and `parseFloat` of it is the hours alone. */
  lemma ClockTextParts(h: string, m: string)
    requires h != [] && AllDigits(h) && m != [] && AllDigits(m)
    ensures IsClockText(h + ":" + m)
    ensures Hours(h + ":" + m) == DigitsValue(h) && Minutes(h + ":" + m) == DigitsValue(m)
    ensures ParseFloat(h + ":" + m) == DigitsValue(h)
  {
    assert Join([h, m], ':') == h + ":" + m;
    SplitJoin([h, m], ':');
  }
}
