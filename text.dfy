/** The few JavaScript string and number operations the tile scripts rely on,
    over `string` (a sequence of `char`). */
module Text {
  import opened Wrappers

  /** `s.startsWith(prefix)` */
  predicate StartsWith(s: string, prefix: string) {
    |prefix| <= |s| && s[..|prefix|] == prefix
  }

  /** `s.endsWith(suffix)` */
  predicate EndsWith(s: string, suffix: string) {
    |suffix| <= |s| && s[|s| - |suffix|..] == suffix
  }

  /** `t` occurs in `s` starting at offset `i`. */
  predicate OccursAt(s: string, t: string, i: nat) {
    i + |t| <= |s| && s[i..i + |t|] == t
  }

  /** `s.includes(t)`: `t` occurs in `s` at some offset. */
  predicate Contains(s: string, t: string) {
    exists i: nat | i <= |s| :: OccursAt(s, t, i)
  }

  /** `s.split(c)[0]`: the text before the first `c`, or all of `s` when `c` does not occur. */
  function BeforeFirst(s: string, c: char): (r: string)
    ensures |r| <= |s| && r == s[..|r|]
    ensures c !in r
    ensures |r| < |s| ==> s[|r|] == c
  {
    if |s| == 0 || s[0] == c then "" else [s[0]] + BeforeFirst(s[1..], c)
  }

  /** When `s` has no `c`, the first `c` of `s + t` is the first character of `t`. */
  lemma {:induction false} BeforeFirstAppend(s: string, t: string, c: char)
    requires c !in s && |t| > 0 && t[0] == c
    ensures BeforeFirst(s + t, c) == s
  {
    if |s| > 0 {
      assert (s + t)[1..] == s[1..] + t;
      BeforeFirstAppend(s[1..], t, c);
    }
  }

  /** A string without `c` is its own first field. */
  lemma {:induction false} BeforeFirstAbsent(s: string, c: char)
    requires c !in s
    ensures BeforeFirst(s, c) == s
  {
    if |s| > 0 {
      assert s[0] in s;
      assert forall ch :: ch in s[1..] ==> ch in s;
      BeforeFirstAbsent(s[1..], c);
      assert s == [s[0]] + s[1..];
    }
  }

  predicate IsDigit(ch: char) {
    '0' <= ch <= '9'
  }

  predicate AllDigits(s: string) {
    forall i :: 0 <= i < |s| ==> IsDigit(s[i])
  }

  /** The value of a string of decimal digits, most significant first ("" is 0). */
  function DecimalValue(s: string): nat
    requires AllDigits(s)
    decreases |s|
  {
    if |s| == 0 then 0 else DecimalValue(s[..|s| - 1]) * 10 + (s[|s| - 1] as int - '0' as int)
  }

  /** The base-10 text of `n`, as a JavaScript template literal writes a non-negative integer. */
  function DecimalString(n: nat): (s: string)
    ensures |s| > 0 && AllDigits(s)
  {
    if n < 10 then [('0' as int + n) as char]
    else DecimalString(n / 10) + [('0' as int + n % 10) as char]
  }

  lemma {:induction false} DecimalRoundTrip(n: nat)
    ensures DecimalValue(DecimalString(n)) == n
  {
    if n >= 10 {
      var s := DecimalString(n / 10);
      var d := ('0' as int + n % 10) as char;
      assert (s + [d])[..|s|] == s;
      DecimalRoundTrip(n / 10);
    }
  }

  /** `Number(s)` for the strings this model admits: the empty string is 0 and a run
      of decimal digits is its value; every other string is taken to be NaN (`None`). */
  function JsNumber(s: string): (r: Option<nat>)
    ensures r.None? <==> exists i :: 0 <= i < |s| && !IsDigit(s[i])
    ensures s == [] ==> r == Some(0)
    ensures |s| == 1 && IsDigit(s[0]) ==> r == Some(s[0] as int - '0' as int)
  {
    if AllDigits(s) then
      assert |s| == 1 ==> s[..|s| - 1] == [] && DecimalValue(s[..|s| - 1]) == 0;
      Some(DecimalValue(s))
    else None
  }

  /** The number a written id reads back as is the id itself. */
  lemma NumberOfDecimal(n: nat)
    ensures JsNumber(DecimalString(n)) == Some(n)
  {
    DecimalRoundTrip(n);
  }

  /** Any character outside '0'..'9' makes the text NaN. */
  lemma NumberOfNonDigit(s: string, i: nat)
    requires i < |s| && !IsDigit(s[i])
    ensures JsNumber(s) == None
  {
  }
}
