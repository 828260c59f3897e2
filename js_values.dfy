/** The few pieces of JavaScript's value semantics that the workout logger relies on:
    numbers read from form fields, division, `String.prototype.replace` with a string
    pattern, decimal rendering of a day number, and `Array.prototype.splice`. */
module JsValues {

  datatype Option<+T> = None | Some(value: T)

  /** A JavaScript number as the logger sees it. The program applies two tests to these
      values, `Number.isFinite(n)` and `n > 0`. +Infinity (what `+"1e309"` yields) fails
      the first and passes the second; NaN (what `+"abc"` yields), -Infinity, `undefined`
      and `false` (both appear in edit patches) fail both, so they are one case here. */
  datatype Num = Finite(value: real) | PosInfinity | NonFinite

  /** `n > 0`. */
  predicate IsPositive(n: Num) {
    n.PosInfinity? || (n.Finite? && n.value > 0.0)
  }

  /** `Number.isFinite(n) && n > 0`. */
  predicate IsPositiveFinite(n: Num) {
    n.Finite? && n.value > 0.0
  }

  /** JavaScript division `a / b`, exact on finite operands with a non-zero divisor.
      Every other case, the infinite quotients included, gives NonFinite; the program
      never stores such a quotient in its list, because the operands are validated
      first. */
  function Div(a: Num, b: Num): (r: Num)
    ensures r.Finite? <==> a.Finite? && b.Finite? && b.value != 0.0
    ensures r.Finite? ==> r.value * b.value == a.value
  {
    if a.Finite? && b.Finite? && b.value != 0.0 then Finite(a.value / b.value) else NonFinite
  }

  /** `c.toUpperCase()` for the ASCII letters the program capitalises. */
  function ToUpper(c: char): char {
    if 'a' <= c <= 'z' then (c as int - 32) as char else c
  }

  /** `s[0].toUpperCase() + s.slice(1)`. */
  function Capitalize(s: string): string
    requires |s| > 0
  {
    [ToUpper(s[0])] + s[1..]
  }

  /** `pattern` starts at index `i` of `s`. */
  predicate OccursAt(s: string, pattern: string, i: int) {
    0 <= i && i + |pattern| <= |s| && s[i..i + |pattern|] == pattern
  }

  /** `s.replace(pattern, replacement)` with a string pattern: only the first
      occurrence of `pattern` is replaced; an empty pattern matches at the front. The
      replacement is inserted literally: JavaScript would expand `$&`, `` $` `` and `$'`
      in it, but the program only ever replaces with "Running" or "Cycling". */
  function ReplaceFirst(s: string, pattern: string, replacement: string): string
    decreases |s|
  {
    if |pattern| == 0 then replacement + s
    else if |s| < |pattern| then s
    else if s[..|pattern|] == pattern then replacement + s[|pattern|..]
    else [s[0]] + ReplaceFirst(s[1..], pattern, replacement)
  }

  /** Without any occurrence of the pattern, `replace` returns the string unchanged. */
  lemma {:induction false} ReplaceFirstNoMatch(s: string, pattern: string, replacement: string)
    requires |pattern| > 0
    requires forall i :: 0 <= i <= |s| - |pattern| ==> !OccursAt(s, pattern, i)
    ensures ReplaceFirst(s, pattern, replacement) == s
  {
    if |s| >= |pattern| {
      assert !OccursAt(s, pattern, 0);
      forall i | 0 <= i <= |s[1..]| - |pattern|
        ensures !OccursAt(s[1..], pattern, i)
      {
        assert !OccursAt(s, pattern, i + 1);
        assert s[1..][i..i + |pattern|] == s[i + 1..i + 1 + |pattern|];
      }
      ReplaceFirstNoMatch(s[1..], pattern, replacement);
    }
  }

  /** Without an occurrence at the front, `replace` keeps the first character and
      works on the rest. */
  lemma ReplaceFirstSkip(s: string, pattern: string, replacement: string)
    requires |pattern| > 0 && |s| >= |pattern| && !OccursAt(s, pattern, 0)
    ensures ReplaceFirst(s, pattern, replacement) == [s[0]] + ReplaceFirst(s[1..], pattern, replacement)
  {
  }

  /** An occurrence after the first character is an occurrence in the rest, one place
      earlier. */
  lemma OccursInRest(s: string, pattern: string, j: int)
    requires 0 < j && |s| > 0
    ensures OccursAt(s, pattern, j) <==> OccursAt(s[1..], pattern, j - 1)
  {
    if j + |pattern| <= |s| {
      assert s[1..][j - 1..j - 1 + |pattern|] == s[j..j + |pattern|];
    }
  }

  /** With a first occurrence at `i`, `replace` splices the replacement in at `i`. */
  lemma {:induction false} ReplaceFirstAtFirstMatch(s: string, pattern: string, replacement: string, i: nat)
    requires |pattern| > 0 && OccursAt(s, pattern, i)
    requires forall j :: 0 <= j < i ==> !OccursAt(s, pattern, j)
    ensures ReplaceFirst(s, pattern, replacement) == s[..i] + replacement + s[i + |pattern|..]
  {
    if i > 0 {
      assert !OccursAt(s, pattern, 0);
      var tail := s[1..];
      OccursInRest(s, pattern, i);
      forall j | 0 <= j < i - 1
        ensures !OccursAt(tail, pattern, j)
      {
        OccursInRest(s, pattern, j + 1);
      }
      ReplaceFirstAtFirstMatch(tail, pattern, replacement, i - 1);
      ReplaceFirstRegroup(s, pattern, replacement, i);
    }
  }

  /** The step of ReplaceFirstAtFirstMatch: a splice in the rest, put behind the first
      character, is the splice in the whole string. */
  lemma ReplaceFirstRegroup(s: string, pattern: string, replacement: string, i: nat)
    requires 0 < i && |pattern| > 0 && i + |pattern| <= |s| && !OccursAt(s, pattern, 0)
    requires ReplaceFirst(s[1..], pattern, replacement)
          == s[1..][..i - 1] + replacement + s[1..][i - 1 + |pattern|..]
    ensures ReplaceFirst(s, pattern, replacement) == s[..i] + replacement + s[i + |pattern|..]
  {
    ReplaceFirstSkip(s, pattern, replacement);
    var before, after := s[1..i], s[i + |pattern|..];
    assert s[1..][..i - 1] == before;
    assert s[1..][i - 1 + |pattern|..] == after;
    ConsAssociates(s[0], before, replacement, after);
    assert [s[0]] + before == s[..i];
  }

  /** `[c] + (a + b + d)` regrouped. */
  lemma ConsAssociates(c: char, a: string, b: string, d: string)
    ensures [c] + (a + b + d) == ([c] + a) + b + d
  {
  }

  /** A string that does not contain the pattern's first character has no occurrence
      of the pattern, so `replace` leaves it alone. */
  lemma ReplaceFirstWithoutLead(s: string, pattern: string, replacement: string)
    requires |pattern| > 0 && pattern[0] !in s
    ensures ReplaceFirst(s, pattern, replacement) == s
  {
    forall i | 0 <= i <= |s| - |pattern|
      ensures !OccursAt(s, pattern, i)
    {
      assert s[i..i + |pattern|][0] == s[i];
    }
    ReplaceFirstNoMatch(s, pattern, replacement);
  }

  function Digit(d: nat): (c: char)
    requires d < 10
  {
    ('0' as int + d) as char
  }

  predicate IsDigit(c: char) {
    '0' <= c <= '9'
  }

  /** The decimal rendering of a natural number, as a template literal `${n}` gives it. */
  function DecimalString(n: nat): (r: string)
    ensures |r| > 0
    ensures forall i :: 0 <= i < |r| ==> IsDigit(r[i])
  {
    if n < 10 then [Digit(n)] else DecimalString(n / 10) + [Digit(n % 10)]
  }

  /** The number a string of decimal digits denotes. */
  function DecimalValue(s: string): nat
    requires forall i :: 0 <= i < |s| ==> IsDigit(s[i])
  {
    if |s| == 0 then 0
    else
      assert IsDigit(s[|s| - 1]);
      10 * DecimalValue(s[..|s| - 1]) + (s[|s| - 1] as int - '0' as int)
  }

  /** Rendering a day number loses nothing: reading the digits back gives the number. */
  lemma {:induction false} DecimalRoundTrip(n: nat)
    ensures DecimalValue(DecimalString(n)) == n
  {
    if n >= 10 {
      DecimalRoundTrip(n / 10);
      var s := DecimalString(n);
      assert s[..|s| - 1] == DecimalString(n / 10);
    }
  }

  function Min(a: int, b: int): int {
    if a < b then a else b
  }

  function Max(a: int, b: int): int {
    if a < b then b else a
  }

  /** The array `s.splice(start, deleteCount, ...items)` leaves behind. A negative start
      counts from the end and is clamped at 0; a start past the end is clamped to the
      length; at most the elements that exist are deleted. */
  function Splice<T>(s: seq<T>, start: int, deleteCount: nat, items: seq<T>): seq<T> {
    var from := if start < 0 then Max(|s| + start, 0) else Min(start, |s|);
    var count := Min(deleteCount, |s| - from);
    s[..from] + items + s[from + count..]
  }
}
