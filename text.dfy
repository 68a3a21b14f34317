/** Character classes, decimal numbers and the few string searches the script relies on. */
module Text {
  import opened Wrappers

  predicate IsDigit(c: char) { '0' <= c <= '9' }

  predicate IsLetter(c: char) { 'a' <= c <= 'z' || 'A' <= c <= 'Z' }

  /** A character the natural key keeps; every other character separates sections. */
  predicate IsKeyChar(c: char) { IsLetter(c) || IsDigit(c) }

  predicate AllDigits(s: string) { forall i :: 0 <= i < |s| ==> IsDigit(s[i]) }

  predicate AllLetters(s: string) { forall i :: 0 <= i < |s| ==> IsLetter(s[i]) }

  predicate AllKeyChars(s: string) { forall i :: 0 <= i < |s| ==> IsKeyChar(s[i]) }

  /** The characters of `s` that the natural key keeps, in order. */
  function KeyChars(s: string): string
  {
    if s == [] then [] else (if IsKeyChar(s[0]) then [s[0]] else []) + KeyChars(s[1..])
  }

  function Concat(ss: seq<string>): string
  {
    if ss == [] then [] else ss[0] + Concat(ss[1..])
  }

  /** The value of a string of decimal digits, as Python's int() reads it. */
  function DigitsValue(s: string): nat
    requires AllDigits(s)
  {
    if s == [] then 0 else 10 * DigitsValue(s[..|s| - 1]) + (s[|s| - 1] as int - '0' as int)
  }

  /** The decimal rendering of a natural number, as an f-string writes it. */
  function Decimal(n: nat): (r: string)
    ensures r != [] && AllDigits(r)
    ensures r[0] == '0' ==> n == 0 && r == "0"
  {
    if n < 10 then [('0' as int + n) as char]
    else Decimal(n / 10) + [('0' as int + n % 10) as char]
  }

  /** The decimal rendering of an integer, with a leading minus sign when negative. */
  function IntText(i: int): (r: string)
    ensures r != []
    ensures i >= 0 <==> r[0] != '-'
  {
    if i < 0 then "-" + Decimal(-i) else Decimal(i)
  }

  lemma {:induction false} DecimalRoundTrip(n: nat)
    ensures DigitsValue(Decimal(n)) == n
  {
    if n >= 10 {
      var r := Decimal(n);
      assert r[..|r| - 1] == Decimal(n / 10);
      DecimalRoundTrip(n / 10);
    }
  }

  /** The text of an integer reads back as its value: the digits after an optional '-' give its magnitude. */
  lemma IntTextValue(i: int)
    ensures i >= 0 ==> AllDigits(IntText(i)) && DigitsValue(IntText(i)) == i
    ensures i < 0 ==> |IntText(i)| > 1 && AllDigits(IntText(i)[1..]) && DigitsValue(IntText(i)[1..]) == -i
  {
    if i >= 0 {
      DecimalRoundTrip(i);
    } else {
      assert IntText(i)[1..] == Decimal(-i);
      DecimalRoundTrip(-i);
    }
  }

  /** Index of the last occurrence of `c` in `s`, or -1 (Python's str.rfind). */
  function LastIndexOf(s: string, c: char): (r: int)
    ensures -1 <= r < |s|
    ensures r >= 0 ==> s[r] == c
    ensures forall j :: r < j < |s| ==> s[j] != c
  {
    if s == [] then -1
    else if s[|s| - 1] == c then |s| - 1
    else LastIndexOf(s[..|s| - 1], c)
  }

  /** `sep` occurs in `s` starting at position `k`. */
  predicate OccursAt(s: string, sep: string, k: nat)
  {
    k + |sep| <= |s| && s[k..k + |sep|] == sep
  }

  /** The first position at or after `i` where `sep` occurs in `s`, or None. */
  function FindFrom(s: string, sep: string, i: nat): (r: Option<nat>)
    requires sep != [] && i <= |s|
    ensures r.Some? ==> i <= r.value && OccursAt(s, sep, r.value)
    ensures forall k: nat :: i <= k && OccursAt(s, sep, k) ==> r.Some? && r.value <= k
    decreases |s| - i
  {
    if i + |sep| > |s| then None
    else if s[i..i + |sep|] == sep then Some(i)
    else FindFrom(s, sep, i + 1)
  }

  /** Position of the first occurrence of `sep` in `s` (Python's str.find), or None. */
  function FindFirst(s: string, sep: string): (r: Option<nat>)
    requires sep != []
    ensures r.Some? ==> OccursAt(s, sep, r.value)
    ensures forall k: nat :: OccursAt(s, sep, k) ==> r.Some? && r.value <= k
  {
    FindFrom(s, sep, 0)
  }

  /** `s.split(sep, 1)[0]`: the text before the first `sep`, or all of `s` when `sep` does not occur. */
  function BeforeFirst(s: string, sep: string): (r: string)
    requires sep != []
    ensures r <= s
    ensures r == s <==> (forall k: nat :: !OccursAt(s, sep, k))
    ensures r != s ==> OccursAt(s, sep, |r|)
    ensures forall k: nat :: k < |r| ==> !OccursAt(s, sep, k)
  {
    match FindFirst(s, sep)
    case None => s
    case Some(i) => s[..i]
  }

  /** `s.split(sep, 1)[1]`: the text after the first `sep`; Python raises when there is none. */
  function AfterFirst(s: string, sep: string): (r: string)
    requires sep != [] && exists k: nat :: OccursAt(s, sep, k)
    ensures |r| + |sep| <= |s| && r == s[|s| - |r|..]
    ensures OccursAt(s, sep, |s| - |r| - |sep|)
    ensures forall k: nat :: k < |s| - |r| - |sep| ==> !OccursAt(s, sep, k)
  {
    s[FindFirst(s, sep).value + |sep|..]
  }
}
