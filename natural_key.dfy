/**
 * The "sectioned mixed" natural sort key of a file stem (sectioned_mixed_key).
 *
 * A stem is cut into sections at every character that is not an ASCII
 * letter or digit ('-', '_' and every other non-word character). Each
 * section is cut into its maximal runs of digits and of non-digits; a digit
 * run becomes an integer token, any other run a string token. After a
 * section whose last token is a string, the sentinel -1 is appended.
 */
module NaturalKey {
  import opened Text
  import opened Gathering

  datatype Token = Num(value: int) | Str(text: string)

  /** The token appended after a section that ends in a string. */
  const Sentinel: Token := Num(-1)

  /** re.split('-|_|\W', x): the pieces between separator characters, empty pieces included. */
  function Sections(x: string): (r: seq<string>)
    ensures |r| >= 1
    ensures forall i :: 0 <= i < |r| ==> AllKeyChars(r[i])
  {
    if x == [] then [[]]
    else
      var rest := Sections(x[1..]);
      if IsKeyChar(x[0]) then [[x[0]] + rest[0]] + rest[1..] else [[]] + rest
  }

  /** Every character of `w` is a digit, or every character is a non-digit. */
  predicate Uniform(w: string)
  {
    forall i :: 0 <= i < |w| ==> IsDigit(w[i]) == IsDigit(w[0])
  }

  /**
   * re.split('([0-9]+)', s) without its empty pieces: the maximal runs of
   * digits and of non-digits of `s`, left to right (see RunsAreMaximal).
   */
  function Runs(s: string): (r: seq<string>)
    ensures forall i :: 0 <= i < |r| ==> r[i] != []
  {
    if s == [] then []
    else
      var rest := Runs(s[1..]);
      if rest != [] && IsDigit(rest[0][0]) == IsDigit(s[0]) then
        [[s[0]] + rest[0]] + rest[1..]
      else
        [[s[0]]] + rest
  }

  /**
   * The runs cover `s` exactly, each is all digits or all non-digits, and
   * neighbouring runs are of different kinds, so no run could be longer.
   */
  lemma {:induction false} RunsAreMaximal(s: string)
    ensures var r := Runs(s);
      && Concat(r) == s
      && (forall i :: 0 <= i < |r| ==> Uniform(r[i]))
      && Alternating(r)
      && (s != [] ==> r != [] && r[0][0] == s[0])
      && (AllKeyChars(s) ==> forall i :: 0 <= i < |r| ==> AllKeyChars(r[i]))
  {
    RunsCover(s);
    RunsUniform(s);
    RunsAlternate(s);
    RunsFirst(s);
    if AllKeyChars(s) {
      RunsKeyChars(s);
    }
  }

  lemma {:induction false} RunsCover(s: string)
    ensures Concat(Runs(s)) == s
  {
    if s != [] {
      RunsCover(s[1..]);
      var rest := Runs(s[1..]);
      if rest != [] && IsDigit(rest[0][0]) == IsDigit(s[0]) {
        assert Runs(s)[1..] == rest[1..];
        assert Concat(rest) == rest[0] + Concat(rest[1..]);
        assert s == [s[0]] + s[1..];
      } else {
        assert Runs(s)[1..] == rest;
      }
    }
  }

  lemma RunsFirst(s: string)
    ensures s != [] ==> Runs(s) != [] && Runs(s)[0][0] == s[0]
  {
  }

  lemma {:induction false} RunsUniform(s: string)
    ensures forall i :: 0 <= i < |Runs(s)| ==> Uniform(Runs(s)[i])
  {
    if s != [] {
      RunsUniform(s[1..]);
      var rest := Runs(s[1..]);
      if rest != [] && IsDigit(rest[0][0]) == IsDigit(s[0]) {
        assert Runs(s)[1..] == rest[1..];
      } else {
        assert Runs(s)[1..] == rest;
      }
    }
  }

  predicate Alternating(r: seq<string>)
  {
    forall i, j :: 0 <= i < |r| && 0 <= j < |r| && j == i + 1 && r[i] != [] && r[j] != [] ==> IsDigit(r[i][0]) != IsDigit(r[j][0])
  }

  lemma {:induction false} RunsAlternate(s: string)
    ensures Alternating(Runs(s))
  {
    if s != [] {
      RunsAlternate(s[1..]);
      var rest := Runs(s[1..]);
      var r := Runs(s);
      if rest != [] && IsDigit(rest[0][0]) == IsDigit(s[0]) {
        assert r[0][0] == s[0];
        forall i, j | 0 <= i < j < |r| && j == i + 1 ensures IsDigit(r[i][0]) != IsDigit(r[j][0]) {
          assert r[j] == rest[j];
          assert i == 0 || r[i] == rest[i];
          assert 0 <= i < j < |rest|;
          assert IsDigit(rest[i][0]) != IsDigit(rest[j][0]);
        }
      } else {
        assert r[1..] == rest;
      }
    }
  }

  lemma {:induction false} RunsKeyChars(s: string)
    requires AllKeyChars(s)
    ensures forall i :: 0 <= i < |Runs(s)| ==> AllKeyChars(Runs(s)[i])
  {
    if s != [] {
      assert AllKeyChars(s[1..]);
      RunsKeyChars(s[1..]);
      var rest := Runs(s[1..]);
      if rest != [] && IsDigit(rest[0][0]) == IsDigit(s[0]) {
        assert Runs(s)[1..] == rest[1..];
        assert AllKeyChars([s[0]] + rest[0]);
      } else {
        assert Runs(s)[1..] == rest;
      }
    }
  }

  /** `int(k) if k.isdigit() else k` */
  function RunToken(k: string): Token
  {
    if k != [] && AllDigits(k) then Num(DigitsValue(k)) else Str(k)
  }

  /** One token per run, in order. */
  function Tokens(runs: seq<string>): (t: seq<Token>)
    ensures |t| == |runs|
    ensures forall i :: 0 <= i < |runs| ==> t[i] == RunToken(runs[i])
  {
    if runs == [] then [] else Tokens(runs[..|runs| - 1]) + [RunToken(runs[|runs| - 1])]
  }

  /** The tokens of one section, one per maximal run. */
  function SectionTokens(s: string): seq<Token>
  {
    Tokens(Runs(s))
  }

  /** The tokens of one section, followed by the sentinel when the last of them is a string. */
  function SectionKey(s: string): seq<Token>
  {
    var t := SectionTokens(s);
    if t != [] && t[|t| - 1].Str? then t + [Sentinel] else t
  }

  /** The keys of the given sections, one after the other. */
  function ConcatKeys(ss: seq<string>): seq<Token>
  {
    ConcatMap(SectionKey, ss)
  }

  /** sectioned_mixed_key as a function of the stem. */
  function Key(x: string): seq<Token>
  {
    ConcatKeys(Sections(x))
  }

  /** sectioned_mixed_key: the nested loops of the script, appending to `keys`. */
  method SectionedMixedKey(x: string) returns (keys: seq<Token>)
    ensures keys == Key(x)
  {
    var sections := Sections(x);
    keys := [];
    for i := 0 to |sections|
      invariant keys == ConcatKeys(sections[..i])
    {
      var runs := Runs(sections[i]);
      ghost var before := keys;
      ConcatKeysShape(sections[..i]);
      for j := 0 to |runs|
        invariant keys == before + Tokens(runs[..j])
      {
        TokensSnoc(runs, j);
        keys := keys + [RunToken(runs[j])];
      }
      assert runs[..|runs|] == runs;
      SentinelAfterSection(before, sections[i]);
      if |keys| > 0 && !keys[|keys| - 1].Num? {
        keys := keys + [Sentinel];
      }
      ConcatKeysSnoc(sections, i);
    }
    assert sections[..|sections|] == sections;
  }

  lemma TokensSnoc(runs: seq<string>, j: nat)
    requires j < |runs|
    ensures Tokens(runs[..j + 1]) == Tokens(runs[..j]) + [RunToken(runs[j])]
  {
    assert runs[..j + 1][..j] == runs[..j];
  }

  lemma ConcatKeysSnoc(ss: seq<string>, i: nat)
    requires i < |ss|
    ensures ConcatKeys(ss[..i + 1]) == ConcatKeys(ss[..i]) + SectionKey(ss[i])
  {
    ConcatMapSnoc(SectionKey, ss, i);
  }

  /** The script's test on the whole `keys` list appends the sentinel exactly when the section itself ends in a string. */
  lemma SentinelAfterSection(before: seq<Token>, s: string)
    requires before == [] || before[|before| - 1].Num?
    ensures var k := before + SectionTokens(s);
      (if |k| > 0 && !k[|k| - 1].Num? then k + [Sentinel] else k) == before + SectionKey(s)
  {
    var t := SectionTokens(s);
    if t == [] {
      assert before + t == before;
    } else {
      assert (before + t)[|before + t| - 1] == t[|t| - 1];
    }
  }

  /**
   * The shape every key has: string tokens are non-empty runs of letters and
   * are always followed by an integer; integers are digit values (>= 0)
   * except the sentinel, which never starts a key and only ever follows a
   * string.
   */
  ghost predicate WellShaped(k: seq<Token>)
  {
    && (forall i :: 0 <= i < |k| && k[i].Str? ==> k[i].text != [] && AllLetters(k[i].text))
    && (forall i :: 0 <= i < |k| && k[i].Num? ==> k[i].value >= 0 || k[i] == Sentinel)
    && (|k| > 0 ==> k[|k| - 1].Num? && k[0] != Sentinel)
    && (forall i, j :: 0 <= i < j < |k| && j == i + 1 ==> (k[i].Str? ==> k[j].Num?) && (k[j] == Sentinel ==> k[i].Str?))
  }

  /** The tokens of a section alternate between letter strings and digit values. */
  lemma SectionTokensShape(s: string)
    requires AllKeyChars(s)
    ensures var t := SectionTokens(s);
      && (forall i :: 0 <= i < |t| && t[i].Str? ==> t[i].text != [] && AllLetters(t[i].text))
      && (forall i :: 0 <= i < |t| && t[i].Num? ==> t[i].value >= 0)
      && (forall i, j :: 0 <= i < j < |t| && j == i + 1 && t[i].Str? ==> t[j].Num?)
  {
    var runs := Runs(s);
    RunsAreMaximal(s);
    var t := SectionTokens(s);
    forall i | 0 <= i < |t|
      ensures t[i].Str? ==> t[i].text != [] && AllLetters(t[i].text)
      ensures t[i].Num? ==> t[i].value >= 0
    {
      if t[i].Str? {
        assert !IsDigit(runs[i][0]);
        assert AllKeyChars(runs[i]);
      }
    }
    forall i, j | 0 <= i < j < |t| && j == i + 1 && t[i].Str?
      ensures t[j].Num?
    {
      assert !IsDigit(runs[i][0]);
      assert IsDigit(runs[j][0]);
      assert AllDigits(runs[j]);
    }
  }

  lemma SectionKeyShape(s: string)
    requires AllKeyChars(s)
    ensures WellShaped(SectionKey(s))
  {
    var t := SectionTokens(s);
    SectionTokensShape(s);
    var k := SectionKey(s);
    if t != [] && t[|t| - 1].Str? {
      assert k == t + [Sentinel];
      forall i, j | 0 <= i < j < |k| && j == i + 1
        ensures k[i].Str? ==> k[j].Num?
        ensures k[j] == Sentinel ==> k[i].Str?
      {
        if j < |t| { assert k[i] == t[i] && k[j] == t[j]; }
      }
    }
  }

  lemma ConcatShape(a: seq<Token>, b: seq<Token>)
    requires WellShaped(a) && WellShaped(b)
    requires a == [] || a[|a| - 1].Num?
    ensures WellShaped(a + b)
  {
    var k := a + b;
    forall i | 0 <= i < |k|
      ensures k[i].Str? ==> k[i].text != [] && AllLetters(k[i].text)
      ensures k[i].Num? ==> k[i].value >= 0 || k[i] == Sentinel
    {
      if i < |a| { assert k[i] == a[i]; } else { assert k[i] == b[i - |a|]; }
    }
    forall i, j | 0 <= i < j < |k| && j == i + 1
      ensures k[i].Str? ==> k[j].Num?
      ensures k[j] == Sentinel ==> k[i].Str?
    {
      if j < |a| {
        assert k[i] == a[i] && k[j] == a[j];
      } else if i >= |a| {
        assert k[i] == b[i - |a|] && k[j] == b[j - |a|];
      } else {
        assert k[i] == a[|a| - 1] && k[j] == b[0];
      }
    }
    if |k| > 0 {
      if b != [] { assert k[|k| - 1] == b[|b| - 1]; }
      if a != [] { assert k[0] == a[0]; } else { assert k[0] == b[0]; }
    }
  }

  lemma {:induction false} ConcatKeysShape(ss: seq<string>)
    requires forall i :: 0 <= i < |ss| ==> AllKeyChars(ss[i])
    ensures WellShaped(ConcatKeys(ss))
  {
    if ss != [] {
      ConcatKeysShape(ss[..|ss| - 1]);
      SectionKeyShape(ss[|ss| - 1]);
      ConcatShape(ConcatKeys(ss[..|ss| - 1]), SectionKey(ss[|ss| - 1]));
    }
  }

  /**
   * Every key is well shaped: no empty token, no separator inside a token,
   * exactly one sentinel after each string that ends a section, and a
   * non-empty key always ends in an integer.
   */
  lemma KeyShape(x: string)
    ensures WellShaped(Key(x))
    ensures Key(x) == [] || Key(x)[|Key(x)| - 1].Num?
  {
    ConcatKeysShape(Sections(x));
  }

  /** Sections lose only separators: joined back together they are the letters and digits of the stem. */
  lemma {:induction false} SectionsCoverKeyChars(x: string)
    ensures Concat(Sections(x)) == KeyChars(x)
  {
    if x != [] {
      SectionsCoverKeyChars(x[1..]);
      var rest := Sections(x[1..]);
      assert Concat(rest) == rest[0] + Concat(rest[1..]);
      if IsKeyChar(x[0]) {
        var r := Sections(x);
        assert r[1..] == rest[1..];
        assert Concat(r) == ([x[0]] + rest[0]) + Concat(rest[1..]);
      } else {
        assert Sections(x) == [[]] + rest;
        assert ([[]] + rest)[1..] == rest;
      }
    }
  }

  lemma SectionKeyEmpty(s: string)
    ensures SectionKey(s) == [] <==> s == []
  {
    RunsAreMaximal(s);
  }

  lemma ConcatKeysEmpty(ss: seq<string>)
    ensures ConcatKeys(ss) == [] <==> AllEmpty(ss)
  {
    ConcatMapEmpty(SectionKey, ss);
    forall i | 0 <= i < |ss| ensures SectionKey(ss[i]) == [] <==> ss[i] == [] {
      SectionKeyEmpty(ss[i]);
    }
  }

  predicate NoKeyChars(x: string) { forall i :: 0 <= i < |x| ==> !IsKeyChar(x[i]) }

  predicate AllEmpty(ss: seq<string>) { forall i :: 0 <= i < |ss| ==> ss[i] == [] }

  lemma AllEmptyCons(h: string, t: seq<string>)
    ensures AllEmpty([h] + t) <==> h == [] && AllEmpty(t)
  {
    var l := [h] + t;
    assert l[0] == h;
    assert forall i :: 0 <= i < |t| ==> l[i + 1] == t[i];
    if h == [] && AllEmpty(t) {
      forall i | 0 <= i < |l| ensures l[i] == [] {
        if i > 0 { assert l[i] == t[i - 1]; }
      }
    }
  }

  lemma {:induction false} SectionsAllEmpty(x: string)
    ensures AllEmpty(Sections(x)) <==> NoKeyChars(x)
  {
    if x != [] {
      SectionsAllEmpty(x[1..]);
      var rest := Sections(x[1..]);
      if IsKeyChar(x[0]) {
        assert Sections(x)[0] != [];
      } else {
        assert Sections(x) == [[]] + rest;
        AllEmptyCons([], rest);
        assert x == [x[0]] + x[1..];
        assert NoKeyChars(x) <==> NoKeyChars(x[1..]);
      }
    }
  }

  /** A stem yields the empty key exactly when it has no letter or digit (empty or separators only). */
  lemma KeyEmptyIff(x: string)
    ensures Key(x) == [] <==> NoKeyChars(x)
  {
    ConcatKeysEmpty(Sections(x));
    SectionsAllEmpty(x);
  }

  lemma {:induction false} SectionsSplit(a: string, c: char, b: string)
    requires !IsKeyChar(c)
    ensures Sections(a + [c] + b) == Sections(a) + Sections(b)
  {
    if a == [] {
      assert a + [c] + b == [c] + b;
      SectionsCons(c, b);
    } else {
      var tail := a[1..] + [c] + b;
      assert Sections(a + [c] + b) == Sections([a[0]] + tail) by {
        assert a + [c] + b == [a[0]] + tail;
      }
      assert Sections(a) == Sections([a[0]] + a[1..]) by {
        assert a == [a[0]] + a[1..];
      }
      SectionsSplit(a[1..], c, b);
      SectionsConsAppend(a[0], a[1..], tail, Sections(b));
    }
  }

  /** Putting the same character in front of two strings keeps a common tail of their sections. */
  lemma SectionsConsAppend(ch: char, y: string, z: string, t: seq<string>)
    requires Sections(z) == Sections(y) + t
    ensures Sections([ch] + z) == Sections([ch] + y) + t
  {
    SectionsCons(ch, z);
    SectionsCons(ch, y);
    ConsSectionsAppend(IsKeyChar(ch), ch, Sections(z), Sections(y), t, Sections([ch] + z), Sections([ch] + y));
  }

  lemma ConsSectionsAppend(joins: bool, ch: char, sz: seq<string>, sy: seq<string>, t: seq<string>,
                           rz: seq<string>, ry: seq<string>)
    requires sy != [] && sz == sy + t
    requires rz == if joins then [[ch] + sz[0]] + sz[1..] else [[]] + sz
    requires ry == if joins then [[ch] + sy[0]] + sy[1..] else [[]] + sy
    ensures rz == ry + t
  {
    if joins {
      GrowFirst([ch], sy, t);
    }
  }

  /** One step of the splitting: a leading letter or digit joins the first section, anything else starts a new one. */
  lemma SectionsCons(ch: char, y: string)
    ensures var s := Sections(y);
      Sections([ch] + y) == if IsKeyChar(ch) then [[ch] + s[0]] + s[1..] else [[]] + s
  {
    assert ([ch] + y)[1..] == y;
  }

  lemma GrowFirst(h: string, s: seq<string>, t: seq<string>)
    requires s != []
    ensures [h + (s + t)[0]] + (s + t)[1..] == [h + s[0]] + s[1..] + t
  {
    assert (s + t)[0] == s[0];
    assert (s + t)[1..] == s[1..] + t;
  }

  lemma ConcatKeysAppend(p: seq<string>, q: seq<string>)
    ensures ConcatKeys(p + q) == ConcatKeys(p) + ConcatKeys(q)
  {
    ConcatMapAppend(SectionKey, p, q);
  }

  /** The key of two stems joined by a separator is the key of the first followed by the key of the second. */
  lemma KeySplitsAtSeparator(a: string, c: char, b: string)
    requires !IsKeyChar(c)
    ensures Key(a + [c] + b) == Key(a) + Key(b)
  {
    SectionsSplit(a, c, b);
    ConcatKeysAppend(Sections(a), Sections(b));
  }

  lemma {:induction false} SectionsOfKeyChars(s: string)
    requires AllKeyChars(s)
    ensures Sections(s) == [s]
  {
    if s != [] {
      assert AllKeyChars(s[1..]);
      SectionsOfKeyChars(s[1..]);
      assert [s[0]] + s[1..] == s;
    }
  }

  lemma {:induction false} RunsOfDigits(d: string)
    requires d != [] && AllDigits(d)
    ensures Runs(d) == [d]
  {
    if |d| > 1 {
      assert AllDigits(d[1..]);
      RunsOfDigits(d[1..]);
      assert d[1..][0] == d[1];
      assert [d[0]] + d[1..] == d;
    } else {
      assert d == [d[0]];
    }
  }

  lemma {:induction false} RunsOfWordThenNumber(w: string, d: string)
    requires w != [] && AllLetters(w) && AllDigits(d)
    ensures Runs(w + d) == [w] + (if d == [] then [] else [d])
  {
    assert (w + d)[1..] == w[1..] + d;
    if |w| == 1 {
      assert w[1..] + d == d;
      assert w == [w[0]] && !IsDigit(w[0]);
      if d != [] {
        RunsOfDigits(d);
        assert IsDigit(d[0]);
      }
    } else {
      assert AllLetters(w[1..]);
      RunsOfWordThenNumber(w[1..], d);
      assert w[1..][0] == w[1];
      assert [w[0]] + w[1..] == w;
    }
  }

  /**
   * The key of a stem made of a word and a number: a letters-only stem ends
   * in the sentinel, a stem with digits ends in their value.
   */
  lemma KeyOfWordThenNumber(w: string, d: string)
    requires AllLetters(w) && AllDigits(d) && w + d != []
    ensures Key(w + d) == (if w == [] then [] else [Str(w)])
                        + (if d == [] then [Sentinel] else [Num(DigitsValue(d))])
  {
    assert Key(w + d) == SectionKey(w + d) by {
      assert AllKeyChars(w + d);
      SectionsOfKeyChars(w + d);
      ConcatMapOne(SectionKey, w + d);
    }
    SectionKeyOfWordThenNumber(w, d);
  }

  lemma SectionKeyOfWordThenNumber(w: string, d: string)
    requires AllLetters(w) && AllDigits(d) && w + d != []
    ensures SectionKey(w + d) == (if w == [] then [] else [Str(w)])
                               + (if d == [] then [Sentinel] else [Num(DigitsValue(d))])
  {
    if w == [] {
      assert w + d == d;
      RunsOfDigits(d);
    } else {
      RunsOfWordThenNumber(w, d);
      var runs := Runs(w + d);
      assert Tokens(runs)[0] == Str(w);
    }
  }

  /** A stem made only of digits has its value as its key. */
  lemma KeyOfNumber(d: string)
    requires d != [] && AllDigits(d)
    ensures Key(d) == [Num(DigitsValue(d))]
  {
    assert [] + d == d;
    KeyOfWordThenNumber([], d);
  }
}
