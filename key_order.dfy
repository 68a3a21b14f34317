/**
 * How two natural keys compare. A key is compared the way Python compares
 * lists: element by element, the first pair of unequal elements deciding, a
 * proper prefix ordering first. Two integers compare by value and two strings
 * by code points, but an integer never compares with a string: Python raises
 * TypeError there, which this model reports as `Incomparable`.
 */
module KeyOrder {
  import opened Text
  import opened Gathering
  import opened NaturalKey

  datatype Ordering = Less | Equal | Greater | Incomparable

  function Flip(o: Ordering): (r: Ordering)
    ensures (r == Less <==> o == Greater) && (r == Greater <==> o == Less)
    ensures (r == Equal <==> o == Equal) && (r == Incomparable <==> o == Incomparable)
  {
    match o
    case Less => Greater
    case Greater => Less
    case _ => o
  }

  /** Python's `<` on strings: code point by code point, a proper prefix first. */
  function CompareStrings(a: string, b: string): (o: Ordering)
    ensures o != Incomparable
    ensures o == Equal <==> a == b
  {
    if a == [] then (if b == [] then Equal else Less)
    else if b == [] then Greater
    else if a[0] < b[0] then Less
    else if a[0] > b[0] then Greater
    else
      assert a == [a[0]] + a[1..] && b == [b[0]] + b[1..];
      CompareStrings(a[1..], b[1..])
  }

  /** Tokens of the same kind compare; an integer against a string is a TypeError. */
  function CompareTokens(x: Token, y: Token): (o: Ordering)
    ensures o == Incomparable <==> x.Num? != y.Num?
    ensures o == Equal <==> x == y
  {
    match (x, y)
    case (Num(m), Num(n)) => if m < n then Less else if m > n then Greater else Equal
    case (Str(s), Str(t)) => CompareStrings(s, t)
    case _ => Incomparable
  }

  /** Python's `<` on lists of tokens: the first unequal pair decides, else the shorter list is smaller. */
  function CompareKeys(a: seq<Token>, b: seq<Token>): (o: Ordering)
    ensures o == Equal <==> a == b
  {
    if a == [] then (if b == [] then Equal else Less)
    else if b == [] then Greater
    else if a[0] == b[0] then
      assert a == [a[0]] + a[1..] && b == [b[0]] + b[1..];
      CompareKeys(a[1..], b[1..])
    else CompareTokens(a[0], b[0])
  }

  /** `a` orders before `b` or ties with it: the relation a stable sort keeps between neighbours. */
  predicate KeyLeq(a: seq<Token>, b: seq<Token>)
  {
    CompareKeys(a, b) == Less || CompareKeys(a, b) == Equal
  }

  lemma {:induction false} CompareStringsFlip(a: string, b: string)
    ensures CompareStrings(b, a) == Flip(CompareStrings(a, b))
  {
    if a != [] && b != [] && a[0] == b[0] {
      CompareStringsFlip(a[1..], b[1..]);
    }
  }

  lemma CompareTokensFlip(x: Token, y: Token)
    ensures CompareTokens(y, x) == Flip(CompareTokens(x, y))
  {
    if x.Str? && y.Str? {
      CompareStringsFlip(x.text, y.text);
    }
  }

  /** Swapping the operands swaps Less and Greater and keeps Equal and Incomparable. */
  lemma {:induction false} CompareKeysFlip(a: seq<Token>, b: seq<Token>)
    ensures CompareKeys(b, a) == Flip(CompareKeys(a, b))
  {
    if a != [] && b != [] {
      if a[0] == b[0] {
        CompareKeysFlip(a[1..], b[1..]);
      } else {
        CompareTokensFlip(a[0], b[0]);
      }
    }
  }

  lemma {:induction false} CompareStringsTransitive(a: string, b: string, c: string)
    requires CompareStrings(a, b) == Less && CompareStrings(b, c) == Less
    ensures CompareStrings(a, c) == Less
  {
    if a != [] && a[0] == b[0] && b[0] == c[0] {
      CompareStringsTransitive(a[1..], b[1..], c[1..]);
    }
  }

  lemma CompareTokensTransitive(x: Token, y: Token, z: Token)
    requires CompareTokens(x, y) == Less && CompareTokens(y, z) == Less
    ensures CompareTokens(x, z) == Less
  {
    if x.Str? {
      CompareStringsTransitive(x.text, y.text, z.text);
    }
  }

  /**
   * Less is transitive on keys, with no comparability assumption: whatever
   * decides a < b and b < c also decides a < c between two tokens of one kind.
   */
  lemma {:induction false} CompareKeysTransitive(a: seq<Token>, b: seq<Token>, c: seq<Token>)
    requires CompareKeys(a, b) == Less && CompareKeys(b, c) == Less
    ensures CompareKeys(a, c) == Less
  {
    if a != [] {
      if a[0] == b[0] && b[0] == c[0] {
        CompareKeysTransitive(a[1..], b[1..], c[1..]);
      } else if a[0] == b[0] {
        assert CompareTokens(b[0], c[0]) == Less;
      } else if b[0] == c[0] {
        assert CompareTokens(a[0], b[0]) == Less;
      } else {
        CompareTokensTransitive(a[0], b[0], c[0]);
      }
    }
  }

  /** Ties are equal keys, so KeyLeq is transitive too. */
  lemma KeyLeqTransitive(a: seq<Token>, b: seq<Token>, c: seq<Token>)
    requires KeyLeq(a, b) && KeyLeq(b, c)
    ensures KeyLeq(a, c)
  {
    if CompareKeys(a, b) == Less && CompareKeys(b, c) == Less {
      CompareKeysTransitive(a, b, c);
    }
  }

  /** Two comparable keys are ordered one way or the other. */
  lemma KeyLeqTotal(a: seq<Token>, b: seq<Token>)
    requires CompareKeys(a, b) != Incomparable
    ensures KeyLeq(a, b) || KeyLeq(b, a)
    ensures KeyLeq(a, b) && KeyLeq(b, a) ==> a == b
  {
    CompareKeysFlip(a, b);
  }

  /**
   * The sentinel after a letters-only stem orders it before the same letters
   * followed by any number, because digit runs are never negative.
   */
  lemma {:induction false} WordBeforeWordWithNumber(w: string, d: string)
    requires w != [] && AllLetters(w) && d != [] && AllDigits(d)
    ensures CompareKeys(Key(w), Key(w + d)) == Less
  {
    var k := [Str(w)];
    var v := DigitsValue(d);
    assert Key(w) == k + [Sentinel] by {
      KeyOfWordThenNumber(w, []);
      assert w + [] == w;
    }
    assert Key(w + d) == k + [Num(v)] by {
      KeyOfWordThenNumber(w, d);
    }
    CommonPrefixCompare(k, [Sentinel], [Num(v)]);
    assert CompareKeys([Sentinel], [Num(v)]) == Less by {
      assert [Sentinel][1..] == [] && [Num(v)][1..] == [];
    }
  }

  /** Digit runs compare by value, not by characters: the same word with a smaller number orders first. */
  lemma {:induction false} NumbersCompareByValue(w: string, d: string, e: string)
    requires AllLetters(w) && d != [] && AllDigits(d) && e != [] && AllDigits(e)
    requires DigitsValue(d) < DigitsValue(e)
    ensures CompareKeys(Key(w + d), Key(w + e)) == Less
  {
    var k := if w == [] then [] else [Str(w)];
    var m, n := DigitsValue(d), DigitsValue(e);
    assert Key(w + d) == k + [Num(m)] by {
      KeyOfWordThenNumber(w, d);
    }
    assert Key(w + e) == k + [Num(n)] by {
      KeyOfWordThenNumber(w, e);
    }
    CommonPrefixCompare(k, [Num(m)], [Num(n)]);
  }

  /** The key of "D2" orders before that of "D10". */
  lemma TwoBeforeTen()
    ensures CompareKeys(Key("D2"), Key("D10")) == Less
  {
    assert "D2" == "D" + "2" && "D10" == "D" + "10";
    assert DigitsValue("2") == 2 by {
      assert "2"[..0] == [];
    }
    assert DigitsValue("10") == 10 by {
      assert "10"[..1] == "1";
      assert "1"[..0] == [];
    }
    NumbersCompareByValue("D", "2", "10");
  }

  /** The key of "D" orders before that of "D1". */
  lemma WordBeforeOne()
    ensures CompareKeys(Key("D"), Key("D1")) == Less
  {
    assert "D1" == "D" + "1";
    WordBeforeWordWithNumber("D", "1");
  }

  lemma KeyOfDigit(c: char)
    requires IsDigit(c)
    ensures Key([c]) == [Num(c as int - '0' as int)]
  {
    assert [c] == [] + [c];
    KeyOfWordThenNumber([], [c]);
    assert [c][..0] == [];
  }

  lemma KeyOfDigitPair(c: char, sep: char, e: char)
    requires IsDigit(c) && !IsKeyChar(sep) && IsDigit(e)
    ensures Key([c, sep, e]) == [Num(c as int - '0' as int), Num(e as int - '0' as int)]
  {
    var x := [c] + [sep] + [e];
    assert x == [c, sep, e];
    KeySplitsAtSeparator([c], sep, [e]);
    assert Key(x) == Key([c]) + Key([e]);
    KeyOfDigit(c);
    KeyOfDigit(e);
  }

  lemma RunsOfOneA()
    ensures Runs("1a") == ["1", "a"]
  {
    assert "1a"[1..] == "a";
    assert "a"[1..] == [];
    assert Runs("a") == ["a"];
  }

  lemma KeyOfOneA()
    ensures Key("1a") == [Num(1), Str("a"), Sentinel]
  {
    assert AllKeyChars("1a");
    SectionsOfKeyChars("1a");
    RunsOfOneA();
    assert DigitsValue("1") == 1 by { assert "1"[..0] == []; }
    assert Tokens(["1", "a"]) == [Num(1), Str("a")] by {
      assert ["1", "a"][..1] == ["1"];
      assert ["1"][..0] == [];
    }
    ConcatMapOne(SectionKey, "1a");
  }

  /** The key of "1-2" is [1, 2] and that of "1a" is [1, "a", -1]: Python cannot compare them. */
  lemma MixedKeysIncomparable()
    ensures CompareKeys(Key("1-2"), Key("1a")) == Incomparable
  {
    KeyOfDigitPair('1', '-', '2');
    KeyOfOneA();
    var a := [Num(1), Num(2)];
    var b := [Num(1), Str("a"), Sentinel];
    assert a[1..] == [Num(2)] && b[1..] == [Str("a"), Sentinel];
  }

  /** Once two keys differ within a common length, what follows them cannot change the outcome. */
  lemma {:induction false} DecidedPrefix(a: seq<Token>, c: seq<Token>, b: seq<Token>, d: seq<Token>)
    requires |a| == |b| && a != b
    ensures CompareKeys(a + c, b + d) == CompareKeys(a, b)
  {
    assert (a + c)[0] == a[0] && (b + d)[0] == b[0];
    if a[0] == b[0] {
      assert a[1..] != b[1..] by {
        assert a == [a[0]] + a[1..] && b == [b[0]] + b[1..];
      }
      DecidedPrefix(a[1..], c, b[1..], d);
      assert (a + c)[1..] == a[1..] + c && (b + d)[1..] == b[1..] + d;
    }
  }

  /** A common beginning does not decide anything: the keys compare as what follows it. */
  lemma {:induction false} CommonPrefixCompare(k: seq<Token>, a: seq<Token>, b: seq<Token>)
    ensures CompareKeys(k + a, k + b) == CompareKeys(a, b)
  {
    if k != [] {
      assert (k + a)[0] == (k + b)[0];
      assert (k + a)[1..] == k[1..] + a && (k + b)[1..] == k[1..] + b;
      CommonPrefixCompare(k[1..], a, b);
    } else {
      assert k + a == a && k + b == b;
    }
  }

  /** Stems whose first sections have keys of one length that differ are ordered by those first sections alone. */
  lemma FirstSectionDecides(a: string, c: char, x: string, b: string, e: char, y: string)
    requires !IsKeyChar(c) && !IsKeyChar(e)
    requires |Key(a)| == |Key(b)| && Key(a) != Key(b)
    ensures CompareKeys(Key(a + [c] + x), Key(b + [e] + y)) == CompareKeys(Key(a), Key(b))
  {
    KeySplitsAtSeparator(a, c, x);
    KeySplitsAtSeparator(b, e, y);
    DecidedPrefix(Key(a), Key(x), Key(b), Key(y));
  }

  lemma KeyOfLetterDigit(l: char, c: char)
    requires IsLetter(l) && IsDigit(c)
    ensures Key([l, c]) == [Str([l]), Num(c as int - '0' as int)]
  {
    assert [l, c] == [l] + [c];
    KeyOfWordThenNumber([l], [c]);
    assert [c][..0] == [];
  }

  /**
   * The usage text's example: whatever follows the first dash, a D1-... stem
   * orders before an L1-... stem, which orders before an L2-... stem
   * (so D1-VENDOR2-FIXTURE1, L1-VENDOR1-FIXTURE1, L2-VENDOR2-FIXTURE2).
   */
  lemma DocumentedExampleOrder(x: string, y: string, z: string)
    ensures CompareKeys(Key("D1" + ['-'] + x), Key("L1" + ['-'] + y)) == Less
    ensures CompareKeys(Key("L1" + ['-'] + y), Key("L2" + ['-'] + z)) == Less
  {
    LetterDecides(x, y);
    NumberDecides(y, z);
  }

  lemma LetterDecides(x: string, y: string)
    ensures CompareKeys(Key("D1" + ['-'] + x), Key("L1" + ['-'] + y)) == Less
  {
    var d1 := [Str("D"), Num(1)];
    var l1 := [Str("L"), Num(1)];
    KeyOfLetterDigit('D', '1');
    KeyOfLetterDigit('L', '1');
    assert Key("D1") == d1 && Key("L1") == l1;
    assert d1 != l1 by {
      assert d1[0] != l1[0];
    }
    assert CompareKeys(d1, l1) == Less by {
      assert CompareKeys(d1, l1) == CompareStrings("D", "L");
    }
    FirstSectionDecides("D1", '-', x, "L1", '-', y);
  }

  lemma NumberDecides(y: string, z: string)
    ensures CompareKeys(Key("L1" + ['-'] + y), Key("L2" + ['-'] + z)) == Less
  {
    var l1 := [Str("L"), Num(1)];
    var l2 := [Str("L"), Num(2)];
    KeyOfLetterDigit('L', '1');
    KeyOfLetterDigit('L', '2');
    assert Key("L1") == l1 && Key("L2") == l2;
    assert l1 != l2 by {
      assert l1[1] != l2[1];
    }
    assert CompareKeys(l1, l2) == Less by {
      assert l1[1..] == [Num(1)] && l2[1..] == [Num(2)];
    }
    FirstSectionDecides("L1", '-', y, "L2", '-', z);
  }
}
