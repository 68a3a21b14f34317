/**
 * The render stage: one ghostscript command per source PDF, writing the
 * pages of the PDF with stem `s` as `SRC_{s}-1.png`, `SRC_{s}-2.png`, ...
 * into the temporary directory; and the re-collection that replaces each
 * `SRC_{s}.png` placeholder with the page files found there. The
 * directory's listing after rendering is an input.
 */
module Render {
  import opened Wrappers
  import opened Gathering
  import opened Text
  import opened Paths
  import opened NaturalKey
  import opened KeyOrder
  import opened MixedSort

  /** One external command of a stage: the name it is logged under and its argument list. */
  datatype Task = Task(name: string, args: seq<string>)

  /** The fixed ghostscript options that come before the resolution, the output template and the input. */
  function GhostscriptOptions(): seq<string>
  {
    ["-q", "-dQUIET", "-dSAFER", "-dBATCH", "-dNOPAUSE", "-dNOPROMPT",
     "-dMaxBitMap=500000000", "-dAlignToPixels=0", "-dGridFitTT=2",
     "-sDEVICE=png16m", "-dTextAlphaBits=4", "-dGraphicsAlphaBits=4"]
  }

  /** The placeholder name a source goes by until its pages are collected. */
  function SrcName(stem: string): string
  {
    "SRC_" + stem + ".png"
  }

  /** The file name ghostscript gives page `n` of the source with stem `stem`. */
  function PageName(stem: string, n: nat): string
  {
    "SRC_" + stem + "-" + Decimal(n) + ".png"
  }

  /**
   * The render command of one source, logged under its stem. Ghostscript
   * replaces the %d of the output template with each page number from 1.
   */
  function RenderTask(tempdir: string, dpi: int, pdf: string): Task
  {
    var stem := StemName(pdf);
    Task(stem, GhostscriptOptions() + ["-r" + IntText(dpi), "-sOutputFile=" + tempdir + "/SRC_" + stem + "-%d.png", pdf])
  }

  /** The placeholder of a source, named after its stem. */
  function PlaceholderOf(pdf: string): string
  {
    SrcName(StemName(pdf))
  }

  function RenderTaskOf(tempdir: string, dpi: int): string -> Task
  {
    pdf => RenderTask(tempdir, dpi, pdf)
  }

  /**
   * The render loop: the i-th command renders the i-th source and the i-th
   * placeholder stands for it (`EachAt`).
   */
  method RenderStage(pdfs: seq<string>, tempdir: string, dpi: int) returns (srcs: seq<string>, tasks: seq<Task>)
    ensures srcs == Each(PlaceholderOf, pdfs)
    ensures tasks == Each(RenderTaskOf(tempdir, dpi), pdfs)
  {
    srcs, tasks := [], [];
    for i := 0 to |pdfs|
      invariant srcs == Each(PlaceholderOf, pdfs[..i])
      invariant tasks == Each(RenderTaskOf(tempdir, dpi), pdfs[..i])
    {
      EachSnoc(PlaceholderOf, pdfs, i);
      EachSnoc(RenderTaskOf(tempdir, dpi), pdfs, i);
      var pdf := pdfs[i];
      var stem := StemName(pdf);
      var args := GhostscriptOptions() + ["-r" + IntText(dpi), "-sOutputFile=" + tempdir + "/SRC_" + stem + "-%d.png", pdf];
      tasks := tasks + [Task(stem, args)];
      srcs := srcs + ["SRC_" + stem + ".png"];
    }
    assert pdfs[..|pdfs|] == pdfs;
  }

  /** The text a source's page pattern starts with: its placeholder without the extension. */
  function PagePrefix(src: string): string
  {
    SplitExtRoot(src)
  }

  /** How a directory entry is matched to a source. */
  datatype PagePattern =
    | PrefixGlob  // the script's glob `{prefix}*.png`
    | ExactPage   // only `{prefix}-{n}.png`, the names ghostscript writes

  /** `{prefix}*.png`: the name starts with the prefix and ends in ".png", the star matching anything. */
  predicate MatchesPrefixGlob(prefix: string, name: string)
  {
    |name| >= |prefix| + 4 && name[..|prefix|] == prefix && name[|name| - 4..] == ".png"
  }

  /** `{prefix}-{n}.png` with `n` a non-empty run of digits. */
  predicate IsPageOf(prefix: string, name: string)
  {
    && |name| >= |prefix| + 6
    && name[..|prefix| + 1] == prefix + "-"
    && name[|name| - 4..] == ".png"
    && AllDigits(name[|prefix| + 1..|name| - 4])
  }

  predicate Matches(pattern: PagePattern, prefix: string, name: string)
  {
    match pattern
    case PrefixGlob => MatchesPrefixGlob(prefix, name)
    case ExactPage => IsPageOf(prefix, name)
  }

  /** The entries of the listing the pattern matches, in listing order. */
  function Matching(prefix: string, listing: seq<string>, pattern: PagePattern): (r: seq<string>)
    ensures |r| <= |listing|
    ensures forall n :: n in r <==> n in listing && Matches(pattern, prefix, n)
  {
    if listing == [] then []
    else
      var last := listing[|listing| - 1];
      var init := listing[..|listing| - 1];
      assert listing == init + [last];
      Matching(prefix, init, pattern) + (if Matches(pattern, prefix, last) then [last] else [])
  }

  /** Matching keeps the listing order: matching two runs of entries one after the other concatenates what each keeps. */
  lemma {:induction false} MatchingAppend(prefix: string, a: seq<string>, b: seq<string>, pattern: PagePattern)
    ensures Matching(prefix, a + b, pattern) == Matching(prefix, a, pattern) + Matching(prefix, b, pattern)
    decreases |b|
  {
    if b == [] {
      assert a + b == a;
    } else {
      var init := b[..|b| - 1];
      var last := b[|b| - 1];
      var kept: seq<string> := if Matches(pattern, prefix, last) then [last] else [];
      assert (a + b)[..|a + b| - 1] == a + init && (a + b)[|a + b| - 1] == last;
      assert Matching(prefix, a + b, pattern) == Matching(prefix, a + init, pattern) + kept;
      assert Matching(prefix, b, pattern) == Matching(prefix, init, pattern) + kept;
      MatchingAppend(prefix, a, init, pattern);
    }
  }

  function Basenames(paths: seq<string>): seq<string>
  {
    seq(|paths|, i requires 0 <= i < |paths| => Basename(paths[i]))
  }

  /** The pages collected for one placeholder: the base names of the matching paths, sorted by key. */
  function PagesFor(src: string, tempdir: string, listing: seq<string>, pattern: PagePattern): Result<seq<string>>
  {
    match SortedMixedBasename(Join(tempdir, Matching(PagePrefix(src), listing, pattern)))
    case Failure(e) => Failure(e)
    case Success(paths) => Success(Basenames(paths))
  }

  function PagesForOf(tempdir: string, listing: seq<string>, pattern: PagePattern): string -> Result<seq<string>>
  {
    src => PagesFor(src, tempdir, listing, pattern)
  }

  /** The new source list: each placeholder's pages in turn. */
  function Recollect(srcs: seq<string>, tempdir: string, listing: seq<string>, pattern: PagePattern): Result<seq<string>>
  {
    Gather(Each(PagesForOf(tempdir, listing, pattern), srcs))
  }

  /** The re-collection loop over the placeholders. */
  method RecollectPages(srcs: seq<string>, tempdir: string, listing: seq<string>, pattern: PagePattern)
    returns (r: Result<seq<string>>)
    ensures r == Recollect(srcs, tempdir, listing, pattern)
  {
    var pages: seq<string> := [];
    for i := 0 to |srcs|
      invariant Gather(Each(PagesForOf(tempdir, listing, pattern), srcs[..i])) == Success(pages)
    {
      EachSnoc(PagesForOf(tempdir, listing, pattern), srcs, i);
      var found := SortedMixedBasename(Join(tempdir, Matching(PagePrefix(srcs[i]), listing, pattern)));
      if found.Failure? {
        GatherEachStop(PagesForOf(tempdir, listing, pattern), srcs, i);
        return Failure(found.error);
      }
      pages := pages + Basenames(found.value);
    }
    assert srcs[..|srcs|] == srcs;
    r := Success(pages);
  }

  /** The placeholder of a source has the pattern prefix `SRC_{stem}`. */
  lemma PagePrefixOfSrcName(stem: string)
    requires '/' !in stem
    ensures PagePrefix(SrcName(stem)) == "SRC_" + stem
  {
    var name := "SRC_" + stem;
    assert name[0] != '.';
    assert '/' !in name;
    StemNameDropsExtension(name, ".png");
    assert name + ".png" == SrcName(stem);
  }

  /**
   * Every page ghostscript writes for a source is matched to it, by the
   * script's glob and by the exact page pattern alike.
   */
  lemma RenderedPageMatches(stem: string, n: nat)
    requires '/' !in stem
    ensures MatchesPrefixGlob(PagePrefix(SrcName(stem)), PageName(stem, n))
    ensures IsPageOf(PagePrefix(SrcName(stem)), PageName(stem, n))
  {
    PagePrefixOfSrcName(stem);
    var prefix := "SRC_" + stem;
    var d := Decimal(n);
    var name := PageName(stem, n);
    assert name == prefix + "-" + d + ".png";
    assert name[..|prefix| + 1] == prefix + "-";
    assert name[..|prefix|] == prefix;
    assert name[|prefix| + 1..|name| - 4] == d;
  }

  /** In a page name the prefix ends at the last dash before ".png". */
  lemma PageDash(prefix: string, name: string)
    requires IsPageOf(prefix, name)
    ensures LastIndexOf(name[..|name| - 4], '-') == |prefix|
  {
    var s := name[..|name| - 4];
    var digits := name[|prefix| + 1..|name| - 4];
    assert s[|prefix|] == (prefix + "-")[|prefix|];
    assert forall j :: |prefix| < j < |s| ==> s[j] == digits[j - |prefix| - 1];
  }

  /** Under the exact pattern a directory entry is the page of at most one prefix. */
  lemma ExactPageOwner(p: string, q: string, name: string)
    requires IsPageOf(p, name) && IsPageOf(q, name)
    ensures p == q
  {
    PageDash(p, name);
    PageDash(q, name);
    assert p == name[..|p| + 1][..|p|];
    assert q == name[..|q| + 1][..|q|];
  }

  /** The page names of one source sort in page number order: page 2 before page 10. */
  lemma PagesSortByNumber(stem: string, m: nat, n: nat)
    requires '/' !in stem && m < n
    ensures CompareKeys(KeyOf(PageName(stem, m)), KeyOf(PageName(stem, n))) == Less
  {
    var prefix := "SRC_" + stem;
    PageStemKey(stem, m);
    PageStemKey(stem, n);
    CommonPrefixCompare(Key(prefix), [Num(m)], [Num(n)]);
  }

  /** The key of a page name: the key of its prefix, then the page number. */
  lemma PageStemKey(stem: string, n: nat)
    requires '/' !in stem
    ensures KeyOf(PageName(stem, n)) == Key("SRC_" + stem) + [Num(n)]
  {
    PageNameStem(stem, n);
    PageRootKey("SRC_" + stem, n);
  }

  lemma PageNameStem(stem: string, n: nat)
    requires '/' !in stem
    ensures StemName(PageName(stem, n)) == "SRC_" + stem + "-" + Decimal(n)
  {
    var d := Decimal(n);
    var root := "SRC_" + stem + "-" + d;
    assert root[0] != '.';
    assert '/' !in root by {
      assert forall c :: c in d ==> IsDigit(c);
    }
    assert root + ".png" == PageName(stem, n);
    StemNameDropsExtension(root, ".png");
  }

  lemma PageRootKey(prefix: string, n: nat)
    ensures Key(prefix + "-" + Decimal(n)) == Key(prefix) + [Num(n)]
  {
    var d := Decimal(n);
    assert prefix + "-" + d == prefix + ['-'] + d;
    KeySplitsAtSeparator(prefix, '-', d);
    KeyOfNumber(d);
    DecimalRoundTrip(n);
  }

  /** A one-entry listing matches that entry or nothing. */
  lemma MatchingOne(prefix: string, name: string, pattern: PagePattern)
    ensures Matching(prefix, [name], pattern) == if Matches(pattern, prefix, name) then [name] else []
  {
    assert [name][..0] == [];
  }

  /** Stripping the directory from `{dir}/{name}` paths gives back the names. */
  lemma BasenamesOfJoin(dir: string, names: seq<string>)
    requires NoSlash(names)
    ensures Basenames(Join(dir, names)) == names
  {
    forall i | 0 <= i < |names| ensures Basenames(Join(dir, names))[i] == names[i] {
      StemNameIgnoresDirectory(dir, names[i]);
    }
  }

  /**
   * The pages collected for a placeholder are the matching directory entries
   * themselves, in key order; the collection fails exactly when two of
   * their keys cannot be compared.
   */
  lemma PagesForSorted(src: string, tempdir: string, listing: seq<string>, pattern: PagePattern)
    requires NoSlash(listing)
    ensures var m := Matching(PagePrefix(src), listing, pattern);
      && (PagesFor(src, tempdir, listing, pattern).Success? <==> Comparable(m, KeyOf))
      && (PagesFor(src, tempdir, listing, pattern).Success? ==> PagesFor(src, tempdir, listing, pattern).value == Sort(m, KeyOf))
  {
    var m := Matching(PagePrefix(src), listing, pattern);
    assert NoSlash(m) by {
      forall i | 0 <= i < |m| ensures '/' !in m[i] {
        assert m[i] in listing;
      }
    }
    SortJoin(tempdir, m);
    var sorted := Sort(m, KeyOf);
    assert NoSlash(sorted) by {
      forall i | 0 <= i < |sorted| ensures '/' !in sorted[i] {
        assert sorted[i] in multiset(m);
      }
    }
    BasenamesOfJoin(tempdir, sorted);
  }

  /** A placeholder that matches nothing collects no pages. */
  lemma NoPages(src: string, tempdir: string, listing: seq<string>, pattern: PagePattern)
    requires Matching(PagePrefix(src), listing, pattern) == []
    ensures PagesFor(src, tempdir, listing, pattern) == Success([])
  {
    var l := Join(tempdir, Matching(PagePrefix(src), listing, pattern));
    assert l == [];
    SortedMixedBasenameEmpty();
    assert Basenames([]) == [];
  }

  /** A placeholder that matches one entry collects exactly that entry. */
  lemma OnePage(src: string, tempdir: string, listing: seq<string>, pattern: PagePattern, name: string)
    requires '/' !in name && Matching(PagePrefix(src), listing, pattern) == [name]
    ensures PagesFor(src, tempdir, listing, pattern) == Success([name])
  {
    var path := tempdir + "/" + name;
    var l := Join(tempdir, Matching(PagePrefix(src), listing, pattern));
    assert l == [path];
    assert SortedMixedBasename(l) == Success([path]) by {
      SortedMixedBasenameOne(path);
    }
    assert Basenames([path]) == [name] by {
      StemNameIgnoresDirectory(tempdir, name);
    }
  }

  /** Re-collecting two placeholders concatenates their pages. */
  lemma RecollectTwo(s1: string, s2: string, tempdir: string, listing: seq<string>, pattern: PagePattern)
    requires PagesFor(s1, tempdir, listing, pattern).Success? && PagesFor(s2, tempdir, listing, pattern).Success?
    ensures Recollect([s1, s2], tempdir, listing, pattern)
         == Success(PagesFor(s1, tempdir, listing, pattern).value + PagesFor(s2, tempdir, listing, pattern).value)
  {
    GatherEachTwo(PagesForOf(tempdir, listing, pattern), s1, s2);
  }

  lemma RecollectTwoOf(s1: string, s2: string, tempdir: string, listing: seq<string>, pattern: PagePattern,
                       p1: seq<string>, p2: seq<string>)
    requires PagesFor(s1, tempdir, listing, pattern) == Success(p1)
    requires PagesFor(s2, tempdir, listing, pattern) == Success(p2)
    ensures Recollect([s1, s2], tempdir, listing, pattern) == Success(p1 + p2)
  {
    RecollectTwo(s1, s2, tempdir, listing, pattern);
  }

  /** A page of a source with stem `a + t`, named so that it starts with the prefix of stem `a`. */
  lemma LongerStemPage(a: string, t: string, n: nat)
    requires '/' !in a + t
    ensures var name := PageName(a + t, n);
      && '/' !in name
      && MatchesPrefixGlob("SRC_" + a, name)
      && MatchesPrefixGlob("SRC_" + (a + t), name)
      && IsPageOf("SRC_" + (a + t), name)
      && (t != [] ==> !IsPageOf("SRC_" + a, name))
  {
    PageNoSlash(a + t, n);
    PageStartsWithShorterPrefix(a, t, n);
    RenderedPageMatches(a + t, n);
    PagePrefixOfSrcName(a + t);
    if t != [] {
      NotPageOfShorterPrefix(a, t, n);
    }
  }

  lemma PageNoSlash(stem: string, n: nat)
    requires '/' !in stem
    ensures '/' !in PageName(stem, n)
  {
    var d := Decimal(n);
    assert forall c :: c in d ==> IsDigit(c);
    assert PageName(stem, n) == "SRC_" + stem + "-" + d + ".png";
  }

  lemma PageStartsWithShorterPrefix(a: string, t: string, n: nat)
    ensures MatchesPrefixGlob("SRC_" + a, PageName(a + t, n))
  {
    var name := PageName(a + t, n);
    var prefix := "SRC_" + a;
    assert name == prefix + (t + "-" + Decimal(n) + ".png");
    assert name[..|prefix|] == prefix;
  }

  /** A page of stem `a + t` is never a `{prefix}-{n}.png` page of stem `a`: what follows `a` and '-' holds another '-'. */
  lemma NotPageOfShorterPrefix(a: string, t: string, n: nat)
    requires t != []
    ensures !IsPageOf("SRC_" + a, PageName(a + t, n))
  {
    var name := PageName(a + t, n);
    var prefix := "SRC_" + a;
    assert name == prefix + (t + "-" + Decimal(n) + ".png");
    if |name| >= |prefix| + 6 {
      assert name[|prefix| + 1..|name| - 4][|t| - 1] == '-';
    }
  }

  /** What the placeholders of stems `a` and `a + t` match in a listing of one page of `a + t`. */
  lemma BothPrefixesMatch(a: string, t: string, n: nat, pattern: PagePattern)
    requires '/' !in a + t
    ensures var name := PageName(a + t, n);
      && Matching(PagePrefix(SrcName(a)), [name], pattern) == (if Matches(pattern, "SRC_" + a, name) then [name] else [])
      && Matching(PagePrefix(SrcName(a + t)), [name], pattern) == (if Matches(pattern, "SRC_" + (a + t), name) then [name] else [])
  {
    var name := PageName(a + t, n);
    assert '/' !in a;
    PagePrefixOfSrcName(a);
    PagePrefixOfSrcName(a + t);
    MatchingOne("SRC_" + a, name, pattern);
    MatchingOne("SRC_" + (a + t), name, pattern);
  }

  /**
   * The script's pattern `{prefix}*.png` also matches the pages of a source
   * whose stem merely starts with another source's stem: with sources `a`
   * and `a + t` and one rendered page of `a + t`, that page is collected
   * twice, once for each placeholder (for instance stems "L1" and "L10").
   */
  lemma PrefixGlobCollectsPageTwice(a: string, t: string, n: nat, tempdir: string)
    requires '/' !in a + t
    ensures Recollect([SrcName(a), SrcName(a + t)], tempdir, [PageName(a + t, n)], PrefixGlob)
         == Success([PageName(a + t, n), PageName(a + t, n)])
  {
    var name := PageName(a + t, n);
    var srcs := [SrcName(a), SrcName(a + t)];
    assert Recollect(srcs, tempdir, [name], PrefixGlob) == Success([name] + [name]) by {
      PrefixGlobPages(a, t, n, tempdir);
      RecollectTwoOf(SrcName(a), SrcName(a + t), tempdir, [name], PrefixGlob, [name], [name]);
    }
    assert [name] + [name] == [name, name];
  }

  lemma PrefixGlobPages(a: string, t: string, n: nat, tempdir: string)
    requires '/' !in a + t
    ensures var name := PageName(a + t, n);
      && PagesFor(SrcName(a), tempdir, [name], PrefixGlob) == Success([name])
      && PagesFor(SrcName(a + t), tempdir, [name], PrefixGlob) == Success([name])
  {
    var name := PageName(a + t, n);
    LongerStemPage(a, t, n);
    BothPrefixesMatch(a, t, n, PrefixGlob);
    OnePage(SrcName(a), tempdir, [name], PrefixGlob, name);
    OnePage(SrcName(a + t), tempdir, [name], PrefixGlob, name);
  }

  /** With the exact page pattern the same listing yields the page once, for its own source. */
  lemma ExactPageCollectsPageOnce(a: string, t: string, n: nat, tempdir: string)
    requires '/' !in a + t && t != []
    ensures Recollect([SrcName(a), SrcName(a + t)], tempdir, [PageName(a + t, n)], ExactPage)
         == Success([PageName(a + t, n)])
  {
    var name := PageName(a + t, n);
    ExactPages(a, t, n, tempdir);
    RecollectTwo(SrcName(a), SrcName(a + t), tempdir, [name], ExactPage);
    assert [] + [name] == [name];
  }

  lemma ExactPages(a: string, t: string, n: nat, tempdir: string)
    requires '/' !in a + t && t != []
    ensures var name := PageName(a + t, n);
      && PagesFor(SrcName(a), tempdir, [name], ExactPage) == Success([])
      && PagesFor(SrcName(a + t), tempdir, [name], ExactPage) == Success([name])
  {
    var name := PageName(a + t, n);
    LongerStemPage(a, t, n);
    BothPrefixesMatch(a, t, n, ExactPage);
    NoPages(SrcName(a), tempdir, [name], ExactPage);
    OnePage(SrcName(a + t), tempdir, [name], ExactPage, name);
  }

  /** With the exact page pattern no directory entry is collected for two different sources. */
  lemma ExactPagesDisjoint(s1: string, s2: string, listing: seq<string>, name: string)
    requires '/' !in s1 && '/' !in s2
    requires name in Matching(PagePrefix(SrcName(s1)), listing, ExactPage)
    requires name in Matching(PagePrefix(SrcName(s2)), listing, ExactPage)
    ensures s1 == s2
  {
    PagePrefixOfSrcName(s1);
    PagePrefixOfSrcName(s2);
    ExactPageOwner("SRC_" + s1, "SRC_" + s2, name);
    assert s1 == ("SRC_" + s1)[4..];
    assert s2 == ("SRC_" + s2)[4..];
  }
}
