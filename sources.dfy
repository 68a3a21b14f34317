/**
 * Resolving the command line's sources into the list of PDF files to
 * render: a directory stands for the `*.pdf` files in it, in key order, a
 * file stands for itself, anything else stops the program; the whole list
 * is then sorted by key unless the original order is to be kept. What the
 * file system says of each argument is an input: its kind and, for a
 * directory, the names it lists.
 */
module Sources {
  import opened Wrappers
  import opened Gathering
  import opened MixedSort

  datatype PathKind = Directory(entries: seq<string>) | RegularFile | Other

  /** A source argument together with what the file system reports about it. */
  datatype SourceArg = SourceArg(path: string, kind: PathKind)

  /** The names a glob `*.pdf` matches: ending in ".pdf", letter case included, and not hidden. */
  predicate MatchesPdfGlob(name: string)
  {
    |name| >= 4 && name[|name| - 4..] == ".pdf" && name[0] != '.'
  }

  /** The directory entries `*.pdf` matches, in listing order. */
  function PdfNames(entries: seq<string>): (r: seq<string>)
    ensures |r| <= |entries|
    ensures forall n :: n in r <==> n in entries && MatchesPdfGlob(n)
  {
    if entries == [] then []
    else
      var last := entries[|entries| - 1];
      var init := entries[..|entries| - 1];
      assert entries == init + [last];
      PdfNames(init) + (if MatchesPdfGlob(last) then [last] else [])
  }

  /** The `*.pdf` filter keeps the listing order: filtering two runs of entries one after the other concatenates what each keeps. */
  lemma {:induction false} PdfNamesAppend(a: seq<string>, b: seq<string>)
    ensures PdfNames(a + b) == PdfNames(a) + PdfNames(b)
    decreases |b|
  {
    if b == [] {
      assert a + b == a;
    } else {
      var init := b[..|b| - 1];
      var last := b[|b| - 1];
      var kept: seq<string> := if MatchesPdfGlob(last) then [last] else [];
      assert (a + b)[..|a + b| - 1] == a + init && (a + b)[|a + b| - 1] == last;
      assert PdfNames(a + b) == PdfNames(a + init) + kept;
      assert PdfNames(b) == PdfNames(init) + kept;
      PdfNamesAppend(a, init);
    }
  }

  /** A single entry is kept exactly when `*.pdf` matches it. */
  lemma PdfNamesOne(name: string)
    ensures PdfNames([name]) == if MatchesPdfGlob(name) then [name] else []
  {
    assert [name][..0] == [];
  }

  predicate AllSlashes(s: string)
  {
    forall i :: 0 <= i < |s| ==> s[i] == '/'
  }

  /** `p` without its trailing '/' characters. */
  function StripTrailingSlashes(p: string): (r: string)
    ensures r <= p && AllSlashes(p[|r|..])
    ensures r == [] || r[|r| - 1] != '/'
  {
    if p != [] && p[|p| - 1] == '/' then
      var r := StripTrailingSlashes(p[..|p| - 1]);
      assert p[|r|..] == p[..|p| - 1][|r|..] + ['/'];
      r
    else p
  }

  // The directory that glob joins the entry names to, for the pattern
  // `{path}/*.pdf`: os.path.split takes `{path}/` as the head and drops its
  // trailing '/' unless it is all '/', and os.path.join then puts back one
  // '/' (none when the head is all '/'). Either way an entry `name` comes
  // out as `GlobDir(path) + "/" + name`.
  function GlobDir(path: string): (d: string)
    ensures d <= path
    ensures AllSlashes(path) ==> d == path
    ensures !AllSlashes(path) ==> d != [] && d[|d| - 1] != '/' && AllSlashes(path[|d|..])
  {
    if AllSlashes(path) then path else StripTrailingSlashes(path)
  }

  function InvalidSource(path: string): string
  {
    "Invalid source file/dir \"" + path + "\""
  }

  /** What one argument adds to the list: a directory's sorted PDFs, a file itself, or an error. */
  function Contribution(a: SourceArg): Result<seq<string>>
  {
    match a.kind
    case Directory(entries) => SortedMixedBasename(Join(GlobDir(a.path), PdfNames(entries)))
    case RegularFile => Success([a.path])
    case Other => Failure(InvalidSource(a.path))
  }

  /** What the resolution loop collects before the optional re-sort. */
  function Expand(args: seq<SourceArg>): Result<seq<string>>
  {
    Gather(Each(Contribution, args))
  }

  /** The resolved source list: the expansion, re-sorted by key unless `keepOrder`. */
  function Resolve(args: seq<SourceArg>, keepOrder: bool): Result<seq<string>>
  {
    match Expand(args)
    case Failure(e) => Failure(e)
    case Success(pdfs) => if keepOrder then Success(pdfs) else SortedMixedBasename(pdfs)
  }

  /** The resolution loop: it stops at the first argument that yields an error. */
  method ResolveSources(args: seq<SourceArg>, keepOrder: bool) returns (r: Result<seq<string>>)
    ensures r == Resolve(args, keepOrder)
  {
    var pdfs: seq<string> := [];
    for i := 0 to |args|
      invariant Gather(Each(Contribution, args[..i])) == Success(pdfs)
    {
      EachSnoc(Contribution, args, i);
      var a := args[i];
      match a.kind {
        case Directory(entries) =>
          var found := SortedMixedBasename(Join(GlobDir(a.path), PdfNames(entries)));
          if found.Failure? {
            GatherEachStop(Contribution, args, i);
            return Failure(found.error);
          }
          pdfs := pdfs + found.value;
        case RegularFile =>
          pdfs := pdfs + [a.path];
        case Other =>
          GatherEachStop(Contribution, args, i);
          return Failure(InvalidSource(a.path));
      }
    }
    assert args[..|args|] == args;
    if keepOrder {
      r := Success(pdfs);
    } else {
      r := SortedMixedBasename(pdfs);
    }
  }

  /** Expanding two runs of arguments one after the other concatenates their lists. */
  lemma ExpandAppend(a: seq<SourceArg>, b: seq<SourceArg>)
    requires Expand(a).Success? && Expand(b).Success?
    ensures Expand(a + b) == Success(Expand(a).value + Expand(b).value)
  {
    EachAppend(Contribution, a, b);
    GatherAppend(Each(Contribution, a), Each(Contribution, b));
  }

  lemma ExpandOfFile(path: string)
    ensures Expand([SourceArg(path, RegularFile)]) == Success([path])
  {
    var file := [SourceArg(path, RegularFile)];
    EachOne(Contribution, file[0]);
    assert Gather([Success([path])]) == Success([] + [path]);
    assert [] + [path] == [path];
  }

  /**
   * With the order kept, a file argument lands exactly after everything the
   * arguments before it contribute and before everything the ones after it do.
   */
  lemma FileKeepsItsPlace(pre: seq<SourceArg>, path: string, post: seq<SourceArg>)
    requires Expand(pre).Success? && Expand(post).Success?
    ensures Resolve(pre + [SourceArg(path, RegularFile)] + post, true)
         == Success(Expand(pre).value + [path] + Expand(post).value)
  {
    var file := [SourceArg(path, RegularFile)];
    ExpandOfFile(path);
    ExpandAppend(pre, file);
    ExpandAppend(pre + file, post);
  }

  /** An error names the first argument that is neither a directory nor a file, when nothing before it failed. */
  lemma FirstInvalidSourceIsReported(args: seq<SourceArg>, i: nat)
    requires i < |args| && args[i].kind == Other
    requires Expand(args[..i]).Success?
    ensures Expand(args) == Failure(InvalidSource(args[i].path))
  {
    GatherEachStop(Contribution, args, i);
  }

  /** When every argument contributes, the expansion succeeds. */
  lemma ExpandSucceedsOnValidSources(args: seq<SourceArg>)
    requires forall i :: 0 <= i < |args| ==> Contribution(args[i]).Success?
    ensures Expand(args).Success?
  {
    var parts := Each(Contribution, args);
    forall i | 0 <= i < |parts| ensures parts[i].Success? {
      EachAt(Contribution, args, i);
    }
    GatherSucceeds(parts);
  }

  /**
   * A directory contributes the `*.pdf` entries it lists, each joined to the
   * directory as glob names it, in the key order of the entry names themselves.
   */
  lemma DirectoryContribution(dir: string, entries: seq<string>)
    requires NoSlash(entries)
    requires Contribution(SourceArg(dir, Directory(entries))).Success?
    ensures var pdfs := PdfNames(entries);
      && Comparable(pdfs, KeyOf)
      && Contribution(SourceArg(dir, Directory(entries))).value == Join(GlobDir(dir), Sort(pdfs, KeyOf))
  {
    var pdfs := PdfNames(entries);
    assert NoSlash(pdfs) by {
      forall i | 0 <= i < |pdfs| ensures '/' !in pdfs[i] {
        assert pdfs[i] in entries;
      }
    }
    SortJoin(GlobDir(dir), pdfs);
  }

  /** A directory written with one trailing '/' globs as the directory without it. */
  lemma GlobDirOfSlashed(d: string)
    requires d != [] && d[|d| - 1] != '/'
    ensures GlobDir(d + "/") == d
  {
    assert (d + "/")[|d| - 1] != '/';
    assert (d + "/")[..|d|] == d;
  }

  /** A directory argument written with a trailing '/' still yields `dir/name`, with a single '/'. */
  lemma TrailingSlashJoinedOnce(d: string, name: string)
    requires d != [] && d[|d| - 1] != '/'
    requires MatchesPdfGlob(name)
    ensures Contribution(SourceArg(d + "/", Directory([name]))) == Success([d + "/" + name])
  {
    GlobDirOfSlashed(d);
    PdfNamesOne(name);
    var joined := Join(d, [name]);
    assert |joined| == 1 && joined[0] == d + "/" + name;
    assert joined == [d + "/" + name];
    SortedMixedBasenameOne(d + "/" + name);
  }

  /** Without `keepOrder`, a successful resolution is a permutation of the expansion, in key order. */
  lemma ResolvedSorted(args: seq<SourceArg>)
    requires Resolve(args, false).Success?
    ensures Expand(args).Success?
    ensures multiset(Resolve(args, false).value) == multiset(Expand(args).value)
    ensures Sorted(Resolve(args, false).value, KeyOf)
  {
  }
}
