/**
 * The stages after rendering. Every working file is named `{TAG}_{identity}`:
 * the render stage produces `SRC_{stem}-{n}.png`, the resize stage renames
 * each file to `RESIZED_{identity}`, the optional merge stage to
 * `MERGED_{identity}`, and the optional label stage to
 * `LABELED_{root}.png`, where `root` is the identity without its
 * extension. Each stage maps the list of working files one to one and in
 * order, emitting one external command per file; the label stage also
 * emits one command per distinct label. The collect step lists the final
 * files, in order, as the inputs of one last command.
 *
 * Pixel sizes arrive as integers: the float arithmetic that computes them
 * from the paper size, the resolution and the percentages is not part of
 * this model.
 */
module Stages {
  import opened Wrappers
  import opened Gathering
  import opened Text
  import opened Paths
  import opened MixedSort
  import opened Render

  /** A working file name carries a stage tag before its first underscore. */
  predicate Tagged(name: string)
  {
    '_' in name
  }

  lemma UnderscoreOccurs(s: string)
    requires '_' in s
    ensures exists k: nat :: OccursAt(s, "_", k)
  {
    var k: nat :| k < |s| && s[k] == '_';
    assert s[k..k + 1] == "_";
    assert OccursAt(s, "_", k);
  }

  /** `name.split('_', 1)[1]`: what a working file name carries after its stage tag. */
  function Identity(name: string): string
    requires Tagged(name)
  {
    UnderscoreOccurs(name);
    AfterFirst(name, "_")
  }

  /** Tagging a text and taking the identity back gives the text, whatever underscores it holds. */
  lemma IdentityOfTagged(tag: string, x: string)
    requires '_' !in tag
    ensures Tagged(tag + "_" + x) && Identity(tag + "_" + x) == x
  {
    var s := tag + "_" + x;
    assert s[|tag|] == '_';
    assert OccursAt(s, "_", |tag|) by {
      assert s[|tag|..|tag| + 1] == "_";
    }
    forall j | 0 <= j < |tag| ensures s[j] != '_' {
      assert s[j] == tag[j];
    }
    var r := Identity(s);
    var k := |s| - |r| - 1;
    assert s[k..k + 1] == "_";
    assert s[k] == '_';
    assert k == |tag|;
    assert r == s[|tag| + 1..];
    assert s[|tag| + 1..] == x;
  }

  /** The name a stage gives a working file: its identity under the stage's tag. */
  function Retag(tag: string, name: string): string
    requires Tagged(name)
  {
    tag + "_" + Identity(name)
  }

  /** A stage tag: upper-case letters, so it holds neither '_', '.' nor '/'. */
  predicate IsTag(tag: string)
  {
    tag != [] && forall i :: 0 <= i < |tag| ==> 'A' <= tag[i] <= 'Z'
  }

  /** The stem of a tagged name without '/' still carries the tag, so the command name below exists. */
  lemma StemOfTagged(tag: string, x: string)
    requires IsTag(tag) && '/' !in x
    ensures Tagged(StemName(tag + "_" + x))
  {
    var p := tag + "_" + x;
    assert '/' !in tag;
    assert '/' !in p;
    assert Basename(p) == p;
    StemNameShape(p);
    var r := StemName(p);
    if r != p {
      forall j | 0 <= j <= |tag| ensures p[j] != '.' {
        if j < |tag| {
          assert p[j] == tag[j];
        }
      }
      assert p[|r|] == '.';
      assert r[|tag|] == p[|tag|] == '_';
    } else {
      assert p[|tag|] == '_';
    }
  }

  /**
   * `stem_name(dst).split('_', 1)[1]` for `dst == tag + "_" + id`: the name a
   * command of the resize and merge stages is logged under.
   */
  function TaskName(tag: string, id: string): string
    requires IsTag(tag) && '/' !in id
  {
    StemOfTagged(tag, id);
    Identity(StemName(tag + "_" + id))
  }

  /** A working file name: tagged, and a base name with no directory part. */
  predicate WorkingName(name: string)
  {
    Tagged(name) && '/' !in name
  }

  predicate AllWorking(names: seq<string>)
  {
    forall n :: n in names ==> WorkingName(n)
  }

  lemma StageTags()
    ensures IsTag("RESIZED") && IsTag("MERGED") && IsTag("LABELED")
  {
  }

  /** The identity of a working name is a suffix of it, so it has no '/' either. */
  lemma IdentityNoSlash(name: string)
    requires WorkingName(name)
    ensures '/' !in Identity(name)
  {
    var r := Identity(name);
    forall j | 0 <= j < |r| ensures r[j] != '/' {
      assert r[j] == name[|name| - |r| + j];
    }
  }

  /** Retagging keeps the identity and gives a working name again. */
  lemma RetagKeepsIdentity(tag: string, name: string)
    requires IsTag(tag) && WorkingName(name)
    ensures WorkingName(Retag(tag, name)) && Identity(Retag(tag, name)) == Identity(name)
  {
    IdentityNoSlash(name);
    assert '_' !in tag && '/' !in tag;
    IdentityOfTagged(tag, Identity(name));
  }

  /** The size argument `{w}x{h}` of the image commands. */
  function Geometry(w: int, h: int): string
  {
    IntText(w) + "x" + IntText(h)
  }

  // ----- resize -----

  function ResizedName(src: string): string
    requires WorkingName(src)
  {
    Retag("RESIZED", src)
  }

  /** The command that strips the page and fits it, centred, into the body area. */
  function ResizeTask(tempdir: string, width: int, bodyHeight: int, src: string): Task
    requires WorkingName(src)
  {
    StageTags();
    IdentityNoSlash(src);
    Task(TaskName("RESIZED", Identity(src)),
         [tempdir + "/" + src, "(", "-strip", ")", "(", "-resize", Geometry(width, bodyHeight), ")",
          "(", "-gravity", "center", "-extent", Geometry(width, bodyHeight), ")", tempdir + "/" + ResizedName(src)])
  }

  function ResizeTaskOf(tempdir: string, width: int, bodyHeight: int): string --> Task
  {
    src requires WorkingName(src) => ResizeTask(tempdir, width, bodyHeight, src)
  }

  /** What the resize loop has built after the first `i` files. */
  ghost predicate ResizedSoFar(srcs: seq<string>, i: nat, tempdir: string, width: int, bodyHeight: int,
                               resized: seq<string>, tasks: seq<Task>)
    requires AllWorking(srcs) && i <= |srcs|
  {
    && resized == Each(ResizedName, srcs[..i])
    && tasks == Each(ResizeTaskOf(tempdir, width, bodyHeight), srcs[..i])
  }

  lemma ResizedStep(srcs: seq<string>, i: nat, tempdir: string, width: int, bodyHeight: int,
                    resized: seq<string>, tasks: seq<Task>)
    requires AllWorking(srcs) && i < |srcs|
    requires ResizedSoFar(srcs, i, tempdir, width, bodyHeight, resized, tasks)
    ensures ResizedSoFar(srcs, i + 1, tempdir, width, bodyHeight,
                         resized + [ResizedName(srcs[i])], tasks + [ResizeTask(tempdir, width, bodyHeight, srcs[i])])
  {
    EachSnoc(ResizedName, srcs, i);
    EachSnoc(ResizeTaskOf(tempdir, width, bodyHeight), srcs, i);
  }

  /** The resize loop: the i-th file becomes `RESIZED_{identity}` by the i-th command. */
  method ResizeStage(srcs: seq<string>, tempdir: string, width: int, bodyHeight: int)
    returns (resized: seq<string>, tasks: seq<Task>)
    requires AllWorking(srcs)
    ensures resized == Each(ResizedName, srcs)
    ensures tasks == Each(ResizeTaskOf(tempdir, width, bodyHeight), srcs)
  {
    resized, tasks := [], [];
    for i := 0 to |srcs|
      invariant ResizedSoFar(srcs, i, tempdir, width, bodyHeight, resized, tasks)
    {
      ResizedStep(srcs, i, tempdir, width, bodyHeight, resized, tasks);
      var src := srcs[i];
      var dst := Retag("RESIZED", src);
      StageTags();
      IdentityNoSlash(src);
      var args := [tempdir + "/" + src, "(", "-strip", ")", "(", "-resize", Geometry(width, bodyHeight), ")",
                   "(", "-gravity", "center", "-extent", Geometry(width, bodyHeight), ")", tempdir + "/" + dst];
      tasks := tasks + [Task(TaskName("RESIZED", Identity(src)), args)];
      resized := resized + [dst];
    }
    assert srcs[..|srcs|] == srcs;
  }

  // ----- merge -----

  function OptionList(o: Option<string>): seq<string>
  {
    if o.Some? then [o.value] else []
  }

  function MergedName(src: string): string
    requires WorkingName(src)
  {
    Retag("MERGED", src)
  }

  /** The arguments that stack the header, the page and the footer, top to bottom, into `dstFile`. */
  function MergeArgs(header: Option<string>, footer: Option<string>, srcFile: string, dstFile: string): seq<string>
  {
    ["-append"] + OptionList(header) + [srcFile] + OptionList(footer) + ["-strip", dstFile]
  }

  function MergeTask(tempdir: string, header: Option<string>, footer: Option<string>, src: string): Task
    requires WorkingName(src)
  {
    StageTags();
    IdentityNoSlash(src);
    Task(TaskName("MERGED", Identity(src)), MergeArgs(header, footer, tempdir + "/" + src, tempdir + "/" + MergedName(src)))
  }

  function MergeTaskOf(tempdir: string, header: Option<string>, footer: Option<string>): string --> Task
  {
    src requires WorkingName(src) => MergeTask(tempdir, header, footer, src)
  }

  /** What the merge loop has built after the first `i` files. */
  ghost predicate MergedSoFar(srcs: seq<string>, i: nat, tempdir: string, header: Option<string>, footer: Option<string>,
                              merged: seq<string>, tasks: seq<Task>)
    requires AllWorking(srcs) && i <= |srcs|
  {
    && merged == Each(MergedName, srcs[..i])
    && tasks == Each(MergeTaskOf(tempdir, header, footer), srcs[..i])
  }

  lemma MergedStep(srcs: seq<string>, i: nat, tempdir: string, header: Option<string>, footer: Option<string>,
                   merged: seq<string>, tasks: seq<Task>)
    requires AllWorking(srcs) && i < |srcs|
    requires MergedSoFar(srcs, i, tempdir, header, footer, merged, tasks)
    ensures MergedSoFar(srcs, i + 1, tempdir, header, footer,
                        merged + [MergedName(srcs[i])], tasks + [MergeTask(tempdir, header, footer, srcs[i])])
  {
    EachSnoc(MergedName, srcs, i);
    EachSnoc(MergeTaskOf(tempdir, header, footer), srcs, i);
  }

  /**
   * The merge stage: skipped, leaving the files as they are, when there is
   * neither a header nor a footer; otherwise the i-th file becomes
   * `MERGED_{identity}` by the i-th command.
   */
  method MergeStage(srcs: seq<string>, tempdir: string, header: Option<string>, footer: Option<string>)
    returns (merged: seq<string>, tasks: seq<Task>)
    requires AllWorking(srcs)
    ensures header.None? && footer.None? ==> merged == srcs && tasks == []
    ensures header.Some? || footer.Some? ==>
              merged == Each(MergedName, srcs) && tasks == Each(MergeTaskOf(tempdir, header, footer), srcs)
  {
    if header.None? && footer.None? {
      return srcs, [];
    }
    merged, tasks := [], [];
    for i := 0 to |srcs|
      invariant MergedSoFar(srcs, i, tempdir, header, footer, merged, tasks)
    {
      MergedStep(srcs, i, tempdir, header, footer, merged, tasks);
      var src := srcs[i];
      var dst := Retag("MERGED", src);
      var srcFile := tempdir + "/" + src;
      var dstFile := tempdir + "/" + dst;
      var args := BuildMergeArgs(header, footer, srcFile, dstFile);
      StageTags();
      IdentityNoSlash(src);
      tasks := tasks + [Task(TaskName("MERGED", Identity(src)), args)];
      merged := merged + [dst];
    }
    assert srcs[..|srcs|] == srcs;
  }

  /** The argument list of one merge command, built up as the loop body does. */
  method BuildMergeArgs(header: Option<string>, footer: Option<string>, srcFile: string, dstFile: string)
    returns (args: seq<string>)
    ensures args == MergeArgs(header, footer, srcFile, dstFile)
  {
    args := ["-append"];
    if header.Some? {
      args := args + [header.value];
    }
    assert args == ["-append"] + OptionList(header);
    args := args + [srcFile];
    if footer.Some? {
      args := args + [footer.value];
    }
    assert args == ["-append"] + OptionList(header) + [srcFile] + OptionList(footer);
    args := args + ["-strip", dstFile];
  }

  /**
   * The images a merge command appends are the header when there is one,
   * then the page, then the footer when there is one; the output is the
   * merged file.
   */
  lemma MergeOrder(header: Option<string>, footer: Option<string>, srcFile: string, dstFile: string)
    ensures var a := MergeArgs(header, footer, srcFile, dstFile);
      && |a| == 4 + |OptionList(header)| + |OptionList(footer)|
      && a[0] == "-append" && a[|a| - 2] == "-strip" && a[|a| - 1] == dstFile
      && a[1 + |OptionList(header)|] == srcFile
      && (header.Some? ==> a[1] == header.value)
      && (footer.Some? ==> a[|a| - 3] == footer.value)
  {
    var h, f := OptionList(header), OptionList(footer);
    var a := MergeArgs(header, footer, srcFile, dstFile);
    var pre := ["-append"] + h;
    var mid := pre + [srcFile] + f;
    assert a == mid + ["-strip", dstFile];
    assert a[..|mid|] == mid;
    assert a[|pre|] == mid[|pre|];
    assert a[0] == pre[0];
    if header.Some? {
      assert a[1] == pre[1];
    }
    if footer.Some? {
      assert a[|a| - 3] == mid[|mid| - 1];
    }
  }

  // ----- labels -----

  /** `os.path.splitext(src.split('_', 1)[1])[0]`: the identity without its extension. */
  function LabelStem(src: string): string
    requires WorkingName(src)
  {
    SplitExtRoot(Identity(src))
  }

  /** `stem.split(sep, 1)[0]`: the label of a page is its stem up to the first separator. */
  function LabelOf(sep: string, src: string): string
    requires sep != [] && WorkingName(src)
  {
    BeforeFirst(LabelStem(src), sep)
  }

  function LabelOfFn(sep: string): string --> string
    requires sep != []
  {
    src requires WorkingName(src) => LabelOf(sep, src)
  }

  /** The image file a label is drawn into; pages with the same label share it. */
  function LabelFile(tempdir: string, caption: string): string
  {
    tempdir + "/LABEL_" + caption + ".png"
  }

  predicate NoDuplicates(s: seq<string>)
  {
    forall i, j :: 0 <= i < j < |s| ==> s[i] != s[j]
  }

  /** The labels in order of first occurrence, each once. */
  function Distinct(labels: seq<string>): (r: seq<string>)
    ensures forall x :: x in r <==> x in labels
    ensures NoDuplicates(r)
  {
    if labels == [] then []
    else
      var d := Distinct(labels[..|labels| - 1]);
      var last := labels[|labels| - 1];
      assert labels == labels[..|labels| - 1] + [last];
      if last in d then d else d + [last]
  }

  /** The position of the first occurrence of `x` in `l`. */
  function FirstIndex(l: seq<string>, x: string): (k: nat)
    requires x in l
    ensures k < |l| && l[k] == x && x !in l[..k]
  {
    if l[0] == x then 0
    else
      assert l == [l[0]] + l[1..];
      var k := 1 + FirstIndex(l[1..], x);
      assert l[..k] == [l[0]] + l[1..][..k - 1];
      k
  }

  /** Any position holding `x` with no `x` before it is the first occurrence. */
  lemma FirstIndexIs(l: seq<string>, x: string, k: nat)
    requires k < |l| && l[k] == x && x !in l[..k]
    ensures FirstIndex(l, x) == k
  {
  }

  /** Appending an element leaves the first occurrence of an earlier element where it was. */
  lemma FirstIndexSnoc(l: seq<string>, y: string, x: string)
    requires x in l
    ensures FirstIndex(l + [y], x) == FirstIndex(l, x)
  {
    var k := FirstIndex(l, x);
    assert (l + [y])[..k] == l[..k];
    FirstIndexIs(l + [y], x, k);
  }

  /** Of any two entries of `d`, the earlier one first occurs earlier in `labels`. */
  predicate InFirstOccurrenceOrder(labels: seq<string>, d: seq<string>)
    requires forall x :: x in d ==> x in labels
  {
    forall i, j :: 0 <= i < |d| && 0 <= j < |d| && i < j ==> FirstIndex(labels, d[i]) < FirstIndex(labels, d[j])
  }

  /**
   * The distinct labels come in order of first occurrence: of any two, the
   * earlier one first occurs earlier in the list. With the membership and
   * uniqueness `Distinct` ensures, this makes it the subsequence of first
   * occurrences.
   */
  lemma {:induction false} DistinctFirstOccurrenceOrder(labels: seq<string>)
    ensures InFirstOccurrenceOrder(labels, Distinct(labels))
  {
    if labels != [] {
      var init := labels[..|labels| - 1];
      var last := labels[|labels| - 1];
      assert labels == init + [last];
      var d0 := Distinct(init);
      var d := Distinct(labels);
      DistinctFirstOccurrenceOrder(init);
      assert d == if last in d0 then d0 else d0 + [last];
      if last !in d0 {
        FirstIndexIs(labels, last, |init|);
      }
      forall i, j | 0 <= i < |d| && 0 <= j < |d| && i < j ensures FirstIndex(labels, d[i]) < FirstIndex(labels, d[j]) {
        assert d[i] == d0[i] && d0[i] in d0;
        FirstIndexSnoc(init, last, d0[i]);
        if j < |d0| {
          assert d[j] == d0[j] && d0[j] in d0;
          FirstIndexSnoc(init, last, d0[j]);
          assert FirstIndex(init, d0[i]) < FirstIndex(init, d0[j]);
        } else {
          assert d[j] == last && FirstIndex(labels, last) == |init|;
          assert FirstIndex(init, d0[i]) < |init|;
        }
      }
    }
  }

  lemma DistinctSnoc(labels: seq<string>, x: string)
    ensures Distinct(labels + [x]) == if x in Distinct(labels) then Distinct(labels) else Distinct(labels) + [x]
  {
    assert (labels + [x])[..|labels|] == labels;
  }

  /** The font arguments: the requested font, else a default font on Linux, else none. */
  function FontArgs(font: Option<string>, onLinux: bool): seq<string>
  {
    if font.Some? then ["-font", font.value]
    else if onLinux then ["-font", "Bitstream-Vera-Sans-Bold"]
    else []
  }

  /** The command that draws one label, right-aligned, on a transparent strip. */
  function LabelTask(tempdir: string, font: Option<string>, onLinux: bool, color: string,
                     width: int, labelHeight: int, caption: string): Task
  {
    Task(caption, FontArgs(font, onLinux)
                + ["-background", "none", "-fill", color, "-size", Geometry(width, labelHeight),
                   "-gravity", "East", "label:" + caption, LabelFile(tempdir, caption)])
  }

  function LabelTaskOf(tempdir: string, font: Option<string>, onLinux: bool, color: string,
                       width: int, labelHeight: int): string -> Task
  {
    caption => LabelTask(tempdir, font, onLinux, color, width, labelHeight, caption)
  }

  function LabelFileOf(tempdir: string, sep: string): string --> string
    requires sep != []
  {
    src requires WorkingName(src) => LabelFile(tempdir, LabelOf(sep, src))
  }

  /** `m` maps exactly the names, each to its image under `f`. */
  ghost predicate MapsEach(m: map<string, string>, names: seq<string>, f: string --> string)
  {
    && (forall n :: n in m <==> n in names)
    && (forall n :: n in names ==> f.requires(n) && m[n] == f(n))
  }

  lemma MapsEachSnoc(m: map<string, string>, names: seq<string>, i: nat, f: string --> string)
    requires i < |names| && MapsEach(m, names[..i], f) && f.requires(names[i])
    ensures MapsEach(m[names[i] := f(names[i])], names[..i + 1], f)
  {
    assert names[..i + 1] == names[..i] + [names[i]];
  }

  /** What the label generation loop has built after the first `i` pages. */
  ghost predicate LabelsSoFar(srcs: seq<string>, i: nat, tempdir: string, sep: string, draw: string -> Task,
                              labels: set<string>, labelFiles: map<string, string>, tasks: seq<Task>)
    requires sep != [] && AllWorking(srcs) && i <= |srcs|
  {
    var drawn := Distinct(Each(LabelOfFn(sep), srcs[..i]));
    && MapsEach(labelFiles, srcs[..i], LabelFileOf(tempdir, sep))
    && (forall l :: l in labels <==> l in drawn)
    && tasks == Each(draw, drawn)
  }

  /** One step of the label generation loop: a seen label is only mapped, a new one is also drawn. */
  lemma LabelsStep(srcs: seq<string>, i: nat, tempdir: string, sep: string, draw: string -> Task,
                   labels: set<string>, labelFiles: map<string, string>, tasks: seq<Task>)
    requires sep != [] && AllWorking(srcs) && i < |srcs|
    requires LabelsSoFar(srcs, i, tempdir, sep, draw, labels, labelFiles, tasks)
    ensures var caption := LabelOf(sep, srcs[i]);
      var files := labelFiles[srcs[i] := LabelFile(tempdir, caption)];
      if caption in labels then LabelsSoFar(srcs, i + 1, tempdir, sep, draw, labels, files, tasks)
      else LabelsSoFar(srcs, i + 1, tempdir, sep, draw, labels + {caption}, files, tasks + [draw(caption)])
  {
    var caption := LabelOf(sep, srcs[i]);
    var drawn := Distinct(Each(LabelOfFn(sep), srcs[..i]));
    DrawnSnoc(srcs, i, sep);
    MapsEachSnoc(labelFiles, srcs, i, LabelFileOf(tempdir, sep));
    if caption !in labels {
      DrawAppend(draw, drawn, caption);
    }
  }

  /** The labels drawn after one more page: its label joins them unless it is there already. */
  lemma DrawnSnoc(srcs: seq<string>, i: nat, sep: string)
    requires sep != [] && AllWorking(srcs) && i < |srcs|
    ensures var drawn := Distinct(Each(LabelOfFn(sep), srcs[..i]));
      var caption := LabelOf(sep, srcs[i]);
      Distinct(Each(LabelOfFn(sep), srcs[..i + 1])) == if caption in drawn then drawn else drawn + [caption]
  {
    var before := Each(LabelOfFn(sep), srcs[..i]);
    EachSnoc(LabelOfFn(sep), srcs, i);
    DistinctSnoc(before, LabelOf(sep, srcs[i]));
  }

  lemma DrawAppend(draw: string -> Task, drawn: seq<string>, caption: string)
    ensures Each(draw, drawn + [caption]) == Each(draw, drawn) + [draw(caption)]
  {
    EachAppend(draw, drawn, [caption]);
    EachOne(draw, caption);
  }

  /**
   * The label generation loop: every page is mapped to its label's file,
   * and each distinct label is drawn by one command, in order of first
   * occurrence.
   */
  method GenerateLabels(srcs: seq<string>, tempdir: string, sep: string, font: Option<string>, onLinux: bool,
                        color: string, width: int, labelHeight: int)
    returns (labelFiles: map<string, string>, tasks: seq<Task>)
    requires sep != [] && AllWorking(srcs)
    ensures MapsEach(labelFiles, srcs, LabelFileOf(tempdir, sep))
    ensures tasks == Each(LabelTaskOf(tempdir, font, onLinux, color, width, labelHeight),
                          Distinct(Each(LabelOfFn(sep), srcs)))
  {
    ghost var draw := LabelTaskOf(tempdir, font, onLinux, color, width, labelHeight);
    var labels: set<string> := {};
    labelFiles, tasks := map[], [];
    for i := 0 to |srcs|
      invariant LabelsSoFar(srcs, i, tempdir, sep, draw, labels, labelFiles, tasks)
    {
      LabelsStep(srcs, i, tempdir, sep, draw, labels, labelFiles, tasks);
      var src := srcs[i];
      var caption := LabelOf(sep, src);
      var labelFile := LabelFile(tempdir, caption);
      labelFiles := labelFiles[src := labelFile];
      if caption in labels {
        continue;
      }
      labels := labels + {caption};
      tasks := tasks + [LabelTask(tempdir, font, onLinux, color, width, labelHeight, caption)];
    }
    assert srcs[..|srcs|] == srcs;
  }

  /** No two label commands draw the same label, and every page's label is drawn by one of them. */
  lemma LabelsDrawnOnce(srcs: seq<string>, sep: string, src: string)
    requires sep != [] && AllWorking(srcs) && src in srcs
    ensures var drawn := Distinct(Each(LabelOfFn(sep), srcs));
      NoDuplicates(drawn) && LabelOf(sep, src) in drawn
  {
    var k :| 0 <= k < |srcs| && srcs[k] == src;
    EachAt(LabelOfFn(sep), srcs, k);
  }

  function LabeledName(src: string): string
    requires WorkingName(src)
  {
    "LABELED_" + LabelStem(src) + ".png"
  }

  /** The offset of the label from the bottom right corner, `-{x}+{y}`. */
  function Offset(x: int, y: int): string
  {
    "-" + IntText(x) + "+" + IntText(y)
  }

  /** The command that lays the page's label image over the bottom of the page. */
  function ApplyTask(tempdir: string, labelFiles: map<string, string>, marginX: int, marginY: int, src: string): Task
    requires WorkingName(src) && src in labelFiles
  {
    Task(LabelStem(src), ["-gravity", "South", "-geometry", Offset(marginX, marginY), labelFiles[src],
                          tempdir + "/" + src, tempdir + "/" + LabeledName(src)])
  }

  function ApplyTaskOf(tempdir: string, labelFiles: map<string, string>, marginX: int, marginY: int): string --> Task
  {
    src requires WorkingName(src) && src in labelFiles => ApplyTask(tempdir, labelFiles, marginX, marginY, src)
  }

  /** What the label application loop has built after the first `i` files. */
  ghost predicate AppliedSoFar(srcs: seq<string>, i: nat, tempdir: string, labelFiles: map<string, string>,
                               marginX: int, marginY: int, labeled: seq<string>, tasks: seq<Task>)
    requires AllWorking(srcs) && (forall src :: src in srcs ==> src in labelFiles) && i <= |srcs|
  {
    && labeled == Each(LabeledName, srcs[..i])
    && tasks == Each(ApplyTaskOf(tempdir, labelFiles, marginX, marginY), srcs[..i])
  }

  lemma AppliedStep(srcs: seq<string>, i: nat, tempdir: string, labelFiles: map<string, string>,
                    marginX: int, marginY: int, labeled: seq<string>, tasks: seq<Task>)
    requires AllWorking(srcs) && (forall src :: src in srcs ==> src in labelFiles) && i < |srcs|
    requires AppliedSoFar(srcs, i, tempdir, labelFiles, marginX, marginY, labeled, tasks)
    ensures AppliedSoFar(srcs, i + 1, tempdir, labelFiles, marginX, marginY,
                         labeled + [LabeledName(srcs[i])], tasks + [ApplyTask(tempdir, labelFiles, marginX, marginY, srcs[i])])
  {
    EachSnoc(LabeledName, srcs, i);
    EachSnoc(ApplyTaskOf(tempdir, labelFiles, marginX, marginY), srcs, i);
  }

  /** The label application loop: the i-th file becomes `LABELED_{root}.png` by the i-th command. */
  method ApplyLabels(srcs: seq<string>, tempdir: string, labelFiles: map<string, string>, marginX: int, marginY: int)
    returns (labeled: seq<string>, tasks: seq<Task>)
    requires AllWorking(srcs) && forall src :: src in srcs ==> src in labelFiles
    ensures labeled == Each(LabeledName, srcs)
    ensures tasks == Each(ApplyTaskOf(tempdir, labelFiles, marginX, marginY), srcs)
  {
    labeled, tasks := [], [];
    for i := 0 to |srcs|
      invariant AppliedSoFar(srcs, i, tempdir, labelFiles, marginX, marginY, labeled, tasks)
    {
      AppliedStep(srcs, i, tempdir, labelFiles, marginX, marginY, labeled, tasks);
      var src := srcs[i];
      var stem := LabelStem(src);
      var dst := "LABELED_" + stem + ".png";
      var args := ["-gravity", "South", "-geometry", Offset(marginX, marginY), labelFiles[src],
                   tempdir + "/" + src, tempdir + "/" + dst];
      tasks := tasks + [Task(stem, args)];
      labeled := labeled + [dst];
    }
    assert srcs[..|srcs|] == srcs;
  }

  // ----- collect -----

  /**
   * The arguments of the final command: output settings, then every final
   * file in order, then the output PDF.
   */
  function CollectArgs(tempdir: string, width: int, height: int, dpi: int, srcs: seq<string>, output: string): seq<string>
  {
    ["-format", "pdf", "-resize", Geometry(width, height), "-units", "PixelsPerInch", "-density", IntText(dpi)]
    + Join(tempdir, srcs) + [output]
  }

  /** The i-th input of the final command is the i-th final file, and the output comes last. */
  lemma CollectOrder(tempdir: string, width: int, height: int, dpi: int, srcs: seq<string>, output: string)
    ensures var a := CollectArgs(tempdir, width, height, dpi, srcs, output);
      && |a| == |srcs| + 9
      && a[|a| - 1] == output
      && forall i :: 0 <= i < |srcs| ==> a[8 + i] == tempdir + "/" + srcs[i]
  {
    var a := CollectArgs(tempdir, width, height, dpi, srcs, output);
    var head := ["-format", "pdf", "-resize", Geometry(width, height), "-units", "PixelsPerInch", "-density", IntText(dpi)];
    assert |head| == 8;
    assert a == head + Join(tempdir, srcs) + [output];
    forall i | 0 <= i < |srcs| ensures a[8 + i] == tempdir + "/" + srcs[i] {
      assert a[8 + i] == Join(tempdir, srcs)[i];
    }
  }

  // ----- heights -----

  /**
   * The body height: what the page height leaves after the header and the
   * footer, or the error reported when any of the three is negative.
   */
  function BodyHeight(total: int, header: int, footer: int): (r: Result<int>)
    ensures r.Success? <==> header >= 0 && footer >= 0 && header + footer <= total
    ensures r.Success? ==> r.value >= 0 && header + r.value + footer == total
    ensures r.Failure? ==> r.error == "Some heights came out negative"
  {
    var body := total - header - footer;
    if header < 0 || body < 0 || footer < 0 then Failure("Some heights came out negative") else Success(body)
  }

  // ----- what the stages do to a rendered page -----

  /**
   * A stage file `{tag}_{root}.png` whose root has no '/' and is not all dots
   * is a working name with identity `{root}.png` and label stem `root`.
   */
  lemma StageFile(tag: string, root: string)
    requires IsTag(tag) && '/' !in root && NonDotIn(root, 0, |root|)
    ensures var f := tag + "_" + root + ".png";
      && WorkingName(f)
      && Identity(f) == root + ".png"
      && LabelStem(f) == root
  {
    var id := root + ".png";
    var f := tag + "_" + root + ".png";
    assert f == tag + "_" + id;
    assert '_' !in tag && '/' !in tag;
    IdentityOfTagged(tag, id);
    StemNameDropsExtension(root, ".png");
  }

  /**
   * The next stage `next` turns `{tag}_{root}.png` into `{next}_{root}.png`
   * and names its command `root`.
   */
  lemma NextStage(tag: string, next: string, root: string)
    requires IsTag(tag) && IsTag(next) && '/' !in root && NonDotIn(root, 0, |root|)
    ensures var f := tag + "_" + root + ".png";
      && WorkingName(f)
      && Retag(next, f) == next + "_" + root + ".png"
      && TaskName(next, Identity(f)) == root
  {
    StageFile(tag, root);
    StageTaskName(next, root);
  }

  /** The command of a stage writing `{tag}_{root}.png` is named `root`. */
  lemma StageTaskName(tag: string, root: string)
    requires IsTag(tag) && '/' !in root && NonDotIn(root, 0, |root|)
    ensures TaskName(tag, root + ".png") == root
  {
    var name := tag + "_" + root;
    assert name[0] != '.';
    assert '/' !in tag;
    assert '/' !in name;
    assert tag + "_" + (root + ".png") == name + ".png";
    StemNameDropsExtension(name, ".png");
    IdentityOfTagged(tag, root);
  }

  /** The root of a rendered page `SRC_{stem}-{n}.png` is `{stem}-{n}`, which has a non-dot character. */
  lemma PageRoot(stem: string, n: nat)
    requires '/' !in stem
    ensures var root := stem + "-" + Decimal(n);
      && PageName(stem, n) == "SRC" + "_" + root + ".png"
      && '/' !in root && NonDotIn(root, 0, |root|)
  {
    var root := stem + "-" + Decimal(n);
    assert root[|stem|] == '-';
    var d := Decimal(n);
    forall j | 0 <= j < |d| ensures d[j] != '/' {
      assert '0' <= d[j] <= '9';
    }
    forall j | 0 <= j < |root| ensures root[j] != '/' {
      if j > |stem| {
        assert root[j] == d[j - |stem| - 1];
      }
    }
  }

  /**
   * Page `n` of a PDF with stem `stem` keeps its identity through the
   * stages: resized to `RESIZED_{stem}-{n}.png`, merged to
   * `MERGED_{stem}-{n}.png`, labeled to `LABELED_{stem}-{n}.png`, each
   * command named `{stem}-{n}`, and labeled with the part of `{stem}-{n}`
   * before the first separator.
   */
  lemma PageThroughStages(stem: string, n: nat, sep: string)
    requires '/' !in stem && sep != []
    ensures var page, root := PageName(stem, n), stem + "-" + Decimal(n);
      var resized := ResizedName(page);
      var merged := MergedName(resized);
      && IsTag("RESIZED") && IsTag("MERGED")
      && resized == "RESIZED" + "_" + root + ".png"
      && TaskName("RESIZED", Identity(page)) == root
      && merged == "MERGED" + "_" + root + ".png"
      && '/' !in root && Identity(resized) == root + ".png"
      && TaskName("MERGED", Identity(resized)) == root
      && LabeledName(merged) == "LABELED_" + root + ".png"
      && LabelOf(sep, merged) == BeforeFirst(root, sep)
  {
    var root := stem + "-" + Decimal(n);
    PageRoot(stem, n);
    StageTags();
    NextStage("SRC", "RESIZED", root);
    var resized := "RESIZED" + "_" + root + ".png";
    NextStage("RESIZED", "MERGED", root);
    StageFile("MERGED", root);
  }
}
