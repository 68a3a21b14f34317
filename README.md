# ilovetj page pipeline, modelled in Dafny

`ilovetj.py` turns a set of PDF sources into one annotated PDF. It resolves
the sources, orders them by a "sectioned mixed" natural key of their file
stems, and renders every page to a PNG with ghostscript. It then re-collects
the pages from the temporary directory and passes each page through
ImageMagick stages:

1. resize the page to the body area;
2. stack the header and footer onto it;
3. draw one label image per distinct label and lay it over the page;
4. finally, collect all pages into the output PDF.

Each stage renames its files by swapping a stage tag in front of an
unchanged identity: `SRC_x.png`, then `RESIZED_x.png`, `MERGED_x.png` and
`LABELED_x.png`.

This project models that core:

- the key, `stem_name` and the key-ordered sort;
- source resolution;
- the render commands and the page re-collection;
- the file renaming and argument lists of every stage;
- label extraction and de-duplication;
- the final collect command;
- the body-height check.

Each module sits in one file:

| module | file | models |
|---|---|---|
| `Wrappers` | `wrappers.dfy` | `Option` and `Result`. |
| `Text` | `text.dfy` | Character classes, decimal text, and `str.find`, `str.rfind` and `str.split(sep, 1)`. |
| `Paths` | `paths.dfy` | `os.path.basename`, the root half of `os.path.splitext`, and `stem_name`. |
| `Gathering` | `gathering.dfy` | `Each`, `Gather` and `ConcatMap`: the shapes of the script's "append one item per input" loops, and of loops that stop at the first error. |
| `NaturalKey` | `natural_key.dfy` | `sectioned_mixed_key`, as a function and as the script's nested loops. |
| `KeyOrder` | `key_order.dfy` | Python's `<` on key lists. It is partial, because comparing an integer with a string raises `TypeError`. |
| `MixedSort` | `mixed_sort.dfy` | `sorted_mixed_basename`, as a stable sort by key that fails on incomparable keys. |
| `Sources` | `sources.dfy` | The source-resolution loop. |
| `Render` | `render.dfy` | The render loop, the page re-collection loop, and the glob pattern that loop uses. |
| `Stages` | `stages.dfy` | The resize, merge, label-generation and label-application loops, the collect arguments, and the body-height check. |

The loops are Dafny methods with loop invariants. Each is proved equal to a
specification function, and the properties are proved as lemmas about those
functions. A stage's commands are values: a `Task(name, args)` per command,
with the name the script logs the command under.

## Model

| member | source | states |
|---|---|---|
| `Text.Decimal` | ilovetj.py:342-343 | The decimal text of a number is non-empty, all digits, and has no leading zero unless the number is 0. |
| `Text.DecimalRoundTrip` | ilovetj.py:145 | `int()` of the decimal text of `n` is `n`. So a page number written by ghostscript reads back as that number in the key. |
| `Text.IntText` | ilovetj.py:467 | An integer's text starts with '-' exactly when the integer is negative. |
| `Text.IntTextValue` | ilovetj.py:467 | The text of an integer reads back as its value: all digits and equal to `i` when `i >= 0`; otherwise '-' followed by the digits of `-i`. |
| `Text.LastIndexOf` | ilovetj.py:152 | The result is the last position of the character, or -1 when there is none. |
| `Text.FindFirst` | ilovetj.py:421 | The result is the first occurrence of the separator, or None when it does not occur. |
| `Text.BeforeFirst` | ilovetj.py:421 | `s.split(sep, 1)[0]` is a prefix of `s`. It is all of `s` exactly when `sep` does not occur. Otherwise `sep` follows it, and `sep` occurs nowhere inside it. |
| `Text.AfterFirst` | ilovetj.py:364 | `s.split(sep, 1)[1]` is the suffix of `s` after the first occurrence of `sep`. |
| `Paths.Basename` | ilovetj.py:152 | `os.path.basename` is the suffix after the last '/', and it contains no '/'. |
| `Paths.StemNameShape` | ilovetj.py:151-152 | `stem_name` is a prefix of the base name and contains no '/'. It drops a final dot and a dot-free extension. It drops nothing exactly when every dot of the name has only dots before it. |
| `Paths.RootOfFileName` | ilovetj.py:152 | The same as `StemNameShape`, for a single path component. |
| `Paths.StemNameIgnoresDirectory` | ilovetj.py:152 | Prefixing `dir/` changes neither the base name nor the stem. |
| `Paths.StemNameDropsExtension` | ilovetj.py:152 | The stem of `name + ".ext"` is `name`, when `name` has a non-dot character. |
| `NaturalKey.Sections` | ilovetj.py:140 | Splitting the stem at '-', '_' and every non-word character always yields at least one piece, and every piece consists only of letters and digits. |
| `NaturalKey.SectionsCoverKeyChars` | ilovetj.py:140 | Joining the sections back together gives exactly the letters and digits of the stem. |
| `NaturalKey.SectionsSplit` | ilovetj.py:140 | The sections of `a + sep + b` are the sections of `a` followed by those of `b`. |
| `NaturalKey.SectionsOfKeyChars` | ilovetj.py:140 | A stem without separators is a single section. |
| `NaturalKey.SectionsAllEmpty` | ilovetj.py:140 | Every section is empty exactly when the stem has no letter or digit. |
| `NaturalKey.Runs` | ilovetj.py:143-144 | The runs that `re.split('([0-9]+)', s)` yields after dropping empty pieces are all non-empty. |
| `NaturalKey.RunsAreMaximal` | ilovetj.py:143-144 | The runs concatenate back to the section. Each run is all digits or all non-digits. Neighbouring runs are of different kinds. The first run starts with the section's first character. |
| `NaturalKey.RunsCover` | ilovetj.py:143-144 | The runs concatenate back to the section. |
| `NaturalKey.RunsUniform` | ilovetj.py:143-144 | Each run is all digits or all non-digits. |
| `NaturalKey.RunsAlternate` | ilovetj.py:143-144 | Neighbouring runs are of different kinds, so no run could be extended. |
| `NaturalKey.RunsFirst` | ilovetj.py:143-144 | A non-empty section's first run starts with its first character. |
| `NaturalKey.RunsKeyChars` | ilovetj.py:143-144 | The runs of a letters-and-digits section are letters and digits. |
| `NaturalKey.RunsOfDigits` | ilovetj.py:143-144 | An all-digit section is a single run. |
| `NaturalKey.RunsOfWordThenNumber` | ilovetj.py:143-144 | Letters followed by digits form exactly two runs, or one run when there are no digits. |
| `NaturalKey.Tokens` | ilovetj.py:145 | There is one token per run, in order, and each is `int(k) if k.isdigit() else k`. |
| `NaturalKey.SectionedMixedKey` | ilovetj.py:139-149 | The script's nested loops, including the sentinel test on the whole `keys` list, build exactly `Key(x)`: the section keys one after another. |
| `NaturalKey.SentinelAfterSection` | ilovetj.py:146-147 | The test on the last element of the whole `keys` list appends -1 exactly when the current section itself ends in a string. Earlier sections always end in an integer. |
| `NaturalKey.SectionTokensShape` | ilovetj.py:143-147 | In a section's tokens, strings are non-empty runs of letters and are followed by an integer. Integers are at least 0. |
| `NaturalKey.KeyShape` | ilovetj.py:139-149 | Every key is well shaped and ends in an integer. The only negative integer is the sentinel, which comes only after a string. |
| `NaturalKey.ConcatKeysShape` | ilovetj.py:141-147 | Keys of letters-and-digits sections, concatenated, stay well shaped. |
| `NaturalKey.KeyEmptyIff` | ilovetj.py:139-149 | The key is empty exactly when the stem has no letter or digit. |
| `NaturalKey.SectionKeyEmpty` | ilovetj.py:143-147 | A section contributes nothing exactly when it is empty. |
| `NaturalKey.ConcatKeysAppend` | ilovetj.py:142-147 | The keys of two runs of sections concatenate. |
| `NaturalKey.KeySplitsAtSeparator` | ilovetj.py:139-149 | The key of `a + sep + b` is `Key(a) + Key(b)`, for any separator character. |
| `NaturalKey.KeyOfWordThenNumber` | ilovetj.py:139-149 | The key of letters `w` followed by digits `d` is `[w, int(d)]`. With no digits it is `[w, -1]`. |
| `NaturalKey.KeyOfNumber` | ilovetj.py:139-149 | An all-digit stem has the key `[int(d)]`. |
| `KeyOrder.CompareStrings` | ilovetj.py:155 | Python's string `<` is total and returns Equal exactly on equal strings. |
| `KeyOrder.CompareTokens` | ilovetj.py:155 | Tokens are incomparable (`TypeError`) exactly when one is an integer and the other a string. They are Equal exactly when identical. |
| `KeyOrder.CompareKeys` | ilovetj.py:155 | Python's list comparison returns Equal exactly on equal keys. |
| `KeyOrder.CompareKeysFlip` | ilovetj.py:155 | Swapping the operands swaps Less and Greater, and keeps Equal and Incomparable. |
| `KeyOrder.CompareKeysTransitive` | ilovetj.py:155 | Less is transitive on keys, even when some other pair of keys is incomparable. |
| `KeyOrder.KeyLeqTransitive` | ilovetj.py:155 | "Less or equal" on keys is transitive. |
| `KeyOrder.KeyLeqTotal` | ilovetj.py:155 | Two comparable keys are ordered one way or the other, and both ways only when equal. |
| `KeyOrder.CommonPrefixCompare` | ilovetj.py:155 | A common beginning does not decide the comparison. |
| `KeyOrder.DecidedPrefix` | ilovetj.py:155 | Once equal-length beginnings differ, whatever follows does not matter. |
| `KeyOrder.WordBeforeWordWithNumber` | ilovetj.py:146-147 | Thanks to the -1 sentinel, a letters-only stem sorts before the same letters followed by any number. |
| `KeyOrder.NumbersCompareByValue` | ilovetj.py:145 | Digit runs compare by value: the same word with a smaller number sorts first. |
| `KeyOrder.TwoBeforeTen` | ilovetj.py:145 | "D2" sorts before "D10". |
| `KeyOrder.WordBeforeOne` | ilovetj.py:146-147 | "D" sorts before "D1". |
| `KeyOrder.KeyOfOneA` | ilovetj.py:139-149 | The key of "1a" is `[1, "a", -1]`. |
| `KeyOrder.MixedKeysIncomparable` | ilovetj.py:155 | The keys of "1-2" and "1a" cannot be compared, so sorting them raises `TypeError`. |
| `KeyOrder.FirstSectionDecides` | ilovetj.py:139-149 | Stems whose first sections have different keys of the same length are ordered by those first sections alone. |
| `KeyOrder.DocumentedExampleOrder` | ilovetj.py:65-70 | Whatever follows the first dash, a D1-… stem sorts before an L1-… stem, which sorts before an L2-… stem: the order the usage text promises. |
| `MixedSort.Insert` | ilovetj.py:155 | Inserting adds exactly one copy of the element, and keeps a sorted list sorted when the element is comparable with all of it. |
| `MixedSort.Sort` | ilovetj.py:155 | The result is a permutation of the input, sorted by key when all keys are comparable. |
| `MixedSort.SortStable` | ilovetj.py:155 | The paths that share any one key come out in their input order: `sorted` is stable. |
| `MixedSort.InsertStable` | ilovetj.py:155 | Inserting `x` adds it in front of the paths with its key and changes no other key's paths. |
| `MixedSort.SortedPairwise` | ilovetj.py:155 | In a sorted list every earlier key is less than or equal to every later one. |
| `MixedSort.SortedMixedBasename` | ilovetj.py:154-155 | It succeeds exactly when all stem keys are pairwise comparable. On success the result is a permutation of the input, in key order, and paths with equal keys keep their input order (a stable sort). |
| `MixedSort.SortedMixedBasenameEmpty` | ilovetj.py:154-155 | An empty list sorts to itself. |
| `MixedSort.SortedMixedBasenameOne` | ilovetj.py:154-155 | A one-element list sorts to itself. |
| `MixedSort.SortJoinKeepingKeys` | ilovetj.py:154-155 | Sorting `dir/name` paths by a key that ignores the directory gives the sorted names with `dir/` in front. |
| `MixedSort.SortJoin` | ilovetj.py:302 | The same holds for the stem key. Comparability does not depend on the directory either. |
| `MixedSort.KeyOfKeepsKeys` | ilovetj.py:152 | The directory never takes part in a path's key. |
| `Sources.PdfNames` | ilovetj.py:302 | `glob('dir/*.pdf')` keeps exactly the listed names that end in ".pdf" and do not start with '.'. |
| `Sources.PdfNamesAppend` | ilovetj.py:302 | The filter keeps listing order and multiplicity: filtering two runs of entries concatenates what each keeps. |
| `Sources.PdfNamesOne` | ilovetj.py:302 | A single entry is kept exactly when `*.pdf` matches it. |
| `Sources.GlobDir` | ilovetj.py:302 | The directory glob joins the names to is the argument with its trailing '/' removed, or the argument itself when it is all '/'. |
| `Sources.GlobDirOfSlashed` | ilovetj.py:302 | An argument written as `dir/` globs as `dir`. |
| `Sources.TrailingSlashJoinedOnce` | ilovetj.py:302 | A directory argument `dir/` yields `dir/name`, with a single '/'. |
| `Sources.ResolveSources` | ilovetj.py:300-310 | The loop returns the concatenated contributions, re-sorted unless the order is kept. It stops at the first failure, as `Resolve` does. |
| `Sources.ExpandAppend` | ilovetj.py:300-307 | Two runs of arguments contribute their lists one after the other. |
| `Sources.ExpandOfFile` | ilovetj.py:304-305 | A file argument contributes exactly itself. |
| `Sources.FileKeepsItsPlace` | ilovetj.py:300-310 | With `--keep-order`, a file lands exactly between what the arguments before it and after it contribute. |
| `Sources.FirstInvalidSourceIsReported` | ilovetj.py:306-307 | The error names the first argument that is neither a directory nor a file, provided nothing before it failed. |
| `Sources.ExpandSucceedsOnValidSources` | ilovetj.py:300-307 | When every argument contributes, the resolution succeeds. |
| `Sources.DirectoryContribution` | ilovetj.py:302-303 | A directory contributes its `*.pdf` entries, each joined to `GlobDir` of the argument as glob joins them, in the key order of the bare names. |
| `Sources.ResolvedSorted` | ilovetj.py:309-310 | Without `--keep-order` the result is a permutation of the expansion, in key order. |
| `Render.RenderStage` | ilovetj.py:334-345 | The i-th command renders the i-th PDF, and the i-th placeholder is `SRC_{stem}.png`. |
| `Render.Matching` | ilovetj.py:355-356 | The entries the pattern selects are exactly the listed names it matches. |
| `Render.MatchingAppend` | ilovetj.py:355-356 | The selection keeps listing order and multiplicity: matching two runs of entries concatenates what each keeps. |
| `Render.MatchingOne` | ilovetj.py:355-356 | A one-entry listing yields that entry exactly when the pattern matches it. |
| `Render.RecollectPages` | ilovetj.py:353-358 | The loop returns each placeholder's sorted pages in turn. It stops at the first sort that fails, as `Recollect` does. |
| `Render.PagePrefixOfSrcName` | ilovetj.py:355 | The placeholder `SRC_{stem}.png` has the glob prefix `SRC_{stem}`. |
| `Render.RenderedPageMatches` | ilovetj.py:343 | Every page ghostscript writes for a source matches that source's pattern. |
| `Render.PagesSortByNumber` | ilovetj.py:356 | The pages of one source sort by page number: page 2 before page 10. |
| `Render.PageStemKey` | ilovetj.py:356 | The key of `SRC_{stem}-{n}.png` is the key of `SRC_{stem}` followed by `n`. |
| `Render.PageNameStem` | ilovetj.py:343 | The stem of `SRC_{stem}-{n}.png` is `SRC_{stem}-{n}`. |
| `Render.PageRootKey` | ilovetj.py:356 | The key of `{prefix}-{n}` is the key of the prefix followed by `n`. |
| `Render.PagesForSorted` | ilovetj.py:355-356 | A placeholder collects the matching names in key order. Collecting fails exactly when two of their keys are incomparable. |
| `Render.BasenamesOfJoin` | ilovetj.py:356 | `os.path.basename` undoes the `tempdir/` the glob adds. |
| `Render.NoPages` | ilovetj.py:355-356 | A placeholder that matches nothing collects no pages. |
| `Render.OnePage` | ilovetj.py:355-356 | A placeholder that matches one name collects exactly that name. |
| `Render.RecollectTwo` | ilovetj.py:353-356 | Two placeholders collect their pages one after the other. |
| `Render.LongerStemPage` | ilovetj.py:355 | A page of stem `a + t` matches the glob of stem `a` as well as its own. It is never a `{prefix}-{n}.png` page of `a`, whatever non-empty `t` is. |
| `Render.PrefixGlobCollectsPageTwice` | ilovetj.py:355-356 | With sources `a` and `a + t`, the glob collects a page of `a + t` twice (see Findings). |
| `Render.ExactPageCollectsPageOnce` | ilovetj.py:355-356 | Matching only `{prefix}-{n}.png` collects that page once, for its own source, for every non-empty extension `t` of the shorter stem ("L1" and "L10", "L1" and "L1-2" alike). |
| `Render.ExactPageOwner` | ilovetj.py:343 | A name is the `{prefix}-{n}.png` page of at most one prefix. |
| `Render.ExactPagesDisjoint` | ilovetj.py:343 | Under the exact pattern, no name is collected for two different sources. |
| `Stages.IdentityOfTagged` | ilovetj.py:364 | `(tag + "_" + x).split('_', 1)[1]` is `x`, whatever underscores `x` holds. |
| `Stages.RetagKeepsIdentity` | ilovetj.py:364 | Renaming `{tag}_{id}` to another stage tag keeps the identity `id`. |
| `Stages.StemOfTagged` | ilovetj.py:366 | The stem of a tagged name still has an underscore, so the command name `split('_', 1)[1]` exists. |
| `Stages.ResizeStage` | ilovetj.py:361-374 | The i-th file becomes `RESIZED_{identity}` through the i-th command, which strips the page and fits it, centred, into width × body height. |
| `Stages.MergeStage` | ilovetj.py:384-410 | With no header and no footer the files are unchanged and no command runs. Otherwise the i-th file becomes `MERGED_{identity}` through the i-th command. |
| `Stages.BuildMergeArgs` | ilovetj.py:393-400 | The argument list is `-append`, then the header if any, the page, the footer if any, then `-strip` and the output. |
| `Stages.MergeOrder` | ilovetj.py:393-400 | The images are stacked header first, then the page, then the footer. The output file comes last. |
| `Stages.Distinct` | ilovetj.py:425-427 | The labels seen so far hold every label exactly once. Their order is stated by `DistinctFirstOccurrenceOrder`. |
| `Stages.DistinctFirstOccurrenceOrder` | ilovetj.py:425-427 | Of any two distinct labels, the earlier one first occurs earlier among the pages. With `Distinct`'s contract, this makes them the labels in order of first occurrence. |
| `Stages.GenerateLabels` | ilovetj.py:419-443 | Every page is mapped to the image file of its label. Each distinct label is drawn by exactly one command. The commands follow `Distinct`, whose order of first occurrence `DistinctFirstOccurrenceOrder` proves. |
| `Stages.LabelsStep` | ilovetj.py:419-443 | One turn of the loop: a label already seen is only mapped; a new label is also drawn. |
| `Stages.LabelsDrawnOnce` | ilovetj.py:425-427 | No label is drawn twice, and every page's label is drawn. |
| `Stages.ApplyLabels` | ilovetj.py:456-473 | The i-th file becomes `LABELED_{root}.png` through the i-th command, which overlays the page's label file at the bottom. |
| `Stages.CollectOrder` | ilovetj.py:484-489 | The final command lists the 8 settings, then every final file as `tempdir/file` in order, then the output last. |
| `Stages.BodyHeight` | ilovetj.py:281-297 | The check succeeds exactly when the header, footer and body heights are all non-negative. The heights then add up to the page height. Otherwise the error is "Some heights came out negative". |
| `Stages.StageFile` | ilovetj.py:364 | `{tag}_{root}.png` is a working name with identity `{root}.png` and label stem `root`. |
| `Stages.NextStage` | ilovetj.py:364-366 | A stage turns `{tag}_{root}.png` into `{next}_{root}.png` and logs the command as `root`. |
| `Stages.StageTaskName` | ilovetj.py:366 | The command writing `{tag}_{root}.png` is logged as `root`. |
| `Stages.PageRoot` | ilovetj.py:343 | Page `n` is `SRC_{stem}-{n}.png`, whose root `{stem}-{n}` has no '/' and is not all dots. |
| `Stages.PageThroughStages` | ilovetj.py:361-473 | Page `n` of stem `s` becomes `RESIZED_{s}-{n}.png`, then `MERGED_{s}-{n}.png`, then `LABELED_{s}-{n}.png`. Each command is logged as `{s}-{n}`, and the page's label is `{s}-{n}` up to the first separator. |
| `Gathering.GatherStopsAtFailure` | ilovetj.py:306-307 | Once an argument fails, the whole resolution fails with its error. |
| `Gathering.GatherAppend` | ilovetj.py:303 | `pdfs +=` over two runs concatenates them. |
| `Gathering.GatherFirstFailure` | ilovetj.py:306-307 | The error reported is that of the first failing part. |
| `Gathering.EachAt` | ilovetj.py:373-374 | The i-th item a stage loop appends is made from the i-th input. |
| `Gathering.ConcatMapEmpty` | ilovetj.py:142-147 | Concatenated lists are empty exactly when every part is empty. |

## Left out

- Process control is left out: threads (`run_parallel`), the subprocess calls to ghostscript and ImageMagick, `argparse`, logging, and creating or removing the temporary directory. Commands are modelled as `Task` values instead of being run.
- The file system is an input. A directory's listing, a path's kind, and the temporary directory's listing after rendering are given as sequences of names. The glob is a filter over them.
- Glob metacharacters inside a source or stem (`*`, `?`, `[`) are taken literally. Python's glob would expand them.
- Paths are POSIX paths. Windows separators and drive letters are not modelled.
- Floating point is left out: the paper size, the percentages and the margins (ilovetj.py:279-289, 415, 463-464). The pixel sizes, header, footer and label heights, and margins are integer inputs. `Stages.BodyHeight` models only the integer subtraction and the negativity check.
- The header and footer resizing (`resize_header`) and `find_bin` are left out. They are external commands and the search for them.
- `NaturalKey.Sections`: a separator is any character that is not an ASCII letter or digit. Python's `\W` is Unicode-aware and keeps non-ASCII letters and digits inside a section, so keys differ for stems with such characters.
- `MixedSort.SortedMixedBasename` fails whenever any two keys in the list are incomparable. Python's timsort raises `TypeError` only when it actually compares such a pair, which it may not do for every such list.
- `Stages.GenerateLabels` requires a non-empty separator. With `--label-sep ''`, Python's `split` raises `ValueError`, which the model does not represent.
- `Stages.ResizeStage`, `Stages.MergeStage` and `Stages.ApplyLabels` require working names (tagged, with no '/'). `Stages.PageThroughStages` shows every rendered page is one. A name with no '_' would raise `IndexError` in Python.
- `Stages.GenerateLabels` takes the platform test `platform.system() == 'Linux'` as a boolean input.
- Two sources with the same stem overwrite each other's pages in the temporary directory. The file system's overwriting is not modelled.

## Findings

| source | as written | input that shows it | evidently intended | confidence | as-written member | corrected member |
|---|---|---|---|---|---|---|
| ilovetj.py:355-356 | The pattern `{tempdir}/SRC_{stem}*.png` collects every PNG whose name merely starts with the placeholder's prefix. | Sources `L1.pdf` and `L10.pdf`, whose page `SRC_L10-1.png` matches both `SRC_L1*.png` and `SRC_L10*.png`. The page is collected twice: once after L1's own pages and once for L10. | Each placeholder collects only its own pages `SRC_{stem}-{n}.png`. Every page is then collected once, for its own source. | not executed | `Render.PrefixGlobCollectsPageTwice` | `Render.ExactPageCollectsPageOnce` |
