/** The similarity tool's bookkeeping: normalising a file's text for comparison,
    grouping file names by pattern, the pairs a group is measured over and the
    candidate pairs of the pair search. The regular-expression match of a file name
    against a pattern, the case-insensitive replacement of one variant keyword and
    the similarity ratio of two texts are parameters. */
module Similarity {
  import opened Text

  /** A loaded file: its line count, its normalised text, and the error message when
      it could not be read. */
  datatype FileData = FileData(filename: string, lines: nat, normalized: string, error: Option<string>)

  // ---------------------------------------------------------------------
  // normalize_code
  // ---------------------------------------------------------------------

  /** The normalised text is cut to this many characters. */
  const MaxNormalizedLength := 50000

  // A leading doc comment (slash and two stars) removed, up to the first star-slash
  // after the opening: the pattern is anchored at the start and its `.*?` is lazy.
  function DropLeadingDocComment(content: string): string {
    if StartsWith(content, "/**") then
      var e := IndexFrom(content, "*/", 3);
      if e >= 0 then content[e + 2..] else content
    else content
  }

  /** The variant keywords replaced one after the other by `replaceVariant`. */
  function ReplaceVariants(content: string, variants: seq<string>, replaceVariant: (string, string) -> string): string
    decreases |variants|
  {
    if variants == [] then content
    else replaceVariant(ReplaceVariants(content, variants[..|variants| - 1], replaceVariant), variants[|variants| - 1])
  }

  /** The text before the final cut. */
  function Collapsed(content: string, stem: string, variants: seq<string>, replaceVariant: (string, string) -> string): string {
    var c := ReplaceAll(DropLeadingDocComment(content), stem, "CLASS_NAME");
    CollapseWhitespace(ReplaceVariants(c, variants, replaceVariant))
  }

  /** What `normalize_code` returns. */
  function Normalized(content: string, stem: string, variants: seq<string>, replaceVariant: (string, string) -> string): string {
    var c := Collapsed(content, stem, variants, replaceVariant);
    if |c| <= MaxNormalizedLength then c else c[..MaxNormalizedLength]
  }

  /** `normalize_code`, with the file's stem given. */
  method NormalizeCode(content: string, stem: string, variants: seq<string>, replaceVariant: (string, string) -> string)
    returns (r: string)
    ensures r == Normalized(content, stem, variants, replaceVariant)
  {
    var c := DropLeadingDocComment(content);
    c := ReplaceAll(c, stem, "CLASS_NAME");
    for i := 0 to |variants|
      invariant c == ReplaceVariants(ReplaceAll(DropLeadingDocComment(content), stem, "CLASS_NAME"), variants[..i], replaceVariant)
    {
      assert variants[..i + 1][..i] == variants[..i];
      c := replaceVariant(c, variants[i]);
    }
    assert variants[..|variants|] == variants;
    c := CollapseWhitespace(c);
    r := if |c| <= MaxNormalizedLength then c else c[..MaxNormalizedLength];
  }

  /** The result is at most 50000 characters, the start of the collapsed text (all
      of it when it is short enough), with every whitespace a single space. */
  lemma NormalizedShape(content: string, stem: string, variants: seq<string>, replaceVariant: (string, string) -> string)
    ensures var r := Normalized(content, stem, variants, replaceVariant);
            var c := Collapsed(content, stem, variants, replaceVariant);
            |r| <= MaxNormalizedLength && r == c[..|r|] &&
            (|c| <= MaxNormalizedLength ==> r == c) &&
            (forall i :: 0 <= i < |r| && IsSpace(r[i]) ==> r[i] == ' ') &&
            (forall i :: 0 <= i < |r| - 1 ==> !(IsSpace(r[i]) && IsSpace(r[i + 1])))
  {
    var r := Normalized(content, stem, variants, replaceVariant);
    var c := Collapsed(content, stem, variants, replaceVariant);
    assert forall i :: 0 <= i < |r| ==> r[i] == c[i];
  }

  // A text that does not open with a doc comment keeps its start; one that does
  // loses exactly the comment up to the first closing after the opening.
  lemma DropLeadingDocCommentMeaning(content: string)
    ensures var r := DropLeadingDocComment(content);
            |r| <= |content| && r == content[|content| - |r|..]
    ensures !StartsWith(content, "/**") ==> DropLeadingDocComment(content) == content
    ensures StartsWith(content, "/**") && IndexFrom(content, "*/", 3) >= 0 ==>
              var e := IndexFrom(content, "*/", 3);
              OccursAt(content, "*/", e) && 3 <= e &&
              (forall k :: 3 <= k < e ==> !OccursAt(content, "*/", k)) &&
              DropLeadingDocComment(content) == content[e + 2..]
  {
  }

  // ---------------------------------------------------------------------
  // group_by_pattern
  // ---------------------------------------------------------------------

  /** The group of the first pattern `f` matches, in pattern order. */
  function FirstGroup(patterns: seq<(string, string)>, matches: (string, string) -> bool, f: string): Option<string>
    decreases |patterns|
  {
    if patterns == [] then None
    else if matches(patterns[0].0, f) then Some(patterns[0].1)
    else FirstGroup(patterns[1..], matches, f)
  }

  /** The files whose first matching pattern names group `g`, in input order. */
  function Members(files: seq<string>, patterns: seq<(string, string)>, matches: (string, string) -> bool, g: string): seq<string>
    decreases |files|
  {
    if files == [] then []
    else
      var init := Members(files[..|files| - 1], patterns, matches, g);
      if FirstGroup(patterns, matches, files[|files| - 1]) == Some(g) then init + [files[|files| - 1]] else init
  }

  /** The files no pattern matches, in input order. */
  function Unmatched(files: seq<string>, patterns: seq<(string, string)>, matches: (string, string) -> bool): seq<string>
    decreases |files|
  {
    if files == [] then []
    else
      var init := Unmatched(files[..|files| - 1], patterns, matches);
      if FirstGroup(patterns, matches, files[|files| - 1]).None? then init + [files[|files| - 1]] else init
  }

  /** The inner loop of `group_by_pattern`: the patterns in order until one matches. */
  method MatchFile(patterns: seq<(string, string)>, matches: (string, string) -> bool, f: string)
    returns (group: Option<string>)
    ensures group == FirstGroup(patterns, matches, f)
  {
    group := None;
    var i := 0;
    while i < |patterns|
      invariant 0 <= i <= |patterns|
      invariant FirstGroup(patterns, matches, f) == FirstGroup(patterns[i..], matches, f)
    {
      assert patterns[i..][1..] == patterns[i + 1..];
      if matches(patterns[i].0, f) {
        group := Some(patterns[i].1);
        break;
      }
      i := i + 1;
    }
  }

  /** `group_by_pattern`: the groups of at least two files, and the unmatched files. */
  method GroupByPattern(files: seq<string>, patterns: seq<(string, string)>, matches: (string, string) -> bool)
    returns (result: map<string, seq<string>>, ungrouped: seq<string>)
    ensures forall g :: g in result <==> |Members(files, patterns, matches, g)| > 1
    ensures forall g :: g in result ==> result[g] == Members(files, patterns, matches, g)
    ensures ungrouped == Unmatched(files, patterns, matches)
  {
    var groups: map<string, seq<string>> := map[];
    ungrouped := [];
    for i := 0 to |files|
      invariant forall g :: g in groups <==> Members(files[..i], patterns, matches, g) != []
      invariant forall g :: g in groups ==> groups[g] == Members(files[..i], patterns, matches, g)
      invariant ungrouped == Unmatched(files[..i], patterns, matches)
    {
      assert files[..i + 1][..i] == files[..i];
      var f := files[i];
      var group := MatchFile(patterns, matches, f);
      if group.Some? {
        var current := if group.value in groups then groups[group.value] else [];
        groups := groups[group.value := current + [f]];
      } else {
        ungrouped := ungrouped + [f];
      }
    }
    assert files[..|files|] == files;
    result := map g | g in groups && |groups[g]| > 1 :: groups[g];
  }

  /** The first matching pattern wins: `f` falls in group `g` exactly when some
      pattern of that group matches it and no earlier pattern does. */
  lemma {:induction false} FirstGroupMeaning(patterns: seq<(string, string)>, matches: (string, string) -> bool, f: string, g: string)
    ensures FirstGroup(patterns, matches, f) == Some(g) <==>
            exists i :: 0 <= i < |patterns| && patterns[i].1 == g && matches(patterns[i].0, f) &&
                        forall q :: 0 <= q < i ==> !matches(patterns[q].0, f)
    ensures FirstGroup(patterns, matches, f).None? <==> forall i :: 0 <= i < |patterns| ==> !matches(patterns[i].0, f)
    decreases |patterns|
  {
    if patterns != [] {
      var rest := patterns[1..];
      FirstGroupMeaning(rest, matches, f, g);
      assert forall i :: 0 <= i < |rest| ==> rest[i] == patterns[i + 1];
      if !matches(patterns[0].0, f) && FirstGroup(rest, matches, f) == Some(g) {
        var i :| 0 <= i < |rest| && rest[i].1 == g && matches(rest[i].0, f) &&
                 forall q :: 0 <= q < i ==> !matches(rest[q].0, f);
        assert forall q :: 0 <= q < i + 1 ==> !matches(patterns[q].0, f) by {
          forall q | 0 <= q < i + 1 ensures !matches(patterns[q].0, f) {
            if q > 0 {
              assert patterns[q] == rest[q - 1];
            }
          }
        }
      }
      if exists i :: 0 <= i < |patterns| && patterns[i].1 == g && matches(patterns[i].0, f) &&
                     forall q :: 0 <= q < i ==> !matches(patterns[q].0, f) {
        var i :| 0 <= i < |patterns| && patterns[i].1 == g && matches(patterns[i].0, f) &&
                 forall q :: 0 <= q < i ==> !matches(patterns[q].0, f);
        if i > 0 {
          assert rest[i - 1] == patterns[i];
          assert forall q :: 0 <= q < i - 1 ==> !matches(rest[q].0, f) by {
            forall q | 0 <= q < i - 1 ensures !matches(rest[q].0, f) {
              assert rest[q] == patterns[q + 1];
            }
          }
        }
      }
    }
  }

  /** A group lists exactly the files whose first matching pattern names it. */
  lemma {:induction false} MembersMeaning(files: seq<string>, patterns: seq<(string, string)>, matches: (string, string) -> bool, g: string)
    ensures forall f :: f in Members(files, patterns, matches, g) <==>
              f in files && FirstGroup(patterns, matches, f) == Some(g)
    decreases |files|
  {
    if files != [] {
      var n := |files| - 1;
      MembersMeaning(files[..n], patterns, matches, g);
      assert files == files[..n] + [files[n]];
    }
  }

  /** The unmatched list holds exactly the files no pattern matches. */
  lemma {:induction false} UnmatchedMeaning(files: seq<string>, patterns: seq<(string, string)>, matches: (string, string) -> bool)
    ensures forall f :: f in Unmatched(files, patterns, matches) <==>
              f in files && FirstGroup(patterns, matches, f).None?
    decreases |files|
  {
    if files != [] {
      var n := |files| - 1;
      UnmatchedMeaning(files[..n], patterns, matches);
      assert files == files[..n] + [files[n]];
    }
  }

  /** No file is counted twice: the members of one group and the unmatched files
      together are never more than the files. */
  lemma {:induction false} MembersCount(files: seq<string>, patterns: seq<(string, string)>, matches: (string, string) -> bool, g: string)
    ensures |Members(files, patterns, matches, g)| + |Unmatched(files, patterns, matches)| <= |files|
    decreases |files|
  {
    if files != [] {
      MembersCount(files[..|files| - 1], patterns, matches, g);
    }
  }

  // ---------------------------------------------------------------------
  // analyze_group
  // ---------------------------------------------------------------------

  /** The similarity figures of a group; `avgSimilarity` is the mean of the pair
      similarities, or 0 without pairs. */
  datatype GroupAnalysis = GroupAnalysis(
    name: string, files: seq<string>, lineCounts: map<string, nat>, avgSimilarity: real,
    totalLines: nat, similarities: seq<(string, string, real)>)

  /** The files of the group that were loaded without error, in order. */
  function Usable(files: seq<string>, fileData: map<string, FileData>): (fs: seq<string>)
    ensures forall i :: 0 <= i < |fs| ==> fs[i] in fileData && fileData[fs[i]].error.None?
    ensures |fs| <= |files|
    decreases |files|
  {
    if files == [] then []
    else
      var init := Usable(files[..|files| - 1], fileData);
      var f := files[|files| - 1];
      if f in fileData && fileData[f].error.None? then init + [f] else init
  }

  /** The measured pair of positions `i` and `j`. */
  function Measured(fs: seq<string>, fileData: map<string, FileData>, sim: (string, string) -> real, i: int, j: int): (string, string, real)
    requires 0 <= i < |fs| && 0 <= j < |fs|
    requires forall k :: 0 <= k < |fs| ==> fs[k] in fileData
  {
    (fs[i], fs[j], sim(fileData[fs[i]].normalized, fileData[fs[j]].normalized))
  }

  /** The pairs of `i` with each of the positions from `i + 1` up to `j`. */
  function RowUpTo(fs: seq<string>, fileData: map<string, FileData>, sim: (string, string) -> real, i: int, j: int): seq<(string, string, real)>
    requires 0 <= i < |fs| && i < j <= |fs|
    requires forall k :: 0 <= k < |fs| ==> fs[k] in fileData
    decreases j
  {
    if j == i + 1 then [] else RowUpTo(fs, fileData, sim, i, j - 1) + [Measured(fs, fileData, sim, i, j - 1)]
  }

  /** The pairs of the first `i` rows: every `i' < i` with every later position. */
  function Rows(fs: seq<string>, fileData: map<string, FileData>, sim: (string, string) -> real, i: int): seq<(string, string, real)>
    requires 0 <= i <= |fs|
    requires forall k :: 0 <= k < |fs| ==> fs[k] in fileData
    decreases i
  {
    if i == 0 then [] else Rows(fs, fileData, sim, i - 1) + RowUpTo(fs, fileData, sim, i - 1, |fs|)
  }

  /** The mean of the similarities, or 0 without any. */
  function Average(sims: seq<(string, string, real)>): real {
    if sims == [] then 0.0 else SumSimilarity(sims) / (|sims| as real)
  }

  function SumSimilarity(sims: seq<(string, string, real)>): real
    decreases |sims|
  {
    if sims == [] then 0.0 else SumSimilarity(sims[..|sims| - 1]) + sims[|sims| - 1].2
  }

  /** The line counts summed once per file name (a repeated name is one dictionary
      entry). */
  function DistinctLines(fs: seq<string>, fileData: map<string, FileData>): nat
    requires forall k :: 0 <= k < |fs| ==> fs[k] in fileData
    decreases |fs|
  {
    if fs == [] then 0
    else
      var f := fs[|fs| - 1];
      DistinctLines(fs[..|fs| - 1], fileData) + (if f in fs[..|fs| - 1] then 0 else fileData[f].lines)
  }

  function LineCounts(fs: seq<string>, fileData: map<string, FileData>): map<string, nat>
    requires forall k :: 0 <= k < |fs| ==> fs[k] in fileData
  {
    map f | f in fs :: fileData[f].lines
  }

  /** What `analyze_group` returns. */
  function Analysis(files: seq<string>, fileData: map<string, FileData>, sim: (string, string) -> real): GroupAnalysis {
    var fs := Usable(files, fileData);
    if |fs| < 2 then GroupAnalysis("", fs, map[], 0.0, 0, [])
    else
      var sims := Rows(fs, fileData, sim, |fs|);
      GroupAnalysis("", fs, LineCounts(fs, fileData), Average(sims), DistinctLines(fs, fileData), sims)
  }

  /** The nested loops of `analyze_group`. */
  method PairSimilarities(fs: seq<string>, fileData: map<string, FileData>, sim: (string, string) -> real)
    returns (similarities: seq<(string, string, real)>)
    requires forall k :: 0 <= k < |fs| ==> fs[k] in fileData
    ensures similarities == Rows(fs, fileData, sim, |fs|)
  {
    similarities := [];
    for i := 0 to |fs|
      invariant similarities == Rows(fs, fileData, sim, i)
    {
      for j := i + 1 to |fs|
        invariant similarities == Rows(fs, fileData, sim, i) + RowUpTo(fs, fileData, sim, i, j)
      {
        var f1, f2 := fs[i], fs[j];
        var s := sim(fileData[f1].normalized, fileData[f2].normalized);
        similarities := similarities + [(f1, f2, s)];
      }
    }
  }

  /** `analyze_group`. */
  method AnalyzeGroup(files: seq<string>, fileData: map<string, FileData>, sim: (string, string) -> real)
    returns (analysis: GroupAnalysis)
    ensures analysis == Analysis(files, fileData, sim)
  {
    var fileList := Usable(files, fileData);
    if |fileList| < 2 {
      return GroupAnalysis("", fileList, map[], 0.0, 0, []);
    }
    var similarities := PairSimilarities(fileList, fileData, sim);
    var avgSim := if similarities != [] then SumSimilarity(similarities) / (|similarities| as real) else 0.0;
    var lineCounts := LineCounts(fileList, fileData);
    analysis := GroupAnalysis("", fileList, lineCounts, avgSim, DistinctLines(fileList, fileData), similarities);
  }

  /** Only files present and loaded without error are analysed, all of them, in
      order; with fewer than two the analysis is empty. */
  lemma {:induction false} UsableMeaning(files: seq<string>, fileData: map<string, FileData>)
    ensures forall f :: f in Usable(files, fileData) <==> f in files && f in fileData && fileData[f].error.None?
    decreases |files|
  {
    if files != [] {
      var n := |files| - 1;
      UsableMeaning(files[..n], fileData);
      assert files == files[..n] + [files[n]];
    }
  }

  lemma AnalysisSmall(files: seq<string>, fileData: map<string, FileData>, sim: (string, string) -> real)
    requires |Usable(files, fileData)| < 2
    ensures var a := Analysis(files, fileData, sim);
            a.lineCounts == map[] && a.totalLines == 0 && a.similarities == [] && a.avgSimilarity == 0.0 &&
            a.files == Usable(files, fileData)
  {
  }

  /** With `n` usable files there are n(n-1)/2 measured pairs. */
  lemma AnalysisPairCount(files: seq<string>, fileData: map<string, FileData>, sim: (string, string) -> real)
    ensures var n := |Usable(files, fileData)|;
            2 * |Analysis(files, fileData, sim).similarities| == n * (n - 1)
  {
    var fs := Usable(files, fileData);
    var n := |fs|;
    if n >= 2 {
      assert Analysis(files, fileData, sim).similarities == Rows(fs, fileData, sim, n);
      RowsLength(fs, fileData, sim, n);
      assert n * (2 * n - n - 1) == n * (n - 1);
    }
  }

  lemma {:induction false} RowsLength(fs: seq<string>, fileData: map<string, FileData>, sim: (string, string) -> real, i: int)
    requires 0 <= i <= |fs|
    requires forall k :: 0 <= k < |fs| ==> fs[k] in fileData
    ensures 2 * |Rows(fs, fileData, sim, i)| == i * (2 * |fs| - i - 1)
    decreases i
  {
    if i > 0 {
      var n := |fs|;
      RowsLength(fs, fileData, sim, i - 1);
      RowLength(fs, fileData, sim, i - 1, n);
      assert |Rows(fs, fileData, sim, i)| == |Rows(fs, fileData, sim, i - 1)| + (n - i);
      assert (i - 1) * (2 * n - i) + 2 * (n - i) == i * (2 * n - i - 1) by {
        assert (i - 1) * (2 * n - i) == i * (2 * n - i) - (2 * n - i);
        assert i * (2 * n - i - 1) == i * (2 * n - i) - i;
      }
    }
  }

  lemma {:induction false} RowLength(fs: seq<string>, fileData: map<string, FileData>, sim: (string, string) -> real, i: int, j: int)
    requires 0 <= i < |fs| && i < j <= |fs|
    requires forall k :: 0 <= k < |fs| ==> fs[k] in fileData
    ensures |RowUpTo(fs, fileData, sim, i, j)| == j - i - 1
    decreases j
  {
    if j > i + 1 {
      RowLength(fs, fileData, sim, i, j - 1);
    }
  }

  /** The measured pairs are exactly those of positions `i < j`. */
  lemma {:induction false} RowsMeaning(fs: seq<string>, fileData: map<string, FileData>, sim: (string, string) -> real, i: int)
    requires 0 <= i <= |fs|
    requires forall k :: 0 <= k < |fs| ==> fs[k] in fileData
    ensures forall t :: t in Rows(fs, fileData, sim, i) <==>
              exists a, b :: 0 <= a < i && a < b < |fs| && t == Measured(fs, fileData, sim, a, b)
    decreases i
  {
    if i > 0 {
      RowsMeaning(fs, fileData, sim, i - 1);
      RowMeaning(fs, fileData, sim, i - 1, |fs|);
    }
  }

  lemma {:induction false} RowMeaning(fs: seq<string>, fileData: map<string, FileData>, sim: (string, string) -> real, i: int, j: int)
    requires 0 <= i < |fs| && i < j <= |fs|
    requires forall k :: 0 <= k < |fs| ==> fs[k] in fileData
    ensures forall t :: t in RowUpTo(fs, fileData, sim, i, j) <==>
              exists b :: i < b < j && t == Measured(fs, fileData, sim, i, b)
    decreases j
  {
    if j > i + 1 {
      RowMeaning(fs, fileData, sim, i, j - 1);
    }
  }

  /** The total counts each file once: with no repeated name it is the sum of the
      line counts. */
  lemma {:induction false} DistinctLinesAll(fs: seq<string>, fileData: map<string, FileData>)
    requires forall k :: 0 <= k < |fs| ==> fs[k] in fileData
    requires forall a, b :: 0 <= a < b < |fs| ==> fs[a] != fs[b]
    ensures DistinctLines(fs, fileData) == SumLines(fs, fileData)
    decreases |fs|
  {
    if fs != [] {
      var n := |fs| - 1;
      DistinctLinesAll(fs[..n], fileData);
      assert fs[n] !in fs[..n];
    }
  }

  function SumLines(fs: seq<string>, fileData: map<string, FileData>): nat
    requires forall k :: 0 <= k < |fs| ==> fs[k] in fileData
    decreases |fs|
  {
    if fs == [] then 0 else SumLines(fs[..|fs| - 1], fileData) + fileData[fs[|fs| - 1]].lines
  }

  // ---------------------------------------------------------------------
  // find_similar_pairs: the candidate pairs
  // ---------------------------------------------------------------------

  /** A comparison job: the two file names and their normalised texts. */
  type Job = (string, string, string, string)

  /** The loaded entries of the file table, in table order. */
  function Loaded(entries: seq<FileData>): (ls: seq<FileData>)
    ensures forall i :: 0 <= i < |ls| ==> ls[i].error.None?
    ensures multiset(ls) <= multiset(entries)
    decreases |entries|
  {
    if entries == [] then []
    else
      var init := Loaded(entries[..|entries| - 1]);
      var d := entries[|entries| - 1];
      assert entries == entries[..|entries| - 1] + [d];
      if d.error.None? then init + [d] else init
  }

  predicate SortedByLines(s: seq<FileData>) {
    forall a, b :: 0 <= a < b < |s| ==> s[a].lines <= s[b].lines
  }

  /** `d` placed before the first entry with at least as many lines. */
  function Insert(d: FileData, s: seq<FileData>): (r: seq<FileData>)
    requires SortedByLines(s)
    ensures SortedByLines(r) && multiset(r) == multiset(s) + multiset{d}
    ensures forall k :: 0 <= k < |r| ==> r[k] == d || r[k] in s
    decreases |s|
  {
    if s == [] then [d]
    else if d.lines <= s[0].lines then [d] + s
    else
      var rest := Insert(d, s[1..]);
      InsertHead(d, s, rest);
      [s[0]] + rest
  }

  lemma InsertHead(d: FileData, s: seq<FileData>, rest: seq<FileData>)
    requires SortedByLines(s) && s != [] && d.lines > s[0].lines
    requires SortedByLines(rest) && multiset(rest) == multiset(s[1..]) + multiset{d}
    requires forall k :: 0 <= k < |rest| ==> rest[k] == d || rest[k] in s[1..]
    ensures SortedByLines([s[0]] + rest) && multiset([s[0]] + rest) == multiset(s) + multiset{d}
    ensures forall k :: 0 <= k < |[s[0]] + rest| ==> ([s[0]] + rest)[k] == d || ([s[0]] + rest)[k] in s
  {
    assert s == [s[0]] + s[1..];
    var r := [s[0]] + rest;
    forall a, b | 0 <= a < b < |r| ensures r[a].lines <= r[b].lines {
      if a == 0 {
        if rest[b - 1] != d {
          var k :| 0 <= k < |s[1..]| && s[1..][k] == rest[b - 1];
          assert s[k + 1] == rest[b - 1];
        }
      }
    }
  }

  /** `sorted(files, key=lines)`: ordered by line count, same entries. */
  function SortByLines(s: seq<FileData>): (r: seq<FileData>)
    ensures SortedByLines(r) && multiset(r) == multiset(s)
    decreases |s|
  {
    if s == [] then []
    else
      assert s == [s[0]] + s[1..];
      Insert(s[0], SortByLines(s[1..]))
  }

  function JobOf(s: seq<FileData>, i: int, j: int): Job
    requires 0 <= i < |s| && 0 <= j < |s|
  {
    (s[i].filename, s[j].filename, s[i].normalized, s[j].normalized)
  }

  /** The jobs of `i` with `j` and the later positions, up to the first whose line
      count is more than twice that of `i`. */
  function RowFrom(s: seq<FileData>, i: int, j: int): seq<Job>
    requires 0 <= i < |s| && i < j <= |s|
    decreases |s| - j
  {
    if j == |s| || s[j].lines > 2 * s[i].lines then [] else [JobOf(s, i, j)] + RowFrom(s, i, j + 1)
  }

  /** The jobs of the first `i` rows. */
  function Jobs(s: seq<FileData>, i: int): seq<Job>
    requires 0 <= i <= |s|
    decreases i
  {
    if i == 0 then [] else Jobs(s, i - 1) + RowFrom(s, i - 1, i)
  }

  /** The candidate jobs of `find_similar_pairs`. */
  function CandidateJobs(entries: seq<FileData>): seq<Job> {
    var s := SortByLines(Loaded(entries));
    Jobs(s, |s|)
  }

  /** The pair-generating loops of `find_similar_pairs`. */
  method GenerateJobs(entries: seq<FileData>) returns (pairs: seq<Job>)
    ensures pairs == CandidateJobs(entries)
  {
    var sortedFiles := SortByLines(Loaded(entries));
    pairs := JobsOf(sortedFiles);
  }

  /** The two loops over the sorted entries. */
  method JobsOf(sortedFiles: seq<FileData>) returns (pairs: seq<Job>)
    ensures pairs == Jobs(sortedFiles, |sortedFiles|)
  {
    pairs := [];
    for i := 0 to |sortedFiles|
      invariant pairs == Jobs(sortedFiles, i)
    {
      var j := i + 1;
      while j < |sortedFiles|
        invariant i + 1 <= j <= |sortedFiles|
        invariant pairs + RowFrom(sortedFiles, i, j) == Jobs(sortedFiles, i + 1)
      {
        var lines1 := sortedFiles[i].lines;
        var lines2 := sortedFiles[j].lines;
        if lines2 > lines1 * 2 {
          break;
        }
        assert RowFrom(sortedFiles, i, j) == [JobOf(sortedFiles, i, j)] + RowFrom(sortedFiles, i, j + 1);
        pairs := pairs + [JobOf(sortedFiles, i, j)];
        j := j + 1;
      }
    }
  }

  /** Every job pairs an earlier position with a later one whose line count is at
      most twice as large. */
  lemma {:induction false} JobsSound(s: seq<FileData>, i: int)
    requires 0 <= i <= |s|
    ensures forall p :: p in Jobs(s, i) ==>
              exists a, b :: 0 <= a < i && a < b < |s| && s[b].lines <= 2 * s[a].lines && p == JobOf(s, a, b)
    decreases i
  {
    if i > 0 {
      JobsSound(s, i - 1);
      RowSound(s, i - 1, i);
    }
  }

  lemma {:induction false} RowSound(s: seq<FileData>, i: int, j: int)
    requires 0 <= i < |s| && i < j <= |s|
    ensures forall p :: p in RowFrom(s, i, j) ==>
              exists b :: j <= b < |s| && s[b].lines <= 2 * s[i].lines && p == JobOf(s, i, b)
    decreases |s| - j
  {
    if j < |s| && s[j].lines <= 2 * s[i].lines {
      RowSound(s, i, j + 1);
    }
  }

  /** On entries sorted by line count nothing is lost by stopping early: every pair
      `a < b` whose later count is at most twice the earlier one is a job. */
  lemma {:induction false} JobsComplete(s: seq<FileData>, i: int, a: int, b: int)
    requires SortedByLines(s) && 0 <= i <= |s|
    requires 0 <= a < i && a < b < |s| && s[b].lines <= 2 * s[a].lines
    ensures JobOf(s, a, b) in Jobs(s, i)
    decreases i
  {
    if a == i - 1 {
      RowComplete(s, a, a + 1, b);
    } else {
      JobsComplete(s, i - 1, a, b);
    }
  }

  lemma {:induction false} RowComplete(s: seq<FileData>, i: int, j: int, b: int)
    requires SortedByLines(s) && 0 <= i < |s| && i < j <= b < |s|
    requires s[b].lines <= 2 * s[i].lines
    ensures JobOf(s, i, b) in RowFrom(s, i, j)
    decreases b - j
  {
    assert s[j].lines <= s[b].lines;
    if j < b {
      RowComplete(s, i, j + 1, b);
    }
  }

  /** The candidate jobs: exactly the pairs of loaded files, earlier before later in
      line-count order, whose line counts are at most a factor two apart. */
  lemma CandidateJobsMeaning(entries: seq<FileData>)
    ensures var s := SortByLines(Loaded(entries));
            SortedByLines(s) && multiset(s) == multiset(Loaded(entries)) &&
            forall p :: p in CandidateJobs(entries) <==>
              exists a, b :: 0 <= a < b < |s| && s[b].lines <= 2 * s[a].lines && p == JobOf(s, a, b)
  {
    var s := SortByLines(Loaded(entries));
    JobsSound(s, |s|);
    forall p | exists a, b :: 0 <= a < b < |s| && s[b].lines <= 2 * s[a].lines && p == JobOf(s, a, b)
      ensures p in CandidateJobs(entries)
    {
      var a, b :| 0 <= a < b < |s| && s[b].lines <= 2 * s[a].lines && p == JobOf(s, a, b);
      JobsComplete(s, |s|, a, b);
    }
  }
}
