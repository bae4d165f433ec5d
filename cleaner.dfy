/** `clean_decompiled_code`: a single pass over the lines of a decompiled function
    that drops signature-echo comments, drops blank lines inside bodies, keeps at
    most one blank line in a row outside them, and finally removes trailing blank
    lines. */
module Cleaner {
  import opened Text

  /** A line whose stripped form is empty. */
  predicate IsBlank(line: string) {
    Strip(line) == []
  }

  /** The change in brace depth a line causes: its `{` count minus its `}` count. */
  function Braces(line: string): int {
    CountChar(Strip(line), '{') - CountChar(Strip(line), '}')
  }

  /** `stripped[2:-2].strip()`: the text between the comment markers (empty when
      the markers overlap or touch). */
  function Inner(st: string): string {
    Strip(if |st| >= 4 then st[2..|st| - 2] else [])
  }

  /** A `/* … */` line that echoes a signature or a bare name: its inner text holds
      `(`, or is a single token without spaces shorter than 100 characters. */
  predicate IsSignatureComment(line: string) {
    var st := Strip(line);
    StartsWith(st, "/*") && EndsWith(st, "*/") &&
    var inner := Inner(st);
    '(' in inner || (inner != [] && ' ' !in inner && |inner| < 100)
  }

  /** A line together with the three facts the loop asks of it. */
  datatype Line = Line(text: string, sigComment: bool, blank: bool, braces: int)

  /** A blank line holds no brace and is not a comment. */
  predicate Sane(l: Line) {
    l.blank ==> l.braces == 0 && !l.sigComment
  }

  /** The loop's view of one line of the input. */
  function Classify(text: string): (l: Line)
    ensures l.text == text && Sane(l)
    ensures l.blank <==> IsBlank(text)
    ensures l.sigComment <==> IsSignatureComment(text)
    ensures l.braces == Braces(text)
  {
    var l := Line(text, IsSignatureComment(text), IsBlank(text), Braces(text));
    assert l.blank ==> !StartsWith(Strip(text), "/*");
    l
  }

  /** The classification of every line, in order. */
  function ClassifyAll(lines: seq<string>): (ls: seq<Line>)
    ensures |ls| == |lines|
    ensures forall i :: 0 <= i < |lines| ==> ls[i] == Classify(lines[i])
  {
    seq(|lines|, i requires 0 <= i < |lines| => Classify(lines[i]))
  }

  function Texts(ls: seq<Line>): (ts: seq<string>)
    ensures |ts| == |ls|
    ensures forall i :: 0 <= i < |ls| ==> ts[i] == ls[i].text
  {
    if ls == [] then [] else [ls[0].text] + Texts(ls[1..])
  }

  /** The loop state: the lines kept so far, the running brace depth and whether
      the last kept line was blank. */
  datatype Scan = Scan(kept: seq<Line>, depth: int, prevBlank: bool)

  /** One iteration of the loop. A signature comment is skipped before the depth
      is updated; a blank line is skipped inside a body or after a kept blank. */
  function Step(st: Scan, l: Line): Scan {
    if l.sigComment then st
    else
      var depth := st.depth + l.braces;
      if l.blank && (depth > 0 || st.prevBlank) then st.(depth := depth)
      else Scan(st.kept + [l], depth, l.blank)
  }

  /** The state after the loop has seen `ls`. */
  function ScanLines(ls: seq<Line>): Scan
    decreases |ls|
  {
    if ls == [] then Scan([], 0, false)
    else Step(ScanLines(ls[..|ls| - 1]), ls[|ls| - 1])
  }

  /** The final `while … pop()`: blank lines are removed from the end. */
  function DropTrailingBlanks(ls: seq<Line>): (r: seq<Line>)
    ensures |r| <= |ls| && r == ls[..|r|]
    ensures r == [] || !r[|r| - 1].blank
    ensures forall i :: |r| <= i < |ls| ==> ls[i].blank
  {
    if ls != [] && ls[|ls| - 1].blank then DropTrailingBlanks(ls[..|ls| - 1]) else ls
  }

  /** The lines of the cleaned code. */
  function CleanLines(ls: seq<Line>): seq<Line> {
    DropTrailingBlanks(ScanLines(ls).kept)
  }

  /** `clean_decompiled_code` on a string: the empty code is returned as it is. */
  function CleanCode(code: string): string {
    if code == [] then code else Join(Texts(CleanLines(ClassifyAll(Split(code, "\n")))), "\n")
  }

  /** `clean_decompiled_code`: the code is cut into lines, each line is classified
      by the tests the loop makes of its stripped form, the loop and the trailing
      pops run over them and the kept lines are joined back. */
  method CleanDecompiledCode(code: string) returns (r: string)
    ensures r == CleanCode(code)
  {
    if code == [] {
      return code;
    }
    var ls := ClassifyAll(Split(code, "\n"));
    var kept := CleanLinesLoop(ls);
    r := Join(Texts(kept), "\n");
  }

  /** The loop of `clean_decompiled_code` over classified lines, then the pops of
      trailing blank lines. */
  method CleanLinesLoop(ls: seq<Line>) returns (kept: seq<Line>)
    ensures kept == CleanLines(ls)
  {
    kept := [];
    var prevBlank := false;
    var depth := 0;
    for i := 0 to |ls|
      invariant Scan(kept, depth, prevBlank) == ScanLines(ls[..i])
    {
      var line := ls[i];
      assert ls[..i + 1][..i] == ls[..i];
      if line.sigComment {
        continue;
      }
      depth := depth + line.braces;
      if line.blank {
        if depth > 0 {
          continue;
        }
        if prevBlank {
          continue;
        }
        prevBlank := true;
      } else {
        prevBlank := false;
      }
      kept := kept + [line];
    }
    assert ls[..|ls|] == ls;
    while kept != [] && kept[|kept| - 1].blank
      invariant DropTrailingBlanks(kept) == CleanLines(ls)
      decreases |kept|
    {
      kept := kept[..|kept| - 1];
    }
  }

  // ---------------------------------------------------------------------
  // Specification of the output
  // ---------------------------------------------------------------------

  /** The brace depth after a sequence of lines. */
  function Depth(ls: seq<Line>): int
    decreases |ls|
  {
    if ls == [] then 0 else Depth(ls[..|ls| - 1]) + ls[|ls| - 1].braces
  }

  /** The non-blank lines, in order. */
  function NonBlank(ls: seq<Line>): seq<Line>
    decreases |ls|
  {
    if ls == [] then []
    else NonBlank(ls[..|ls| - 1]) + (if ls[|ls| - 1].blank then [] else [ls[|ls| - 1]])
  }

  /** The lines the cleaner must keep: non-blank lines that are not signature
      comments, in order. */
  function Content(ls: seq<Line>): seq<Line>
    decreases |ls|
  {
    if ls == [] then []
    else
      var l := ls[|ls| - 1];
      Content(ls[..|ls| - 1]) + (if l.blank || l.sigComment then [] else [l])
  }

  predicate AllSane(ls: seq<Line>) {
    forall i :: 0 <= i < |ls| ==> Sane(ls[i])
  }

  predicate NoAdjacentBlanks(ls: seq<Line>) {
    forall i :: 0 < i < |ls| && ls[i].blank ==> !ls[i - 1].blank
  }

  /** Every blank line stands where the depth of the lines before it is not positive. */
  predicate BlanksOutsideBodies(ls: seq<Line>) {
    forall i :: 0 <= i < |ls| && ls[i].blank ==> Depth(ls[..i]) <= 0
  }

  predicate NoSignatureComments(ls: seq<Line>) {
    forall i :: 0 <= i < |ls| ==> !ls[i].sigComment
  }

  predicate FromInput(r: seq<Line>, ls: seq<Line>) {
    forall i :: 0 <= i < |r| ==> r[i] in ls
  }

  /** `r` is `ls` with some lines left out: the lines of `r` stand in `ls` in the
      same order, each at its own position. */
  predicate Subsequence(r: seq<Line>, ls: seq<Line>)
    decreases |ls|
  {
    if r == [] then true
    else if ls == [] then false
    else (r[|r| - 1] == ls[|ls| - 1] && Subsequence(r[..|r| - 1], ls[..|ls| - 1])) ||
         Subsequence(r, ls[..|ls| - 1])
  }

  /** One more input line: a subsequence stays one, and may take that line too. */
  lemma SubsequenceSnoc(r: seq<Line>, ls: seq<Line>, l: Line)
    requires Subsequence(r, ls)
    ensures Subsequence(r, ls + [l]) && Subsequence(r + [l], ls + [l])
  {
    assert (ls + [l])[..|ls|] == ls;
    assert (r + [l])[..|r|] == r;
  }

  /** A prefix of a subsequence is a subsequence. */
  lemma {:induction false} SubsequencePrefix(r: seq<Line>, ls: seq<Line>, n: nat)
    requires n <= |r| && Subsequence(r, ls)
    ensures Subsequence(r[..n], ls)
    decreases |ls|
  {
    if n == |r| {
      assert r[..n] == r;
    } else if n > 0 {
      var init := ls[..|ls| - 1];
      if r[|r| - 1] == ls[|ls| - 1] && Subsequence(r[..|r| - 1], init) {
        SubsequencePrefix(r[..|r| - 1], init, n);
        assert r[..|r| - 1][..n] == r[..n];
      } else {
        SubsequencePrefix(r, init, n);
      }
    }
  }

  /** The loop keeps input lines in their input order. */
  lemma {:induction false} ScanSubsequence(ls: seq<Line>)
    ensures Subsequence(ScanLines(ls).kept, ls)
    decreases |ls|
  {
    if ls != [] {
      var init := ls[..|ls| - 1];
      var l := ls[|ls| - 1];
      ScanSubsequence(init);
      SubsequenceSnoc(ScanLines(init).kept, init, l);
      assert init + [l] == ls;
    }
  }

  /** The loop state: the depth is that of the kept lines and `prev_blank` says
      whether the last kept line is blank. */
  lemma {:induction false} ScanState(ls: seq<Line>)
    requires AllSane(ls)
    ensures ScanLines(ls).depth == Depth(ScanLines(ls).kept)
    ensures ScanLines(ls).prevBlank <==>
            ScanLines(ls).kept != [] && ScanLines(ls).kept[|ScanLines(ls).kept| - 1].blank
    decreases |ls|
  {
    if ls != [] {
      var init := ls[..|ls| - 1];
      var l := ls[|ls| - 1];
      assert Sane(l);
      ScanState(init);
      var s := ScanLines(init);
      if !l.sigComment {
        var k := s.kept + [l];
        assert k[..|k| - 1] == s.kept;
      }
    }
  }

  /** The blank-line rules, no signature comment, and every line from the input. */
  predicate KeptShape(kept: seq<Line>, ls: seq<Line>) {
    NoAdjacentBlanks(kept) && BlanksOutsideBodies(kept) &&
    NoSignatureComments(kept) && FromInput(kept, ls)
  }

  /** The kept lines obey the blank-line rules and hold no signature comment. */
  lemma {:induction false} ScanShape(ls: seq<Line>)
    requires AllSane(ls)
    ensures KeptShape(ScanLines(ls).kept, ls)
    decreases |ls|
  {
    if ls != [] {
      var init := ls[..|ls| - 1];
      var l := ls[|ls| - 1];
      assert Sane(l);
      ScanShape(init);
      ScanState(init);
      var s := ScanLines(init);
      KeptShapeGrow(s.kept, init, ls);
      if !l.sigComment && !(l.blank && (s.depth + l.braces > 0 || s.prevBlank)) {
        KeptShapeAppend(s.kept, l, ls);
      }
    }
  }

  /** The shape holds against a longer input. */
  lemma KeptShapeGrow(kept: seq<Line>, init: seq<Line>, ls: seq<Line>)
    requires ls != [] && init == ls[..|ls| - 1] && KeptShape(kept, init)
    ensures KeptShape(kept, ls)
  {
    forall i | 0 <= i < |kept| ensures kept[i] in ls {
      var j :| 0 <= j < |init| && init[j] == kept[i];
      assert ls[j] == init[j];
    }
  }

  /** Keeping one more input line that is no signature comment, and blank only
      outside bodies and after a non-blank line, keeps the shape. */
  lemma KeptShapeAppend(kept: seq<Line>, l: Line, ls: seq<Line>)
    requires KeptShape(kept, ls) && l in ls && !l.sigComment
    requires l.blank ==> Depth(kept) <= 0 && (kept == [] || !kept[|kept| - 1].blank)
    ensures KeptShape(kept + [l], ls)
  {
    NoAdjacentAppend(kept, l);
    BodiesAppend(kept, l);
    var k := kept + [l];
    assert forall i :: 0 <= i < |kept| ==> k[i] == kept[i];
  }

  lemma NoAdjacentAppend(kept: seq<Line>, l: Line)
    requires NoAdjacentBlanks(kept)
    requires l.blank ==> kept == [] || !kept[|kept| - 1].blank
    ensures NoAdjacentBlanks(kept + [l])
  {
    var k := kept + [l];
    forall i | 0 < i < |k| && k[i].blank ensures !k[i - 1].blank {
      if i < |kept| {
        assert k[i] == kept[i] && k[i - 1] == kept[i - 1];
      }
    }
  }

  lemma BodiesAppend(kept: seq<Line>, l: Line)
    requires BlanksOutsideBodies(kept)
    requires l.blank ==> Depth(kept) <= 0
    ensures BlanksOutsideBodies(kept + [l])
  {
    var k := kept + [l];
    forall i | 0 <= i < |k| && k[i].blank ensures Depth(k[..i]) <= 0 {
      if i < |kept| {
        assert k[i] == kept[i] && k[..i] == kept[..i];
      } else {
        assert k[..i] == kept;
      }
    }
  }

  /** The non-blank kept lines are exactly the content lines of the input. */
  lemma {:induction false} ScanContent(ls: seq<Line>)
    requires AllSane(ls)
    ensures NonBlank(ScanLines(ls).kept) == Content(ls)
    decreases |ls|
  {
    if ls != [] {
      var init := ls[..|ls| - 1];
      var l := ls[|ls| - 1];
      assert Sane(l);
      ScanContent(init);
      var s := ScanLines(init);
      if !l.sigComment && !(l.blank && (s.depth + l.braces > 0 || s.prevBlank)) {
        var k := s.kept + [l];
        assert k[..|k| - 1] == s.kept;
      }
    }
  }

  /** Removing trailing blank lines leaves the non-blank lines alone. */
  lemma {:induction false} NonBlankDropTrailing(ls: seq<Line>)
    ensures NonBlank(DropTrailingBlanks(ls)) == NonBlank(ls)
    decreases |ls|
  {
    if ls != [] && ls[|ls| - 1].blank {
      NonBlankDropTrailing(ls[..|ls| - 1]);
    }
  }

  /** What `clean_decompiled_code` promises about its lines: the content lines of
      the input survive unchanged and in order, and only blank lines are added
      between them; no signature comment, no blank line inside a body, no two
      blank lines in a row and no trailing blank line remain. */
  lemma CleanLinesSpec(ls: seq<Line>)
    requires AllSane(ls)
    ensures NonBlank(CleanLines(ls)) == Content(ls)
    ensures NoSignatureComments(CleanLines(ls))
    ensures NoAdjacentBlanks(CleanLines(ls))
    ensures BlanksOutsideBodies(CleanLines(ls))
    ensures CleanLines(ls) == [] || !CleanLines(ls)[|CleanLines(ls)| - 1].blank
    ensures FromInput(CleanLines(ls), ls) && Subsequence(CleanLines(ls), ls)
  {
    var kept := ScanLines(ls).kept;
    ScanShape(ls);
    ScanContent(ls);
    NonBlankDropTrailing(kept);
    PrefixShape(kept, CleanLines(ls), ls);
    ScanSubsequence(ls);
    SubsequencePrefix(kept, ls, |CleanLines(ls)|);
  }

  /** The other direction: a run of blank lines outside bodies between two content
      lines is not dropped but kept as one blank line. When content line `i` leaves
      the depth at most 0, and every line up to content line `j` is blank or a
      signature comment with at least one blank among them, the cleaned lines hold
      a blank line right after the content lines up to `i`. */
  lemma CleanKeepsSeparatingBlank(ls: seq<Line>, i: int, j: int)
    requires AllSane(ls) && 0 <= i < j < |ls|
    requires IsContent(ls[i]) && IsContent(ls[j])
    requires forall p :: i < p < j ==> ls[p].blank || ls[p].sigComment
    requires exists p :: i < p < j && ls[p].blank
    requires Depth(Content(ls[..i + 1])) <= 0
    ensures var r := CleanLines(ls);
            exists k :: 0 <= k < |r| && r[k].blank && NonBlank(r[..k]) == Content(ls[..i + 1])
  {
    var k0 := ScanLines(ls[..i + 1]).kept;
    ScanDepth(ls[..i + 1]);
    var x := KeptAcrossGap(ls, i, j);
    ScanGrows(ls, j + 1, |ls|);
    assert ls[..|ls|] == ls;
    BlankSurvives(ScanLines(ls).kept, k0, x, ls[j]);
    ScanContent(ls[..i + 1]);
    var r := CleanLines(ls);
    assert r[|k0|].blank && NonBlank(r[..|k0|]) == Content(ls[..i + 1]);
  }

  /** After content line `j` the loop has kept the lines kept up to content line
      `i`, one blank line, and line `j`. */
  lemma KeptAcrossGap(ls: seq<Line>, i: int, j: int) returns (x: Line)
    requires AllSane(ls) && 0 <= i < j < |ls|
    requires IsContent(ls[i]) && IsContent(ls[j])
    requires forall p :: i < p < j ==> ls[p].blank || ls[p].sigComment
    requires exists p :: i < p < j && ls[p].blank
    requires ScanLines(ls[..i + 1]).depth <= 0
    ensures x.blank && ScanLines(ls[..j + 1]).kept == ScanLines(ls[..i + 1]).kept + [x, ls[j]]
  {
    Gap(ls, i, j);
    x :| x.blank && ScanLines(ls[..j]).kept == ScanLines(ls[..i + 1]).kept + [x];
    ContentKept(ls, j);
  }

  /** A blank line kept before a later non-blank one outlives the trailing pops. */
  lemma BlankSurvives(kept: seq<Line>, k0: seq<Line>, x: Line, l: Line)
    requires x.blank && !l.blank
    requires |k0| + 2 <= |kept| && kept[..|k0| + 2] == k0 + [x, l]
    ensures var r := DropTrailingBlanks(kept);
            |k0| < |r| && r[|k0|] == x && r[..|k0|] == k0
  {
    assert kept[|k0| + 1] == l;
    DropTrailingKeeps(kept, |k0| + 1);
    var r := DropTrailingBlanks(kept);
    assert r[..|k0|] == kept[..|k0| + 2][..|k0|];
  }

  predicate IsContent(l: Line) {
    !l.blank && !l.sigComment
  }

  /** The loop's depth is that of the content lines seen so far. */
  lemma {:induction false} ScanDepth(ls: seq<Line>)
    requires AllSane(ls)
    ensures ScanLines(ls).depth == Depth(Content(ls))
    decreases |ls|
  {
    if ls != [] {
      var init := ls[..|ls| - 1];
      var l := ls[|ls| - 1];
      assert Sane(l);
      ScanDepth(init);
      var c := Content(init);
      assert Content(ls) == c + (if l.blank || l.sigComment then [] else [l]);
      if IsContent(l) {
        assert (c + [l])[..|c + [l]| - 1] == c;
        assert Depth(c + [l]) == Depth(c) + l.braces;
      } else {
        assert Content(ls) == c;
      }
    }
  }

  /** A content line is always kept, after the lines kept before it, and clears
      `prev_blank`. */
  lemma ContentKept(ls: seq<Line>, i: int)
    requires 0 <= i < |ls| && IsContent(ls[i])
    ensures ScanLines(ls[..i + 1]).kept == ScanLines(ls[..i]).kept + [ls[i]]
    ensures !ScanLines(ls[..i + 1]).prevBlank
    ensures ScanLines(ls[..i + 1]).depth == ScanLines(ls[..i]).depth + ls[i].braces
  {
    assert ls[..i + 1][..i] == ls[..i];
  }

  /** Between content line `i` and the end of a run of blank lines and signature
      comments outside bodies, the depth stays put and the loop has kept exactly
      one blank line once it met one. */
  lemma {:induction false} Gap(ls: seq<Line>, i: int, m: int)
    requires AllSane(ls) && 0 <= i < m <= |ls|
    requires IsContent(ls[i]) && ScanLines(ls[..i + 1]).depth <= 0
    requires forall p :: i < p < m ==> ls[p].blank || ls[p].sigComment
    ensures var s, s0 := ScanLines(ls[..m]), ScanLines(ls[..i + 1]);
            s.depth == s0.depth &&
            (s.prevBlank <==> exists p :: i < p < m && ls[p].blank) &&
            (!s.prevBlank ==> s.kept == s0.kept) &&
            (s.prevBlank ==> exists x: Line :: x.blank && s.kept == s0.kept + [x])
    decreases m
  {
    ContentKept(ls, i);
    if m > i + 1 {
      Gap(ls, i, m - 1);
      assert ls[..m][..m - 1] == ls[..m - 1];
      var l := ls[m - 1];
      assert Sane(l);
      var s := ScanLines(ls[..m - 1]);
      if l.blank && !s.prevBlank {
        assert ScanLines(ls[..m]).kept == s.kept + [l];
      }
    }
  }

  /** The lines kept after a prefix begin the lines kept after a longer one. */
  lemma {:induction false} ScanGrows(ls: seq<Line>, m: int, n: int)
    requires 0 <= m <= n <= |ls|
    ensures var a, b := ScanLines(ls[..m]).kept, ScanLines(ls[..n]).kept;
            |a| <= |b| && b[..|a|] == a
    decreases n
  {
    if m < n {
      ScanGrows(ls, m, n - 1);
      assert ls[..n][..n - 1] == ls[..n - 1];
    }
  }

  /** The pops stop at a non-blank line: every line up to it stays. */
  lemma {:induction false} DropTrailingKeeps(ls: seq<Line>, p: int)
    requires 0 <= p < |ls| && !ls[p].blank
    ensures |DropTrailingBlanks(ls)| > p
    decreases |ls|
  {
    if ls[|ls| - 1].blank {
      DropTrailingKeeps(ls[..|ls| - 1], p);
    }
  }

  /** The blank-line rules, the absence of signature comments and the origin of
      the lines all hold of a prefix when they hold of the whole. */
  lemma PrefixShape(kept: seq<Line>, r: seq<Line>, ls: seq<Line>)
    requires |r| <= |kept| && r == kept[..|r|]
    requires NoAdjacentBlanks(kept) && BlanksOutsideBodies(kept)
    requires NoSignatureComments(kept) && FromInput(kept, ls)
    ensures NoAdjacentBlanks(r) && BlanksOutsideBodies(r)
    ensures NoSignatureComments(r) && FromInput(r, ls)
  {
    forall i | 0 <= i < |r| ensures r[i] == kept[i] && r[..i] == kept[..i] {
    }
  }

  /** The cleaned code splits back into the cleaned lines. */
  lemma CleanCodeLines(code: string)
    requires code != []
    ensures var r := CleanLines(ClassifyAll(Split(code, "\n")));
            r != [] ==> Split(CleanCode(code), "\n") == Texts(r)
  {
    var lines := Split(code, "\n");
    var r := CleanLines(ClassifyAll(lines));
    SplitPiecesLackSep(code, '\n');
    if r != [] {
      KeptTextsLackNewline(lines);
      SplitJoin(Texts(r), "\n");
    }
  }

  /** Kept lines are input lines, so none of them holds a line break. */
  lemma KeptTextsLackNewline(lines: seq<string>)
    requires forall p :: p in lines ==> '\n' !in p
    ensures PiecesFree(Texts(CleanLines(ClassifyAll(lines))), '\n')
  {
    var ls := ClassifyAll(lines);
    CleanLinesFromInput(ls);
    forall j | 0 <= j < |ls| ensures '\n' !in ls[j].text {
      assert ls[j].text == lines[j] && lines[j] in lines;
    }
    TextsFromInput(CleanLines(ls), ls, '\n');
  }

  /** Every cleaned line is an input line, and the cleaned lines keep the input's
      order: the output is the input with some lines left out. */
  lemma CleanLinesFromInput(ls: seq<Line>)
    requires AllSane(ls)
    ensures FromInput(CleanLines(ls), ls)
    ensures Subsequence(CleanLines(ls), ls)
  {
    CleanLinesSpec(ls);
  }

  /** Lines taken from an input whose texts lack `c` have texts that lack `c`. */
  lemma TextsFromInput(r: seq<Line>, ls: seq<Line>, c: char)
    requires FromInput(r, ls)
    requires forall j :: 0 <= j < |ls| ==> c !in ls[j].text
    ensures PiecesFree(Texts(r), c)
  {
    forall i | 0 <= i < |r| ensures c !in Texts(r)[i] {
      var j :| 0 <= j < |ls| && ls[j] == r[i];
    }
  }

  /** A code without signature comments, whose blank lines are single and outside
      bodies. */
  predicate CleanInput(ls: seq<Line>) {
    AllSane(ls) && NoSignatureComments(ls) && NoAdjacentBlanks(ls) && BlanksOutsideBodies(ls)
  }

  /** Such a code is kept line for line by the loop. */
  lemma {:induction false} ScanClean(ls: seq<Line>)
    requires CleanInput(ls)
    ensures ScanLines(ls).kept == ls
    decreases |ls|
  {
    if ls != [] {
      var init := ls[..|ls| - 1];
      CleanInputInit(ls);
      ScanClean(init);
      ScanState(init);
      assert init + [ls[|ls| - 1]] == ls;
    }
  }

  /** Dropping the last line keeps the input clean; the last line is kept by the
      loop's tests. */
  lemma CleanInputInit(ls: seq<Line>)
    requires ls != [] && CleanInput(ls)
    ensures var init, l := ls[..|ls| - 1], ls[|ls| - 1];
            CleanInput(init) && Sane(l) && !l.sigComment &&
            (l.blank ==> Depth(init) <= 0 && (init == [] || !init[|init| - 1].blank))
  {
    var init := ls[..|ls| - 1];
    forall i | 0 <= i < |init| ensures init[i] == ls[i] && init[..i] == ls[..i] {
    }
  }

  /** Cleaning is idempotent on lines: cleaned lines are a fixed point. */
  lemma CleanLinesIdempotent(ls: seq<Line>)
    requires AllSane(ls)
    ensures CleanLines(CleanLines(ls)) == CleanLines(ls)
  {
    CleanedIsClean(ls);
    ScanClean(CleanLines(ls));
  }

  /** Cleaned lines are a clean input. */
  lemma CleanedIsClean(ls: seq<Line>)
    requires AllSane(ls)
    ensures CleanInput(CleanLines(ls))
  {
    var r := CleanLines(ls);
    CleanLinesSpec(ls);
    forall i | 0 <= i < |r| ensures Sane(r[i]) {
      var j :| 0 <= j < |ls| && ls[j] == r[i];
    }
  }
}
