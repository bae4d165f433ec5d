/** Name helpers of the shared post-processing library: file-name sanitising,
    class and namespace extraction from qualified names, and the class scope of a
    method signature. */
module Names {
  import opened Text

  // ---------------------------------------------------------------------
  // sanitize_filename (100-character variant)
  // ---------------------------------------------------------------------

  /** The characters `<>:"/\|?*`, which the sanitisers replace by `_`. */
  const IllegalChars: set<char> := {'<', '>', ':', '"', '/', '\\', '|', '?', '*'}

  predicate IsUnderscore(c: char) { c == '_' }

  /** The characters a sanitised name is made of: `\w` and `-`. */
  predicate IsNameChar(c: char) { IsWordChar(c) || c == '-' }

  /** `re.sub(r'[<>:"/\\|?*]', "_", s)`. */
  function ReplaceIllegal(s: string): (r: string)
    ensures |r| == |s|
    ensures forall i :: 0 <= i < |s| ==> r[i] == if s[i] in IllegalChars then '_' else s[i]
    ensures forall i :: 0 <= i < |r| ==> r[i] !in IllegalChars
  {
    if s == [] then [] else [if s[0] in IllegalChars then '_' else s[0]] + ReplaceIllegal(s[1..])
  }

  /** `re.sub(r"[^\w\-]", "_", s)`. */
  function ReplaceNonName(s: string): (r: string)
    ensures |r| == |s|
    ensures forall i :: 0 <= i < |s| ==> r[i] == if IsNameChar(s[i]) then s[i] else '_'
  {
    if s == [] then [] else [if IsNameChar(s[0]) then s[0] else '_'] + ReplaceNonName(s[1..])
  }

  /** `s[:n]` applied only when the text is longer than `n`. */
  function Truncate(s: string, n: nat): (r: string)
    ensures |r| <= n && |r| <= |s|
    ensures r == s[..|r|]
    ensures |s| <= n ==> r == s
  {
    if |s| > n then s[..n] else s
  }

  /** A name made only of `\w` and `-`, without a doubled `_` and without a leading `_`. */
  predicate IsCleanName(r: string) {
    (forall i :: 0 <= i < |r| ==> IsNameChar(r[i])) &&
    (forall i :: 0 <= i < |r| - 1 ==> !(r[i] == '_' && r[i + 1] == '_')) &&
    (r == [] || r[0] != '_')
  }

  /** `sanitize_filename` of the shared library: illegal characters and whitespace
      runs become `_`, every other non-name character becomes `_`, runs of `_`
      collapse, `_` is stripped from both ends and the result is cut to 100. */
  function SanitizeFilename(name: string): (r: string)
    ensures |r| <= 100
    ensures IsCleanName(r)
  {
    var c := ReplaceNonName(SubRuns(ReplaceIllegal(name), IsSpace, '_'));
    var d := SubRuns(c, IsUnderscore, '_');
    CollapsedUnderscores(c);
    var e := StripChar(d, '_');
    StrippedClean(d);
    TruncatedClean(e, 100);
    Truncate(e, 100)
  }

  /** Collapsing `_` runs in a text of name characters leaves name characters and no
      doubled `_`. */
  lemma CollapsedUnderscores(c: string)
    requires forall i :: 0 <= i < |c| ==> IsNameChar(c[i])
    ensures var d := SubRuns(c, IsUnderscore, '_');
            (forall i :: 0 <= i < |d| ==> IsNameChar(d[i])) &&
            (forall i :: 0 <= i < |d| - 1 ==> !(d[i] == '_' && d[i + 1] == '_'))
  {
    var d := SubRuns(c, IsUnderscore, '_');
    forall i | 0 <= i < |d| ensures IsNameChar(d[i]) {
      if d[i] != '_' {
        assert d[i] in c;
      }
    }
  }

  /** Stripping `_` from such a text leaves a clean name. */
  lemma StrippedClean(d: string)
    requires forall i :: 0 <= i < |d| ==> IsNameChar(d[i])
    requires forall i :: 0 <= i < |d| - 1 ==> !(d[i] == '_' && d[i + 1] == '_')
    ensures IsCleanName(StripChar(d, '_'))
  {
    var e := StripChar(d, '_');
    SliceClean(d, |d| - |LStripChar(d, '_')|, e);
  }

  /** A slice of a text of name characters without `__` keeps both properties. */
  lemma SliceClean(d: string, k: nat, e: string)
    requires k + |e| <= |d| && e == d[k..][..|e|]
    requires forall i :: 0 <= i < |d| ==> IsNameChar(d[i])
    requires forall i :: 0 <= i < |d| - 1 ==> !(d[i] == '_' && d[i + 1] == '_')
    ensures forall i :: 0 <= i < |e| ==> IsNameChar(e[i])
    ensures forall i :: 0 <= i < |e| - 1 ==> !(e[i] == '_' && e[i + 1] == '_')
  {
    assert forall i :: 0 <= i < |e| ==> e[i] == d[k + i];
  }

  /** Cutting a clean name keeps it clean. */
  lemma TruncatedClean(e: string, n: nat)
    requires IsCleanName(e)
    ensures IsCleanName(Truncate(e, n))
  {
    var r := Truncate(e, n);
    assert forall i :: 0 <= i < |r| ==> r[i] == e[i];
  }

  /** Names already clean, not ending in `_` and at most 100 long (`hello`,
      `test_file`) come back unchanged. */
  lemma SanitizeFilenameFixed(s: string)
    requires IsCleanName(s) && |s| <= 100 && (s == [] || s[|s| - 1] != '_')
    ensures SanitizeFilename(s) == s
  {
    CleanNameSteps(s);
  }

  /** Each step of the sanitiser leaves such a name alone. */
  lemma CleanNameSteps(s: string)
    requires IsCleanName(s) && (s == [] || s[|s| - 1] != '_')
    ensures ReplaceIllegal(s) == s && SubRuns(s, IsSpace, '_') == s
    ensures ReplaceNonName(s) == s && SubRuns(s, IsUnderscore, '_') == s
    ensures StripChar(s, '_') == s
  {
    CleanNamePlain(s);
    ReplaceIllegalFixed(s);
    SubRunsIdentity(s, IsSpace, '_');
    ReplaceNonNameFixed(s);
    SubRunsIdentity(s, IsUnderscore, '_');
  }

  /** A clean name has no illegal character and no whitespace. */
  lemma CleanNamePlain(s: string)
    requires forall i :: 0 <= i < |s| ==> IsNameChar(s[i])
    ensures forall i :: 0 <= i < |s| ==> s[i] !in IllegalChars && !IsSpace(s[i])
  {
    forall i | 0 <= i < |s| ensures s[i] !in IllegalChars && !IsSpace(s[i]) {
      NameCharPlain(s[i]);
    }
  }

  lemma NameCharPlain(c: char)
    requires IsNameChar(c)
    ensures c !in IllegalChars && !IsSpace(c)
  {
  }

  lemma ReplaceIllegalFixed(s: string)
    requires forall i :: 0 <= i < |s| ==> s[i] !in IllegalChars
    ensures ReplaceIllegal(s) == s
  {
  }

  lemma ReplaceNonNameFixed(s: string)
    requires forall i :: 0 <= i < |s| ==> IsNameChar(s[i])
    ensures ReplaceNonName(s) == s
  {
  }

  /** Sanitising a sanitised name changes it only by dropping a trailing `_` that
      the cut to 100 characters left behind. */
  lemma SanitizeFilenameIdempotent(s: string)
    requires var r := SanitizeFilename(s); r == [] || r[|r| - 1] != '_'
    ensures SanitizeFilename(SanitizeFilename(s)) == SanitizeFilename(s)
  {
    SanitizeFilenameFixed(SanitizeFilename(s));
  }

  /** Where the requirement of `SanitizeFilenameIdempotent` fails, the source is not
      idempotent: a clean 99-character name `w` followed by `_b` is cut to `w_`, and
      sanitising `w_` strips the `_` (`"a" * 99 + "_b"` gives `"a" * 99 + "_"`, then
      `"a" * 99`). */
  lemma SanitizeFilenameCutUnderscore(w: string)
    requires IsCleanName(w) && |w| == 99 && w[98] != '_'
    ensures SanitizeFilename(w + "_b") == w + "_"
    ensures SanitizeFilename(w + "_") == w
    ensures SanitizeFilename(SanitizeFilename(w + "_b")) != SanitizeFilename(w + "_b")
  {
    CutKeepsUnderscore(w);
    CutUnderscoreStripped(w);
  }

  lemma CutKeepsUnderscore(w: string)
    requires IsCleanName(w) && |w| == 99 && w[98] != '_'
    ensures SanitizeFilename(w + "_b") == w + "_"
  {
    var t := w + "_";
    var s := t + "b";
    SplitLastChar(w);
    assert forall i :: 0 <= i < |w| ==> s[i] == w[i];
    assert s[98] != '_' && s[99] == '_' && s[100] == 'b';
    SanitizeSteps(s);
    assert StripChar(s, '_') == s;
    assert s[..|t|] == t;
  }

  lemma SplitLastChar(w: string)
    ensures w + "_b" == (w + "_") + "b"
  {
  }

  lemma CutUnderscoreStripped(w: string)
    requires IsCleanName(w) && |w| == 99 && w[98] != '_'
    ensures SanitizeFilename(w + "_") == w
  {
    var t := w + "_";
    assert forall i :: 0 <= i < |w| ==> t[i] == w[i];
    assert t[98] != '_' && t[99] == '_';
    SanitizeSteps(t);
    StripTrailingUnderscore(w);
  }

  /** `(w + "_").strip("_")` is `w` when `w` neither starts nor ends with `_`. */
  lemma StripTrailingUnderscore(w: string)
    requires w != [] && w[0] != '_' && w[|w| - 1] != '_'
    ensures StripChar(w + "_", '_') == w
  {
    var t := w + "_";
    assert t[0] == w[0] && t[|t| - 1] == '_';
    assert LStripChar(t, '_') == t;
    assert t[..|t| - 1] == w;
    assert RStripChar(t, '_') == RStripChar(t[..|t| - 1], '_');
    assert RStripChar(w, '_') == w;
  }

  /** On a text of name characters without `__`, the replacements and the collapse
      change nothing: only the strip and the cut are left. */
  lemma SanitizeSteps(t: string)
    requires forall i :: 0 <= i < |t| ==> IsNameChar(t[i])
    requires forall i :: 0 <= i < |t| - 1 ==> !(t[i] == '_' && t[i + 1] == '_')
    ensures SanitizeFilename(t) == Truncate(StripChar(t, '_'), 100)
  {
    CleanNamePlain(t);
    ReplaceIllegalFixed(t);
    SubRunsIdentity(t, IsSpace, '_');
    ReplaceNonNameFixed(t);
    SubRunsIdentity(t, IsUnderscore, '_');
  }

  // ---------------------------------------------------------------------
  // sanitize_filename (200-character variant of the single-binary script)
  // ---------------------------------------------------------------------

  /** A name with no illegal character and no whitespace. */
  predicate IsPlainName(r: string) {
    forall i :: 0 <= i < |r| ==> r[i] !in IllegalChars && !IsSpace(r[i])
  }

  /** `sanitize_filename` of the single-binary decompile script: illegal characters
      become `_`, each whitespace run becomes one `_`, and the result is cut to 200;
      other characters, `_` runs and the ends are kept. */
  function SanitizeFilenameScript(name: string): (r: string)
    ensures |r| <= 200 && IsPlainName(r)
  {
    ScriptStepsPlain(name);
    Truncate(SubRuns(ReplaceIllegal(name), IsSpace, '_'), 200)
  }

  lemma ScriptStepsPlain(name: string)
    ensures IsPlainName(Truncate(SubRuns(ReplaceIllegal(name), IsSpace, '_'), 200))
  {
    var a := ReplaceIllegal(name);
    var b := SubRuns(a, IsSpace, '_');
    SpacesReplaced(a, b);
    TruncatedPlain(b, 200);
  }

  /** After the illegal characters are gone, replacing whitespace runs leaves a plain name. */
  lemma SpacesReplaced(a: string, b: string)
    requires forall i :: 0 <= i < |a| ==> a[i] !in IllegalChars
    requires b == SubRuns(a, IsSpace, '_')
    ensures IsPlainName(b)
  {
    assert forall x :: x in a ==> x !in IllegalChars;
    assert !IsSpace('_') && '_' !in IllegalChars;
  }

  lemma TruncatedPlain(b: string, n: nat)
    requires IsPlainName(b)
    ensures IsPlainName(Truncate(b, n))
  {
    var r := Truncate(b, n);
    assert forall i :: 0 <= i < |r| ==> r[i] == b[i];
  }

  /** A plain name of at most 200 characters comes back unchanged. */
  lemma SanitizeFilenameScriptFixed(s: string)
    requires IsPlainName(s) && |s| <= 200
    ensures SanitizeFilenameScript(s) == s
  {
    ReplaceIllegalFixed(s);
    SubRunsIdentity(s, IsSpace, '_');
  }

  /** Sanitising twice is sanitising once. */
  lemma SanitizeFilenameScriptIdempotent(s: string)
    ensures SanitizeFilenameScript(SanitizeFilenameScript(s)) == SanitizeFilenameScript(s)
  {
    SanitizeFilenameScriptFixed(SanitizeFilenameScript(s));
  }

  /** On a name that is already plain only the cut applies: the result is its first
      200 characters. */
  lemma SanitizeFilenameScriptCut(s: string)
    requires IsPlainName(s)
    ensures SanitizeFilenameScript(s) == if |s| > 200 then s[..200] else s
  {
    ReplaceIllegalFixed(s);
    SubRunsIdentity(s, IsSpace, '_');
  }

  // ---------------------------------------------------------------------
  // extract_class_name, extract_namespace
  // ---------------------------------------------------------------------

  /** `extract_class_name`: of the `::`-separated parts, the first when there are two
      and the second to last when there are more; None without `::`. */
  function ExtractClassName(name: string): (r: Option<string>)
    ensures r.None? <==> !Contains(name, "::")
  {
    if Contains(name, "::") then
      var parts := Split(name, "::");
      if |parts| > 2 then Some(parts[|parts| - 2]) else Some(parts[0])
    else None
  }

  /** `extract_namespace`: the text before the first `::`; None without `::`. */
  function ExtractNamespace(name: string): (r: Option<string>)
    ensures r.None? <==> !Contains(name, "::")
    ensures r.Some? ==> r.value == name[..IndexOf(name, "::")]
  {
    if Contains(name, "::") then Some(Split(name, "::")[0]) else None
  }

  /** On a qualified name `A::B::…::M` (parts free of `:` joined with `::`) the class is the part before the method,
      except that with exactly two parts it is the first: `A::B::C` gives `B`,
      `Foo::bar` gives `Foo`; a single part gives None. */
  lemma ExtractClassNameOfPath(parts: seq<string>)
    requires |parts| >= 1 && PiecesFree(parts, ':')
    ensures ExtractClassName(Join(parts, "::")) ==
            if |parts| == 1 then None else Some(parts[|parts| - 2])
  {
    SplitJoin(parts, "::");
    SplitShape(Join(parts, "::"), "::");
  }

  /** On a qualified name the namespace is its first part. */
  lemma ExtractNamespaceOfPath(parts: seq<string>)
    requires |parts| >= 1 && PiecesFree(parts, ':')
    ensures ExtractNamespace(Join(parts, "::")) ==
            if |parts| == 1 then None else Some(parts[0])
  {
    SplitJoin(parts, "::");
    SplitShape(Join(parts, "::"), "::");
  }

  // ---------------------------------------------------------------------
  // extract_class_from_method
  // ---------------------------------------------------------------------

  /** The class `[\w\s\*]` of the optional return-type prefix. */
  predicate IsSigChar(c: char) { IsWordChar(c) || IsSpace(c) || c == '*' }

  /** The end of the run of `[\w\s\*]` characters starting at `i`. */
  function SigEnd(s: string, i: nat): (e: nat)
    requires i <= |s|
    ensures i <= e <= |s|
    decreases |s| - i
  {
    if i < |s| && IsSigChar(s[i]) then SigEnd(s, i + 1) else i
  }

  /** The end of the run of word characters starting at `i`. */
  function WordEnd(s: string, i: nat): (e: nat)
    requires i <= |s|
    ensures i <= e <= |s|
    decreases |s| - i
  {
    if i < |s| && IsWordChar(s[i]) then WordEnd(s, i + 1) else i
  }

  /** The end of the run of whitespace starting at `i`. */
  function SpaceEnd(s: string, i: nat): (e: nat)
    requires i <= |s|
    ensures i <= e <= |s|
    decreases |s| - i
  {
    if i < |s| && IsSpace(s[i]) then SpaceEnd(s, i + 1) else i
  }

  /** The start of the run of word characters ending at `p`. */
  function WordStart(s: string, p: nat): (b: nat)
    requires p <= |s|
    ensures b <= p
  {
    if p > 0 && IsWordChar(s[p - 1]) then WordStart(s, p - 1) else p
  }

  /** The longest `(::\w+)*` starting at `i`: where it ends, and where its last `::`
      starts (`i` itself when it is empty). */
  function ChainAt(s: string, i: nat): (res: (nat, nat))
    requires i <= |s|
    ensures i <= res.0 <= |s|
    ensures res.0 == i ==> res.1 == i
    ensures res.0 > i ==> i <= res.1 && res.1 + 2 <= res.0 && s[res.1] == ':' && s[res.1 + 1] == ':'
    decreases |s| - i
  {
    if i + 2 < |s| && s[i] == ':' && s[i + 1] == ':' && IsWordChar(s[i + 2]) then
      var e := WordEnd(s, i + 2);
      var rest := ChainAt(s, e);
      if rest.0 == e then (e, i) else rest
    else (i, i)
  }

  /** Group 1 may start at `b`: at the start of the text, or after at least two
      prefix characters of which the last is whitespace. */
  predicate StartOk(s: string, b: nat) {
    b == 0 || (2 <= b <= |s| && IsSpace(s[b - 1]))
  }

  /** `\s*\(` at position `i`. */
  predicate OpensCallAt(s: string, i: nat)
    requires i <= |s|
  {
    SpaceEnd(s, i) < |s| && s[SpaceEnd(s, i)] == '('
  }

  /** The anchored match of
      `(?:[\w\s\*]+\s+)?(?:__thiscall\s+)?(\w+(?:::\w+)*)::\w+\s*\(` and its group 1.
      Group 1 starts at the word run that ends the longest `[\w\s\*]` prefix; that
      run must open the text or follow at least two prefix characters, the last of
      them whitespace (the optional `__thiscall\s+` never moves it). The scope chain
      is the longest `(::\w+)*`; its last `::\w+` is the method name, which must be
      followed by optional whitespace and `(`. */
  function MatchMethodScope(s: string): Option<string>
  {
    var p := SigEnd(s, 0);
    var b := WordStart(s, p);
    var ch := ChainAt(s, p);
    if b < p && StartOk(s, b) && ch.0 > p && OpensCallAt(s, ch.0)
    then Some(s[b..ch.1])
    else None
  }

  /** A match needs a `::` in the text. */
  lemma MatchMethodScopeContains(s: string)
    requires MatchMethodScope(s).Some?
    ensures Contains(s, "::")
  {
    var ch := ChainAt(s, SigEnd(s, 0));
    assert s[ch.1..ch.1 + 2] == "::";
    assert OccursAt(s, "::", ch.1);
  }

  /** The fallback of `extract_class_from_method`: everything before the last `::`,
      cut at the first `(` and stripped. */
  function FallbackScope(s: string): string {
    var parts := Split(s, "::");
    Strip(Split(Join(parts[..|parts| - 1], "::"), "(")[0])
  }

  /** `extract_class_from_method`: group 1 of the signature pattern; failing that,
      with `::` present, the fallback scope; otherwise None. */
  function ExtractClassFromMethod(s: string): (r: Option<string>)
    ensures r.None? <==> !Contains(s, "::")
  {
    if MatchMethodScope(s).Some? then MatchMethodScopeContains(s); MatchMethodScope(s)
    else if Contains(s, "::") then Some(FallbackScope(s))
    else None
  }

  /** When the pattern does not match but the text has `::`, the result is the
      fallback scope. */
  lemma ExtractClassFromMethodFallback(s: string)
    requires MatchMethodScope(s).None? && Contains(s, "::")
    ensures ExtractClassFromMethod(s) == Some(FallbackScope(s))
  {
  }

  // The runs the pattern scans, found where the text has them.

  lemma {:induction false} SigEndRun(s: string, i: nat, j: nat)
    requires i <= j <= |s|
    requires forall k :: i <= k < j ==> IsSigChar(s[k])
    requires j == |s| || !IsSigChar(s[j])
    ensures SigEnd(s, i) == j
    decreases j - i
  {
    if i < j { SigEndRun(s, i + 1, j); }
  }

  lemma {:induction false} WordEndRun(s: string, i: nat, j: nat)
    requires i <= j <= |s|
    requires forall k :: i <= k < j ==> IsWordChar(s[k])
    requires j == |s| || !IsWordChar(s[j])
    ensures WordEnd(s, i) == j
    decreases j - i
  {
    if i < j { WordEndRun(s, i + 1, j); }
  }

  lemma {:induction false} SpaceEndRun(s: string, i: nat, j: nat)
    requires i <= j <= |s|
    requires forall k :: i <= k < j ==> IsSpace(s[k])
    requires j == |s| || !IsSpace(s[j])
    ensures SpaceEnd(s, i) == j
    decreases j - i
  {
    if i < j { SpaceEndRun(s, i + 1, j); }
  }

  lemma {:induction false} WordStartRun(s: string, b: nat, p: nat)
    requires b <= p <= |s|
    requires forall k :: b <= k < p ==> IsWordChar(s[k])
    requires b == 0 || !IsWordChar(s[b - 1])
    ensures WordStart(s, p) == b
    decreases p - b
  {
    if b < p { WordStartRun(s, b, p - 1); }
  }

  /** `::p1::p2…` for scope parts `p1, p2, …`. */
  function ChainText(ps: seq<string>): string
  {
    if ps == [] then [] else "::" + ps[0] + ChainText(ps[1..])
  }

  predicate WordParts(ps: seq<string>) {
    forall i :: 0 <= i < |ps| ==> ps[i] != [] && AllWordChars(ps[i])
  }

  lemma {:induction false} JoinChainText(parts: seq<string>)
    requires |parts| >= 1
    ensures Join(parts, "::") == parts[0] + ChainText(parts[1..])
    decreases |parts|
  {
    if |parts| > 1 {
      JoinChainText(parts[1..]);
      assert parts[1..][1..] == parts[2..];
      assert ChainText(parts[1..]) == "::" + parts[1] + ChainText(parts[2..]);
    }
  }

  lemma {:induction false} ChainTextPrefix(ps: seq<string>)
    requires ps != []
    ensures ChainText(ps) == ChainText(ps[..|ps| - 1]) + "::" + ps[|ps| - 1]
    decreases |ps|
  {
    if |ps| == 1 {
      assert ps[..0] == [];
      assert ps[1..] == [];
    } else {
      ChainTextPrefix(ps[1..]);
      assert ps[..|ps| - 1][1..] == ps[1..][..|ps| - 2];
      assert ps[..|ps| - 1][0] == ps[0];
    }
  }

  lemma SpaceNotWord(c: char)
    requires IsSpace(c)
    ensures !IsWordChar(c) && c != ':'
  {
  }

  /** A chain of word parts written at `i`, followed by a character that cannot
      continue it, is parsed as a whole, its last `::` opening the last part. */
  lemma {:induction false} ChainAtText(s: string, i: nat, ps: seq<string>)
    requires |ps| >= 1 && WordParts(ps)
    requires i + |ChainText(ps)| <= |s|
    requires forall k :: 0 <= k < |ChainText(ps)| ==> s[i + k] == ChainText(ps)[k]
    requires i + |ChainText(ps)| == |s| ||
             (!IsWordChar(s[i + |ChainText(ps)|]) && s[i + |ChainText(ps)|] != ':')
    ensures ChainAt(s, i).0 == i + |ChainText(ps)|
    ensures ChainAt(s, i).1 == i + |ChainText(ps[..|ps| - 1])|
    decreases |ps|
  {
    var ct := ChainText(ps);
    var w := ps[0];
    var tail := ChainText(ps[1..]);
    assert ct == "::" + w + tail;
    var e := i + 2 + |w|;
    assert s[i] == ct[0] == ':';
    assert s[i + 1] == ct[1] == ':';
    assert s[i + 2] == ct[2] == w[0];
    forall k | i + 2 <= k < e ensures IsWordChar(s[k]) {
      assert s[i + (k - i)] == ct[k - i] == w[k - i - 2];
    }
    forall k | 0 <= k < |tail| ensures s[e + k] == tail[k] {
      assert s[i + (2 + |w| + k)] == ct[2 + |w| + k];
    }
    if |ps| == 1 {
      assert tail == [];
      WordEndRun(s, i + 2, e);
      assert ps[..0] == [];
    } else {
      var ps' := ps[1..];
      assert WordParts(ps') by {
        forall k | 0 <= k < |ps'| ensures ps'[k] != [] && AllWordChars(ps'[k]) {
          assert ps'[k] == ps[k + 1];
        }
      }
      assert tail == "::" + ps'[0] + ChainText(ps'[1..]);
      assert s[e + 0] == tail[0] == ':';
      WordEndRun(s, i + 2, e);
      ChainAtText(s, e, ps');
      var init := ps[..|ps| - 1];
      assert init[0] == ps[0];
      assert init[1..] == ps'[..|ps'| - 1];
      assert ChainText(init) == "::" + ps[0] + ChainText(ps'[..|ps'| - 1]);
    }
  }

  /** The pattern read off positions: a `[\w\s\*]` prefix of length `a` that is
      empty or ends in whitespace after at least two characters, a word from `a` to
      `h`, a chain of at least one more part at `h` and `\s*\(` after it give group 1
      from `a` up to the chain's last `::`. */
  predicate CallShape(s: string, a: nat, h: nat, c: string) {
    a < h && c != [] && h + |c| < |s| &&
    SigPrefixAt(s, a) && WordRunAt(s, a, h) && PieceAt(s, h, c) && TailAt(s, h + |c|)
  }

  /** The first `a` characters are a `[\w\s\*]` prefix that is empty or ends in
      whitespace after at least two characters. */
  predicate SigPrefixAt(s: string, a: nat)
    requires a <= |s|
  {
    (forall k :: 0 <= k < a ==> IsSigChar(s[k])) && (a == 0 || (a >= 2 && IsSpace(s[a - 1])))
  }

  predicate WordRunAt(s: string, a: nat, h: nat)
    requires a <= h <= |s|
  {
    forall k :: a <= k < h ==> IsWordChar(s[k])
  }

  /** `p` is laid in `s` from position `h`. */
  predicate PieceAt(s: string, h: nat, p: string)
    requires h + |p| <= |s|
  {
    forall k :: 0 <= k < |p| ==> s[h + k] == p[k]
  }

  /** At `e` the name cannot go on, and optional whitespace and `(` follow. */
  predicate TailAt(s: string, e: nat)
    requires e < |s|
  {
    !IsWordChar(s[e]) && s[e] != ':' && OpensCallAt(s, e)
  }

  lemma MatchMethodScopeAt(s: string, a: nat, h: nat, ps: seq<string>)
    requires |ps| >= 1 && CallShape(s, a, h, ChainText(ps)) && WordParts(ps)
    ensures h + |ChainText(ps[..|ps| - 1])| <= |s|
    ensures MatchMethodScope(s) == Some(s[a..h + |ChainText(ps[..|ps| - 1])|])
  {
    RunsOfShape(s, a, h, ps);
    ChainAtText(s, h, ps);
    MatchFromRuns(s, a, h, ChainAt(s, h).0, ChainAt(s, h).1);
  }

  /** The prefix run ends where the chain starts, and the word run before it
      starts at `a`. */
  lemma RunsOfShape(s: string, a: nat, h: nat, ps: seq<string>)
    requires |ps| >= 1 && CallShape(s, a, h, ChainText(ps)) && WordParts(ps)
    ensures h < |s| && SigEnd(s, 0) == h && WordStart(s, h) == a && StartOk(s, a)
  {
    var ct := ChainText(ps);
    assert ct == "::" + ps[0] + ChainText(ps[1..]);
    assert s[h + 0] == ct[0] == ':';
    SigEndRun(s, 0, h);
    if a > 0 {
      SpaceNotWord(s[a - 1]);
    }
    WordStartRun(s, a, h);
  }

  /** The match read off the three scans. */
  lemma MatchFromRuns(s: string, a: nat, h: nat, e: nat, g: nat)
    requires h <= |s| && a < h && SigEnd(s, 0) == h && WordStart(s, h) == a && StartOk(s, a)
    requires ChainAt(s, h) == (e, g) && e > h && e <= |s| && OpensCallAt(s, e)
    ensures MatchMethodScope(s) == Some(s[a..g])
  {
  }

  /** When the signature pattern matches, its group is the result. */
  lemma ExtractClassFromMethodMatched(s: string)
    requires MatchMethodScope(s).Some?
    ensures ExtractClassFromMethod(s) == MatchMethodScope(s)
  {
  }

  /** The text between the end of the first part and the last `::` of a qualified
      name is the chain of the middle parts. */
  lemma ScopeText(parts: seq<string>)
    requires |parts| >= 2
    ensures Join(parts[..|parts| - 1], "::") == parts[0] + ChainText(parts[1..][..|parts| - 2])
    ensures Join(parts, "::") == parts[0] + ChainText(parts[1..])
  {
    var init := parts[..|parts| - 1];
    assert init[0] == parts[0] && init[1..] == parts[1..][..|parts| - 2];
    JoinChainText(init);
    JoinChainText(parts);
  }

  lemma WordPartsTail(parts: seq<string>)
    requires |parts| >= 1 && WordParts(parts)
    ensures WordParts(parts[1..])
  {
    forall k | 0 <= k < |parts| - 1 ensures parts[1..][k] != [] && AllWordChars(parts[1..][k]) {
      assert parts[1..][k] == parts[k + 1];
    }
  }

  /** A signature `ret A::B::…::M (args` whose return-type prefix is empty or made of
      `[\w\s\*]` ending in whitespace (this includes `void __thiscall `) gives the
      full scope path `A::B::…` before the method name. */
  lemma ExtractClassFromMethodOfCall(pre: string, parts: seq<string>, sp: string, rest: string)
    requires SigPrefix(pre)
    requires |parts| >= 2 && WordParts(parts)
    requires forall i :: 0 <= i < |sp| ==> IsSpace(sp[i])
    ensures ExtractClassFromMethod(pre + Join(parts, "::") + sp + "(" + rest) ==
            Some(Join(parts[..|parts| - 1], "::"))
  {
    var after := sp + "(" + rest;
    var s := pre + Join(parts, "::") + after;
    Regroup(pre + Join(parts, "::"), sp, rest);
    CallTailOf(sp, rest);
    ScopeOfCall(pre, parts, after);
    ExtractClassFromMethodMatched(s);
  }

  lemma Regroup(a: string, sp: string, rest: string)
    ensures a + (sp + "(" + rest) == a + sp + "(" + rest
  {
  }

  /** Group 1 may be preceded by nothing, or by a `[\w\s\*]` prefix of at least two
      characters that ends in whitespace. */
  predicate SigPrefix(pre: string) {
    pre == [] || (|pre| >= 2 && IsSpace(pre[|pre| - 1]) &&
                  forall i :: 0 <= i < |pre| ==> IsSigChar(pre[i]))
  }

  /** What follows the method name: optional whitespace and `(`, and nothing that
      could extend the name. */
  predicate CallTail(after: string) {
    after != [] && !IsWordChar(after[0]) && after[0] != ':' && OpensCallAt(after, 0)
  }

  lemma CallTailOf(sp: string, rest: string)
    requires forall i :: 0 <= i < |sp| ==> IsSpace(sp[i])
    ensures CallTail(sp + "(" + rest)
  {
    var after := sp + "(" + rest;
    assert after[|sp|] == '(';
    SpaceEndRun(after, 0, |sp|);
    if sp != [] {
      assert after[0] == sp[0];
      SpaceNotWord(sp[0]);
    }
  }

  /** `s` is `pre`, `w`, `c` and `after` laid end to end, read back by position. */
  predicate Pieced(s: string, pre: string, w: string, c: string, after: string) {
    |s| == |pre| + |w| + |c| + |after| &&
    (forall k :: 0 <= k < |pre| ==> s[k] == pre[k]) &&
    PieceAt(s, |pre|, w) && PieceAt(s, |pre| + |w|, c) &&
    s[|pre| + |w| + |c|..] == after
  }

  lemma ScopeOfCall(pre: string, parts: seq<string>, after: string)
    requires SigPrefix(pre)
    requires |parts| >= 2 && WordParts(parts)
    requires CallTail(after)
    ensures MatchMethodScope(pre + Join(parts, "::") + after) == Some(Join(parts[..|parts| - 1], "::"))
  {
    var s := pre + Join(parts, "::") + after;
    CallPieces(s, pre, parts, after);
    ScopeOfParts(s, pre, parts, after);
  }

  lemma ScopeOfParts(s: string, pre: string, parts: seq<string>, after: string)
    requires SigPrefix(pre)
    requires |parts| >= 2 && WordParts(parts)
    requires CallTail(after)
    requires Pieced(s, pre, parts[0], ChainText(parts[1..]), after)
    ensures MatchMethodScope(s) == Some(Join(parts[..|parts| - 1], "::"))
  {
    WordPartsTail(parts);
    ScopeAt(s, pre, parts[0], parts[1..], after);
    ScopeText(parts);
    assert parts[1..][..|parts| - 2] == parts[1..][..|parts[1..]| - 1];
  }

  /** The pieces of `pre A::…::M after`: the prefix, the first part, the chain of
      the other parts and the rest. */
  lemma CallPieces(s: string, pre: string, parts: seq<string>, after: string)
    requires |parts| >= 2 && s == pre + Join(parts, "::") + after
    ensures Pieced(s, pre, parts[0], ChainText(parts[1..]), after)
  {
    JoinChainText(parts);
    Pieces(s, pre, parts[0], ChainText(parts[1..]), after);
  }

  /** The scope found in `pre w::p1::…::pn after` is `w::p1::…::p(n-1)`. */
  lemma ScopeAt(s: string, pre: string, w: string, ps: seq<string>, after: string)
    requires SigPrefix(pre)
    requires w != [] && AllWordChars(w) && |ps| >= 1 && WordParts(ps)
    requires CallTail(after)
    requires Pieced(s, pre, w, ChainText(ps), after)
    ensures MatchMethodScope(s) == Some(w + ChainText(ps[..|ps| - 1]))
  {
    CallShapeOf(s, pre, w, ChainText(ps), after);
    ChainTextPrefix(ps);
    GroupOf(s, pre, w, ps, after);
    ScopeOfShape(s, pre, w, ps);
  }

  lemma ScopeOfShape(s: string, pre: string, w: string, ps: seq<string>)
    requires |ps| >= 1 && CallShape(s, |pre|, |pre| + |w|, ChainText(ps)) && WordParts(ps)
    requires |pre| + |w| + |ChainText(ps[..|ps| - 1])| <= |s|
    requires s[|pre|..|pre| + |w| + |ChainText(ps[..|ps| - 1])|] == w + ChainText(ps[..|ps| - 1])
    ensures MatchMethodScope(s) == Some(w + ChainText(ps[..|ps| - 1]))
  {
    MatchMethodScopeAt(s, |pre|, |pre| + |w|, ps);
  }

  /** Four pieces laid end to end, read back by position. */
  lemma Pieces(s: string, p: string, w: string, c: string, t: string)
    requires s == p + (w + c) + t
    ensures Pieced(s, p, w, c, t)
  {
  }

  /** The positions of a call text `pre A::…::M after`, as the pattern reads them. */
  lemma CallShapeOf(s: string, pre: string, w: string, c: string, after: string)
    requires SigPrefix(pre)
    requires w != [] && AllWordChars(w) && c != []
    requires CallTail(after)
    requires Pieced(s, pre, w, c, after)
    ensures CallShape(s, |pre|, |pre| + |w|, c)
  {
    PrefixOfPieces(s, pre, w, c, after);
    WordOfPieces(s, pre, w, c, after);
    TailOfPieces(s, pre, w, c, after);
    ChainOfPieces(s, pre, w, c, after);
  }

  lemma ChainOfPieces(s: string, pre: string, w: string, c: string, after: string)
    requires Pieced(s, pre, w, c, after)
    ensures PieceAt(s, |pre| + |w|, c)
  {
  }

  lemma PrefixOfPieces(s: string, pre: string, w: string, c: string, after: string)
    requires SigPrefix(pre) && Pieced(s, pre, w, c, after)
    ensures SigPrefixAt(s, |pre|)
  {
    forall k | 0 <= k < |pre| ensures IsSigChar(s[k]) {
      assert s[k] == pre[k];
    }
    if |pre| > 0 {
      assert s[|pre| - 1] == pre[|pre| - 1];
    }
  }

  lemma WordOfPieces(s: string, pre: string, w: string, c: string, after: string)
    requires AllWordChars(w) && Pieced(s, pre, w, c, after)
    ensures WordRunAt(s, |pre|, |pre| + |w|)
  {
    forall k | |pre| <= k < |pre| + |w| ensures IsWordChar(s[k]) {
      assert s[|pre| + (k - |pre|)] == w[k - |pre|];
    }
  }

  lemma TailOfPieces(s: string, pre: string, w: string, c: string, after: string)
    requires CallTail(after) && Pieced(s, pre, w, c, after)
    ensures |pre| + |w| + |c| < |s| && TailAt(s, |pre| + |w| + |c|)
  {
    var e := |pre| + |w| + |c|;
    assert s[e..] == after;
    assert s[e] == after[0];
    OpensCallShift(s, e);
  }

  /** Group 1 read off the positions: the first part and the chain of the middle
      parts. */
  lemma GroupOf(s: string, pre: string, w: string, ps: seq<string>, after: string)
    requires |ps| >= 1 && Pieced(s, pre, w, ChainText(ps), after)
    requires ChainText(ps) == ChainText(ps[..|ps| - 1]) + "::" + ps[|ps| - 1]
    ensures |pre| + |w| + |ChainText(ps[..|ps| - 1])| <= |s|
    ensures s[|pre|..|pre| + |w| + |ChainText(ps[..|ps| - 1])|] == w + ChainText(ps[..|ps| - 1])
  {
    var ct, ci := ChainText(ps), ChainText(ps[..|ps| - 1]);
    var a, g := |pre|, |pre| + |w| + |ci|;
    forall k | 0 <= k < g - a ensures s[a..g][k] == (w + ci)[k] {
      if k < |w| {
        assert s[|pre| + k] == w[k];
      } else {
        assert s[|pre| + |w| + (k - |w|)] == ct[k - |w|] == ci[k - |w|];
      }
    }
  }

  /** `\s*\(` at the start of a suffix is `\s*\(` at that place of the text. */
  lemma {:induction false} OpensCallShift(s: string, c: nat)
    requires c <= |s| && OpensCallAt(s[c..], 0)
    ensures OpensCallAt(s, c)
  {
    SpaceEndShift(s, c, 0);
  }

  lemma {:induction false} SpaceEndShift(s: string, c: nat, i: nat)
    requires c + i <= |s|
    ensures SpaceEnd(s[c..], i) + c == SpaceEnd(s, c + i)
    decreases |s| - c - i
  {
    if c + i < |s| {
      assert s[c..][i] == s[c + i];
      if IsSpace(s[c + i]) {
        SpaceEndShift(s, c, i + 1);
      }
    }
  }
}
