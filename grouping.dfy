/** Module grouping of functions: a function's name is mapped to the key of the
    module whose source file will hold it, under one of four strategies (prefix,
    alpha, camelcase, single). Regular-expression character classes are ASCII. */
module Grouping {
  import opened Text

  const MinPrefixLen: nat := 2
  const MaxPrefixLen: nat := 30

  /** Names the decompiler invents for unnamed code and data. */
  predicate IsGenerated(name: string) {
    StartsWith(name, "FUN_") || StartsWith(name, "DAT_")
  }

  /** The name a strategy looks at: the display name unless it is empty or absent
      (both are modelled as the empty string). */
  function NameToCheck(funcName: string, displayName: string): string {
    if displayName != [] then displayName else funcName
  }

  // ---------------------------------------------------------------------
  // Prefix strategy: an ordered cascade of rules
  // ---------------------------------------------------------------------

  /** `CoreView__ReInit`: the text before the first `__`, when it has at least
      two characters. */
  function DoubleUnderscoreRule(name: string): (r: Option<string>)
    ensures r.Some? ==> |r.value| >= MinPrefixLen && StartsWith(name, r.value)
  {
    if Contains(name, "__") then
      SplitShape(name, "__");
      var parts := Split(name, "__");
      if |parts[0]| >= MinPrefixLen then Some(parts[0]) else None
    else None
  }

  /** `^[A-Z][a-zA-Z0-9]+$`; `$` also matches just before a final newline. */
  predicate IsCapitalisedWord(w: string) {
    var t := if w != [] && w[|w| - 1] == '\n' then w[..|w| - 1] else w;
    |t| >= 2 && IsUpper(t[0]) && forall i :: 1 <= i < |t| ==> IsAlnum(t[i])
  }

  /** `ApplicationApplication_goHome`: for a name with `_` that does not start with
      one, the first piece when it is capitalised or at least four long (and at least
      two long); otherwise the first two pieces run together, when at most 30 long. */
  function UnderscoreRule(name: string): (r: Option<string>)
    ensures r.Some? ==> r.value != []
    ensures r.Some? ==> StartsWith(name, r.value) || StartsWith(DropFirst(name, '_'), r.value)
  {
    if '_' in name && !StartsWith(name, "_") then
      FirstPieces(name);
      var parts := Split(name, "_");
      if |parts| >= 2 then
        var first := parts[0];
        if |first| >= MinPrefixLen && (IsCapitalisedWord(first) || |first| >= 4) then Some(first)
        else
          var compound := parts[0] + parts[1];
          if |compound| <= MaxPrefixLen then Some(compound) else None
      else None
    else None
  }

  /** `s` without its first occurrence of `c`. */
  function DropFirst(s: string, c: char): (r: string)
    ensures c in s ==> |r| == |s| - 1
  {
    ContainsChar(s, c);
    var i := IndexOf(s, [c]);
    if i < 0 then s else s[..i] + s[i + 1..]
  }

  /** Where the piece of a split on `_` that starts at `k` ends: at the next `_`,
      or at the end of the text. */
  function PieceEnd(s: string, k: nat): (e: nat)
    requires k <= |s|
    ensures k <= e <= |s| && (e == |s| || s[e] == '_')
  {
    var j := IndexFrom(s, "_", k);
    if j < 0 then |s| else (OccursChars(s, "_", j); j)
  }

  /** The first two pieces of a split on `_`: the text before the first `_`, then
      the text from there up to the next `_` or the end. */
  lemma SplitTwo(name: string)
    requires '_' in name
    ensures var i := IndexOf(name, "_");
            var parts := Split(name, "_");
            0 <= i < |name| && name[i] == '_' && |parts| >= 2 &&
            parts[0] == name[..i] && parts[1] == name[i + 1..PieceEnd(name, i + 1)]
  {
    ContainsChar(name, '_');
    var i := IndexOf(name, "_");
    OccursChars(name, "_", i);
    SplitFromCut(name, "_", 0);
    assert SplitFrom(name, "_", i + 1)[0] == name[i + 1..PieceEnd(name, i + 1)];
  }

  /** The first two pieces begin the name with its first `_` dropped. */
  lemma FirstPieces(name: string)
    requires '_' in name && !StartsWith(name, "_")
    ensures var parts := Split(name, "_");
            |parts| >= 2 && parts[0] != [] &&
            StartsWith(name, parts[0]) && StartsWith(DropFirst(name, '_'), parts[0] + parts[1])
  {
    SplitTwo(name);
    var i := IndexOf(name, "_");
    assert i != 0;
    var e := PieceEnd(name, i + 1);
    PrefixJoin(name[..i], name[i + 1..], e - (i + 1));
    assert name[i + 1..][..e - (i + 1)] == name[i + 1..e];
  }

  lemma PrefixJoin(a: string, b: string, n: nat)
    requires n <= |b|
    ensures StartsWith(a + b, a + b[..n])
  {
    assert (a + b)[..|a| + n] == a + b[..n];
  }

  /** `^([A-Z][a-z]+[A-Z][a-z]*)`: two capitalised humps, kept when at most 30
      long. Each run is maximal, since what follows it cannot match the next item. */
  function TwoHumpRule(name: string): (r: Option<string>)
    ensures r.Some? ==> |r.value| >= 3 && StartsWith(name, r.value)
  {
    if name != [] && IsUpper(name[0]) then
      var e := RunEnd(name, 1, IsLower);
      if e > 1 && e < |name| && IsUpper(name[e]) then
        var m := name[..RunEnd(name, e + 1, IsLower)];
        if MinPrefixLen <= |m| <= MaxPrefixLen then Some(m) else None
      else None
    else None
  }

  /** `^([A-Z][a-z]+)`: the first capitalised word. */
  function HumpRule(name: string): (r: Option<string>)
    ensures r.Some? ==> |r.value| >= MinPrefixLen && StartsWith(name, r.value)
  {
    if name != [] && IsUpper(name[0]) then
      var e := RunEnd(name, 1, IsLower);
      if e > 1 then Some(name[..e]) else None
    else None
  }

  predicate IsLowerOrDigit(c: char) { IsLower(c) || IsDigit(c) }

  /** `^([a-z][a-z0-9]*_[a-z0-9]+)`: a C-style prefix up to the end of its second
      piece. */
  function SnakeRule(name: string): (r: Option<string>)
    ensures r.Some? ==> |r.value| >= 3 && StartsWith(name, r.value)
  {
    if name != [] && IsLower(name[0]) then
      var e := RunEnd(name, 1, IsLowerOrDigit);
      if e < |name| && name[e] == '_' then
        var f := RunEnd(name, e + 1, IsLowerOrDigit);
        if f > e + 1 then Some(name[..f]) else None
      else None
    else None
  }

  /** `^([a-z]+)`: the first lowercase word, when at least two long. */
  function LowerRule(name: string): (r: Option<string>)
    ensures r.Some? ==> |r.value| >= MinPrefixLen && StartsWith(name, r.value)
  {
    var e := RunEnd(name, 0, IsLower);
    if e >= MinPrefixLen then Some(name[..e]) else None
  }

  /** `^([A-Z]+)_`: an all-capitals prefix followed by `_`, at least two long. */
  function CapsRule(name: string): (r: Option<string>)
    ensures r.Some? ==> |r.value| >= MinPrefixLen && StartsWith(name, r.value)
  {
    var e := RunEnd(name, 0, IsUpper);
    if e < |name| && name[e] == '_' && e >= MinPrefixLen then Some(name[..e]) else None
  }

  /** The module key of the prefix strategy: the first rule that applies, in the
      order the cascade tries them, or the `_misc` bucket. */
  function ExtractPrefix(name: string): (r: string)
    ensures r != []
    ensures IsGenerated(name) ==> r == "_generated"
    ensures r == "_generated" || r == "_misc" || StartsWith(name, r) ||
            StartsWith(DropFirst(name, '_'), r)
  {
    if IsGenerated(name) then "_generated"
    else if DoubleUnderscoreRule(name).Some? then DoubleUnderscoreRule(name).value
    else if UnderscoreRule(name).Some? then UnderscoreRule(name).value
    else if TwoHumpRule(name).Some? then TwoHumpRule(name).value
    else if HumpRule(name).Some? then HumpRule(name).value
    else if SnakeRule(name).Some? then SnakeRule(name).value
    else if LowerRule(name).Some? then LowerRule(name).value
    else if CapsRule(name).Some? then CapsRule(name).value
    else "_misc"
  }

  /** `__` rule: a name whose text before the first `__` is at least two long maps to
      that text. */
  lemma DoubleUnderscoreKey(name: string)
    requires !IsGenerated(name) && Contains(name, "__") && IndexOf(name, "__") >= MinPrefixLen
    ensures ExtractPrefix(name) == name[..IndexOf(name, "__")]
  {
    SplitShape(name, "__");
  }

  /** `_` rule: when the `__` rule does not apply, a name with a `_` past its start
      maps to the text before its first `_` if that is at least two long and either
      capitalised or at least four long; otherwise to that text run together with the
      next piece, when the two are at most 30 long. */
  lemma UnderscoreKey(name: string)
    requires !IsGenerated(name) && !StartsWith(name, "_") && '_' in name
    requires !Contains(name, "__") || IndexOf(name, "__") < MinPrefixLen
    ensures 0 < IndexOf(name, "_") < |name|
    ensures var i := IndexOf(name, "_");
            var first := name[..i];
            var second := name[i + 1..PieceEnd(name, i + 1)];
            (|first| >= MinPrefixLen && (IsCapitalisedWord(first) || |first| >= 4) ==>
               ExtractPrefix(name) == first) &&
            (!(|first| >= MinPrefixLen && (IsCapitalisedWord(first) || |first| >= 4)) &&
             |first + second| <= MaxPrefixLen ==>
               ExtractPrefix(name) == first + second)
  {
    SplitTwo(name);
    SplitShape(name, "__");
    FirstPieces(name);
  }

  /** The documented `vg_lite_init` comes out as `vglite`: the first piece is too short
      for the first rule, so the first two pieces are run together. */
  lemma UnderscoreKeyExample()
    ensures ExtractPrefix("vg_lite_init") == "vglite"
  {
    var name := "vg_lite_init";
    ExampleLacksDoubleUnderscore();
    ExampleUnderscores();
    var first, second := name[..2], name[3..7];
    assert first[|first| - 1] != '\n' && first[0] == 'v';
    assert !IsCapitalisedWord(first);
    assert first + second == "vglite";
    UnderscoreKey(name);
  }

  lemma ExampleLacksDoubleUnderscore()
    ensures !Contains("vg_lite_init", "__")
  {
    var name := "vg_lite_init";
    forall k | 0 <= k <= |name| - 2 ensures !OccursAt(name, "__", k) {
      var w := name[k..k + 2];
      assert w[0] == name[k] && w[1] == name[k + 1];
      assert k == 0 || k == 1 || k == 2 || k == 3 || k == 4 || k == 5 || k == 6 || k == 7 || k == 8 || k == 9 || k == 10;
      assert name[k] != '_' || name[k + 1] != '_';
      assert w != "__";
    }
  }

  lemma ExampleUnderscores()
    ensures IndexOf("vg_lite_init", "_") == 2 && PieceEnd("vg_lite_init", 3) == 7
  {
    var name := "vg_lite_init";
    assert OccursAt(name, "_", 2);
    assert OccursAt(name, "_", 7);
    forall j | 0 <= j < 7 && j != 2 ensures !OccursAt(name, "_", j) {
      var w := name[j..j + 1];
      assert w[0] == name[j];
      assert j == 0 || j == 1 || j == 3 || j == 4 || j == 5 || j == 6;
      assert w != "_";
    }
  }

  /** A name with no `_` that does not start with a letter falls through every rule. */
  lemma NonLetterMisc(name: string)
    requires '_' !in name && (name == [] || !IsAlpha(name[0]))
    ensures ExtractPrefix(name) == "_misc"
  {
    ContainsChar(name, '_');
    PrefixChars(name, "FUN_");
    PrefixChars(name, "DAT_");
    OccursChars(name, "__", IndexOf(name, "__"));
  }

  lemma PrefixChars(s: string, pre: string)
    ensures StartsWith(s, pre) ==> forall i :: 0 <= i < |pre| ==> s[i] == pre[i]
  {
    if StartsWith(s, pre) {
      forall i | 0 <= i < |pre| ensures s[i] == pre[i] {
        assert s[..|pre|][i] == s[i];
      }
    }
  }

  lemma OccursChars(s: string, pat: string, k: int)
    ensures OccursAt(s, pat, k) ==> forall i :: 0 <= i < |pat| ==> s[k + i] == pat[i]
  {
    if OccursAt(s, pat, k) {
      forall i | 0 <= i < |pat| ensures s[k + i] == pat[i] {
        assert s[k..k + |pat|][i] == s[k + i];
      }
    }
  }

  // ---------------------------------------------------------------------
  // Alpha strategy
  // ---------------------------------------------------------------------

  /** The upper-cased first letter, or `_symbols` when the name does not start with
      a letter. */
  function ModuleByAlpha(funcName: string, displayName: string): (r: string)
  {
    var name := NameToCheck(funcName, displayName);
    if IsGenerated(name) then "_generated"
    else
      var first := if name != [] then ToUpperChar(name[0]) else '_';
      if IsAlpha(first) then [first] else "_symbols"
  }

  /** Outside the generated bucket, a name starting with a letter gets that letter in
      capitals, and every other name (the empty one too) gets `_symbols`. */
  lemma AlphaBuckets(funcName: string, displayName: string)
    requires !IsGenerated(NameToCheck(funcName, displayName))
    ensures var name := NameToCheck(funcName, displayName);
            var r := ModuleByAlpha(funcName, displayName);
            (r == "_symbols" <==> name == [] || !IsAlpha(name[0])) &&
            (r != "_symbols" ==> |r| == 1 && IsUpper(r[0]) && ToLowerChar(r[0]) == ToLowerChar(name[0]))
  {
  }

  // ---------------------------------------------------------------------
  // Camelcase strategy
  // ---------------------------------------------------------------------

  /** `re.findall(r"[A-Z][a-z]*|[a-z]+|[0-9]+", s[k..])`: the alternatives are tried
      in order at each position, and a character none of them matches is skipped. */
  function CamelWordsFrom(s: string, k: nat): (ws: seq<string>)
    requires k <= |s|
    ensures forall i :: 0 <= i < |ws| ==> IsCamelWord(ws[i])
    decreases |s| - k
  {
    if k == |s| then []
    else if IsUpper(s[k]) then
      var e := RunEnd(s, k + 1, IsLower);
      [s[k..e]] + CamelWordsFrom(s, e)
    else if IsLower(s[k]) then
      var e := RunEnd(s, k, IsLower);
      [s[k..e]] + CamelWordsFrom(s, e)
    else if IsDigit(s[k]) then
      var e := RunEnd(s, k, IsDigit);
      [s[k..e]] + CamelWordsFrom(s, e)
    else CamelWordsFrom(s, k + 1)
  }

  /** A word the camelcase pattern can produce. */
  predicate IsCamelWord(w: string) {
    w != [] &&
    ((IsUpper(w[0]) && forall i :: 1 <= i < |w| ==> IsLower(w[i])) ||
     (forall i :: 0 <= i < |w| ==> IsLower(w[i])) ||
     (forall i :: 0 <= i < |w| ==> IsDigit(w[i])))
  }

  function CamelWords(s: string): seq<string> {
    CamelWordsFrom(s, 0)
  }

  /** The letters and digits of `s[k..]`, in order. */
  function AlnumFrom(s: string, k: nat): string
    requires k <= |s|
    decreases |s| - k
  {
    if k == |s| then [] else (if IsAlnum(s[k]) then [s[k]] else []) + AlnumFrom(s, k + 1)
  }

  /** A run of letters and digits passes through whole. */
  lemma {:induction false} AlnumRun(s: string, k: nat, e: nat)
    requires k <= e <= |s| && forall i :: k <= i < e ==> IsAlnum(s[i])
    ensures AlnumFrom(s, k) == s[k..e] + AlnumFrom(s, e)
    decreases e - k
  {
    if k < e {
      AlnumRun(s, k + 1, e);
      assert AlnumFrom(s, k) == [s[k]] + AlnumFrom(s, k + 1);
      assert s[k..e] == [s[k]] + s[k + 1..e];
    } else {
      assert s[k..e] == [];
    }
  }

  /** The words found cover exactly the letters and digits of the text: nothing is
      lost, duplicated or reordered, and everything else is dropped. */
  lemma {:induction false} CamelWordsCover(s: string, k: nat)
    requires k <= |s|
    ensures Concat(CamelWordsFrom(s, k)) == AlnumFrom(s, k)
    decreases |s| - k
  {
    if k < |s| {
      var ws := CamelWordsFrom(s, k);
      if IsAlnum(s[k]) {
        var e := if IsUpper(s[k]) then RunEnd(s, k + 1, IsLower)
                 else if IsLower(s[k]) then RunEnd(s, k, IsLower) else RunEnd(s, k, IsDigit);
        assert ws == [s[k..e]] + CamelWordsFrom(s, e);
        CamelWordsCover(s, e);
        AlnumRun(s, k, e);
        assert ([s[k..e]] + CamelWordsFrom(s, e))[1..] == CamelWordsFrom(s, e);
      } else {
        CamelWordsCover(s, k + 1);
      }
    }
  }

  /** The words are empty exactly when the text has no letter or digit. */
  lemma NoCamelWords(s: string)
    ensures CamelWords(s) == [] <==> forall i :: 0 <= i < |s| ==> !IsAlnum(s[i])
  {
    CamelWordsCover(s, 0);
    var ws := CamelWords(s);
    if ws != [] {
      assert ws[0] != [] && Concat(ws) == ws[0] + Concat(ws[1..]);
    }
    AlnumEmpty(s, 0);
  }

  lemma {:induction false} AlnumEmpty(s: string, k: nat)
    requires k <= |s|
    ensures AlnumFrom(s, k) == [] <==> forall i :: k <= i < |s| ==> !IsAlnum(s[i])
    decreases |s| - k
  {
    if k < |s| {
      AlnumEmpty(s, k + 1);
    }
  }

  /** The pieces of the name: on `_` when it has one, else its camelcase words. */
  function NameWords(name: string): seq<string> {
    if '_' in name then Split(name, "_") else CamelWords(name)
  }

  /** The first two words run together, the only word, or `_misc`. */
  function ModuleByCamelCase(funcName: string, displayName: string): string {
    var name := NameToCheck(funcName, displayName);
    if IsGenerated(name) then "_generated"
    else
      var words := NameWords(name);
      if |words| >= 2 then words[0] + words[1]
      else if |words| == 1 then words[0]
      else "_misc"
  }

  /** A name without `_` lands in `_misc` exactly when it has no letter or digit. */
  lemma CamelCaseMisc(funcName: string, displayName: string)
    requires var name := NameToCheck(funcName, displayName);
             !IsGenerated(name) && '_' !in name
    ensures var name := NameToCheck(funcName, displayName);
            ModuleByCamelCase(funcName, displayName) == "_misc" <==>
            forall i :: 0 <= i < |name| ==> !IsAlnum(name[i])
  {
    var name := NameToCheck(funcName, displayName);
    NoCamelWords(name);
    var ws := CamelWords(name);
    if ws != [] {
      assert IsCamelWord(ws[0]);
      assert ws[0][0] != '_';
    }
  }

  /** The key is empty exactly for `_` and for names that start with `__`: the split
      on `_` then begins with two empty pieces. */
  lemma CamelCaseEmptyKey(funcName: string, displayName: string)
    ensures var name := NameToCheck(funcName, displayName);
            ModuleByCamelCase(funcName, displayName) == [] <==>
            name == "_" || StartsWith(name, "__")
  {
    var name := NameToCheck(funcName, displayName);
    PrefixChars(name, "FUN_");
    PrefixChars(name, "DAT_");
    PrefixChars(name, "_");
    PrefixChars(name, "__");
    if '_' in name {
      SplitTwo(name);
      EmptyPieces(name);
    } else {
      var ws := CamelWords(name);
      if ws != [] {
        assert IsCamelWord(ws[0]);
      }
    }
  }

  /** The first two pieces of a split on `_` are both empty exactly when the name is
      `_` or starts with `__`. */
  lemma EmptyPieces(name: string)
    requires '_' in name
    ensures var parts := Split(name, "_");
            |parts| >= 2 &&
            (parts[0] + parts[1] == [] <==> name == "_" || (|name| >= 2 && name[0] == '_' && name[1] == '_'))
  {
    SplitTwo(name);
    var i := IndexOf(name, "_");
    OccursChars(name, "_", 0);
    if i == 0 && |name| >= 2 {
      OccursChars(name, "_", 1);
      assert IndexFrom(name, "_", 1) == 1 <==> name[1] == '_';
    }
    if name == "_" {
      assert OccursAt(name, "_", 0);
    }
  }

  // ---------------------------------------------------------------------
  // Strategy dispatch
  // ---------------------------------------------------------------------

  /** The module key under the named strategy; an unknown strategy is the prefix
      strategy. */
  function ModuleName(funcName: string, displayName: string, strategy: string): string {
    if strategy == "prefix" then ExtractPrefix(NameToCheck(funcName, displayName))
    else if strategy == "alpha" then ModuleByAlpha(funcName, displayName)
    else if strategy == "camelcase" then ModuleByCamelCase(funcName, displayName)
    else if strategy == "single" then "all_functions"
    else ExtractPrefix(NameToCheck(funcName, displayName))
  }

  /** Every strategy but `single` sends generated names to `_generated`; `single`
      sends everything to `all_functions`. */
  lemma ModuleNameGenerated(funcName: string, displayName: string, strategy: string)
    requires IsGenerated(NameToCheck(funcName, displayName))
    ensures ModuleName(funcName, displayName, strategy) ==
            if strategy == "single" then "all_functions" else "_generated"
  {
  }

  /** Only the camelcase strategy can produce an empty key. */
  lemma ModuleNameNonEmpty(funcName: string, displayName: string, strategy: string)
    requires strategy != "camelcase"
    ensures ModuleName(funcName, displayName, strategy) != []
  {
  }

  /** An unknown strategy behaves as the prefix strategy. */
  lemma UnknownStrategyIsPrefix(funcName: string, displayName: string, strategy: string)
    requires strategy !in {"prefix", "alpha", "camelcase", "single"}
    ensures ModuleName(funcName, displayName, strategy) == ModuleName(funcName, displayName, "prefix")
  {
  }
}
