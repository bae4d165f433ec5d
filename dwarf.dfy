/** The DWARF fallback: the subprograms, formal parameters and variables of a
    readelf dump of the debug information entries (sections 3.3 and 4.1 of DWARF
    Version 4) are collected per function, then used to rename the decompiler's
    `param_N` placeholders and to annotate function bodies. The dump's lines are
    taken pre-classified: each line says which entry it opens (if any), at which
    depth, and what the attribute lines under it give. */
module Dwarf {
  import opened Text
  import TypeNormalizer

  /** A formal parameter or variable: its name and the name of its type
      (`unknown` when the type could not be resolved). */
  datatype Variable = Variable(name: string, typeName: string)

  /** A subprogram with its kept parameters and local variables, in order. */
  datatype Function = Function(name: string, parameters: seq<Variable>, locals: seq<Variable>)

  /** What the dump gives: the functions by name, and whether any variable was kept. */
  datatype Info = Info(functions: map<string, Function>, hasLocalVars: bool)

  // ---------------------------------------------------------------------
  // _parse_dwarf_output
  // ---------------------------------------------------------------------

  /** The tag of the entry a line opens; `OtherTag` also stands for lines that open
      no entry (attribute lines, headers). */
  datatype Tag = Subprogram | FormalParameter | LocalVariable | OtherTag

  /** One line of the dump: the depth of its `<depth><offset>` prefix (-1 when it
      has none), its tag, and for an entry the attributes the scan of the following
      lines finds (name, resolved type name, whether it is artificial). */
  datatype DieLine = DieLine(depth: int, tag: Tag, name: string, typeName: string, artificial: bool)

  /** The parser's state: the functions stored so far, the flag, the function being
      read, whether one is open, and its depth. */
  datatype Parse = Parse(functions: map<string, Function>, hasLocalVars: bool,
                         current: Option<Function>, inFunction: bool, funcDepth: int)

  /** A variable name the parser keeps: non-empty and not starting with `__`. */
  predicate KeptName(name: string) {
    name != [] && !StartsWith(name, "__")
  }

  predicate KeepParam(l: DieLine) {
    KeptName(l.name)
  }

  /** A local is kept when its name is and it is not compiler-generated. */
  predicate KeepLocal(l: DieLine) {
    KeptName(l.name) && !l.artificial
  }

  /** Saving the function being read: only a named one is stored, under its name. */
  function Store(functions: map<string, Function>, current: Option<Function>): map<string, Function> {
    if current.Some? && current.value.name != [] then functions[current.value.name := current.value]
    else functions
  }

  /** The scope check after an entry: an entry at a depth no deeper than the open
      function's closes it. */
  function Leave(st: Parse, l: DieLine): Parse {
    if l.depth >= 0 && l.depth <= st.funcDepth && st.inFunction then
      st.(functions := Store(st.functions, st.current), current := None, inFunction := false)
    else st
  }

  /** One iteration of the parser's loop. A subprogram saves the open function and
      opens a new one; a parameter or a deeper variable of the open function is
      appended when kept; a variable no deeper than the function is skipped
      altogether (the loop `continue`s past the scope check). */
  function Step(st: Parse, l: DieLine): Parse {
    if l.tag == Subprogram then
      st.(functions := Store(st.functions, st.current), current := Some(Function(l.name, [], [])),
          inFunction := true, funcDepth := l.depth)
    else if l.tag == FormalParameter && st.current.Some? && st.inFunction then
      var f := st.current.value;
      Leave(if KeepParam(l)
            then st.(current := Some(f.(parameters := f.parameters + [Variable(l.name, l.typeName)])),
                     hasLocalVars := true)
            else st, l)
    else if l.tag == LocalVariable && st.current.Some? && st.inFunction then
      if l.depth <= st.funcDepth then st
      else
        var f := st.current.value;
        Leave(if KeepLocal(l)
              then st.(current := Some(f.(locals := f.locals + [Variable(l.name, l.typeName)])),
                       hasLocalVars := true)
              else st, l)
    else Leave(st, l)
  }

  /** The state after the loop has seen `ls`. */
  function ParseScan(ls: seq<DieLine>): Parse
    decreases |ls|
  {
    if ls == [] then Parse(map[], false, None, false, 0)
    else Step(ParseScan(ls[..|ls| - 1]), ls[|ls| - 1])
  }

  /** The parse of a whole dump: the last open function is saved at the end. */
  function ParseInfo(ls: seq<DieLine>): Info {
    var st := ParseScan(ls);
    Info(Store(st.functions, st.current), st.hasLocalVars)
  }

  /** `_parse_dwarf_output`: the while loop over the lines with its mutable state. */
  method ParseDwarfOutput(lines: seq<DieLine>) returns (info: Info)
    ensures info == ParseInfo(lines)
  {
    var functions: map<string, Function> := map[];
    var hasLocalVars := false;
    var current: Option<Function> := None;
    var inFunction := false;
    var funcDepth := 0;
    var i := 0;
    while i < |lines|
      invariant 0 <= i <= |lines|
      invariant Parse(functions, hasLocalVars, current, inFunction, funcDepth) == ParseScan(lines[..i])
    {
      var line := lines[i];
      assert lines[..i + 1][..i] == lines[..i];
      if line.tag == Subprogram {
        functions := Store(functions, current);
        current := Some(Function(line.name, [], []));
        inFunction := true;
        funcDepth := line.depth;
      } else if line.tag == FormalParameter && current.Some? && inFunction {
        if KeepParam(line) {
          var f := current.value;
          current := Some(f.(parameters := f.parameters + [Variable(line.name, line.typeName)]));
          hasLocalVars := true;
        }
      } else if line.tag == LocalVariable && current.Some? && inFunction {
        if line.depth <= funcDepth {
          i := i + 1;
          continue;
        }
        if KeepLocal(line) {
          var f := current.value;
          current := Some(f.(locals := f.locals + [Variable(line.name, line.typeName)]));
          hasLocalVars := true;
        }
      }
      if line.depth >= 0 && line.depth <= funcDepth && inFunction && line.tag != Subprogram {
        functions := Store(functions, current);
        current := None;
        inFunction := false;
      }
      i := i + 1;
    }
    assert lines[..|lines|] == lines;
    info := Info(Store(functions, current), hasLocalVars);
  }

  /** Every variable of `f` has a kept name. */
  predicate VarsKept(f: Function) {
    (forall i :: 0 <= i < |f.parameters| ==> KeptName(f.parameters[i].name)) &&
    (forall i :: 0 <= i < |f.locals| ==> KeptName(f.locals[i].name))
  }

  /** Every stored function is named, stored under its own name, and has only kept
      variables. */
  predicate StoredOk(functions: map<string, Function>) {
    forall n :: n in functions ==> n != [] && functions[n].name == n && VarsKept(functions[n])
  }

  /** The parser's invariant: a function is open exactly when one is being read, and
      everything read or stored satisfies the filters. */
  predicate ParseOk(st: Parse) {
    (st.inFunction <==> st.current.Some?) && StoredOk(st.functions) &&
    (st.current.Some? ==> VarsKept(st.current.value))
  }

  lemma StoreOk(functions: map<string, Function>, current: Option<Function>)
    requires StoredOk(functions) && (current.Some? ==> VarsKept(current.value))
    ensures StoredOk(Store(functions, current))
  {
  }

  /** Each step keeps the invariant. */
  lemma StepOk(st: Parse, l: DieLine)
    requires ParseOk(st)
    ensures ParseOk(Step(st, l))
  {
    StoreOk(st.functions, st.current);
    if l.tag != Subprogram && st.current.Some? && st.inFunction {
      var f := st.current.value;
      if l.tag == FormalParameter && KeepParam(l) {
        var g := f.(parameters := f.parameters + [Variable(l.name, l.typeName)]);
        assert VarsKept(g);
        StoreOk(st.functions, Some(g));
      } else if l.tag == LocalVariable && KeepLocal(l) {
        var g := f.(locals := f.locals + [Variable(l.name, l.typeName)]);
        assert VarsKept(g);
        StoreOk(st.functions, Some(g));
      }
    }
  }

  lemma {:induction false} ParseScanOk(ls: seq<DieLine>)
    ensures ParseOk(ParseScan(ls))
    decreases |ls|
  {
    if ls != [] {
      ParseScanOk(ls[..|ls| - 1]);
      StepOk(ParseScan(ls[..|ls| - 1]), ls[|ls| - 1]);
    }
  }

  /** Unnamed functions are never stored; every stored function sits under its own
      name, and none of its parameters or locals is unnamed or named `__…`. */
  lemma ParsedFunctionsKept(ls: seq<DieLine>)
    ensures StoredOk(ParseInfo(ls).functions)
  {
    var st := ParseScan(ls);
    ParseScanOk(ls);
    StoreOk(st.functions, st.current);
  }

  /** Line `l`, met in state `st`, adds a variable to the open function: a kept
      parameter, or a kept local deeper than the function. */
  predicate Adds(st: Parse, l: DieLine) {
    st.current.Some? && st.inFunction &&
    ((l.tag == FormalParameter && KeepParam(l)) ||
     (l.tag == LocalVariable && l.depth > st.funcDepth && KeepLocal(l)))
  }

  /** A step sets the flag exactly when its line adds a variable. */
  lemma StepFlag(st: Parse, l: DieLine)
    ensures Step(st, l).hasLocalVars == (st.hasLocalVars || Adds(st, l))
  {
  }

  /** Line `k` of `ls` adds a variable, in the state the lines before it leave. */
  predicate AddsAt(ls: seq<DieLine>, k: int)
    requires 0 <= k < |ls|
  {
    Adds(ParseScan(ls[..k]), ls[k])
  }

  /** Some line of `ls` adds a variable exactly when one before the last does or the
      last one does. */
  lemma SomeAddsSnoc(init: seq<DieLine>, ls: seq<DieLine>)
    requires |ls| == |init| + 1 && ls[..|init|] == init
    ensures (exists k :: 0 <= k < |ls| && AddsAt(ls, k)) <==>
            (exists k :: 0 <= k < |init| && AddsAt(init, k)) || AddsAt(ls, |init|)
  {
    forall k | 0 <= k < |init|
      ensures AddsAt(ls, k) == AddsAt(init, k)
    {
      assert ls[..k] == init[..k];
    }
  }

  /** `has_local_vars` is set exactly when some line adds a variable. */
  lemma {:induction false} HasLocalVarsExactly(ls: seq<DieLine>)
    ensures ParseInfo(ls).hasLocalVars <==> exists k :: 0 <= k < |ls| && AddsAt(ls, k)
    decreases |ls|
  {
    if ls != [] {
      var n := |ls| - 1;
      var init := ls[..n];
      HasLocalVarsExactly(init);
      StepFlag(ParseScan(init), ls[n]);
      SomeAddsSnoc(init, ls);
    }
  }

  /** A variable entry no deeper than the open function changes nothing at all: it
      is neither kept nor does it close the function. */
  lemma GlobalVariableIgnored(st: Parse, l: DieLine)
    requires l.tag == LocalVariable && st.current.Some? && st.inFunction && l.depth <= st.funcDepth
    ensures Step(st, l) == st
  {
  }

  // ---------------------------------------------------------------------
  // generate_variable_comment
  // ---------------------------------------------------------------------

  /** `type name`, or the bare name when the type is `unknown`. */
  function VarText(v: Variable): string {
    if v.typeName != "unknown" then v.typeName + " " + v.name else v.name
  }

  /** The entry of each variable, in order. */
  function VarTexts(vs: seq<Variable>): (ts: seq<string>)
    ensures |ts| == |vs|
    decreases |vs|
  {
    if vs == [] then [] else VarTexts(vs[..|vs| - 1]) + [VarText(vs[|vs| - 1])]
  }

  /** The `i`-th entry is the `i`-th variable's text. */
  lemma {:induction false} VarTextsAt(vs: seq<Variable>, i: int)
    requires 0 <= i < |vs|
    ensures VarTexts(vs)[i] == VarText(vs[i])
    decreases |vs|
  {
    if i < |vs| - 1 {
      VarTextsAt(vs[..|vs| - 1], i);
    }
  }

  const ParamsHead := "Original params: "
  const LocalsHead := "Original locals: "

  /** The part listing the parameters. */
  function ParamsPart(ps: seq<Variable>): string {
    ParamsHead + Join(VarTexts(ps), ", ")
  }

  /** The part listing the first eight locals, with the count of the others. */
  function LocalsPart(vs: seq<Variable>): string {
    var shown := if |vs| > 8 then vs[..8] else vs;
    LocalsHead + Join(VarTexts(shown), ", ") +
    (if |vs| > 8 then " + " + NatToString(|vs| - 8) + " more" else "")
  }

  /** The comment of a function: its parts joined by ` | ` inside `/* … */`, or the
      empty text when there is nothing to say. */
  function VariableComment(f: Function): string {
    var parts := (if f.parameters != [] then [ParamsPart(f.parameters)] else []) +
                 (if f.locals != [] then [LocalsPart(f.locals)] else []);
    if parts == [] then "" else "/* " + Join(parts, " | ") + " */"
  }

  /** `generate_variable_comment`: the loops collecting the entries, then the parts. */
  method GenerateVariableComment(f: Function) returns (r: string)
    ensures r == VariableComment(f)
  {
    var parts: seq<string> := [];
    if f.parameters != [] {
      var paramStrs := CollectVarTexts(f.parameters);
      parts := parts + [ParamsHead + Join(paramStrs, ", ")];
    }
    assert parts == if f.parameters != [] then [ParamsPart(f.parameters)] else [];
    if f.locals != [] {
      var shown := if |f.locals| > 8 then f.locals[..8] else f.locals;
      var varStrs := CollectVarTexts(shown);
      var comment := LocalsHead + Join(varStrs, ", ");
      if |f.locals| > 8 {
        comment := comment + " + " + NatToString(|f.locals| - 8) + " more";
      }
      assert comment == LocalsPart(f.locals);
      parts := parts + [comment];
    }
    if parts == [] {
      return "";
    }
    r := "/* " + Join(parts, " | ") + " */";
  }

  /** One of the loops of `generate_variable_comment`: the entry of each variable. */
  method CollectVarTexts(vs: seq<Variable>) returns (ts: seq<string>)
    ensures ts == VarTexts(vs)
  {
    ts := [];
    for i := 0 to |vs|
      invariant ts == VarTexts(vs[..i])
    {
      assert vs[..i + 1][..i] == vs[..i];
      ts := ts + [VarText(vs[i])];
    }
    assert vs[..|vs|] == vs;
  }

  /** The comment is empty exactly when the function has neither parameters nor
      locals; otherwise it is a `/* … */` comment whose first part lists the
      parameters when there are any, and the locals otherwise. */
  lemma VariableCommentShape(f: Function)
    ensures VariableComment(f) == [] <==> f.parameters == [] && f.locals == []
    ensures VariableComment(f) != [] ==>
              StartsWith(VariableComment(f), "/* " + (if f.parameters != [] then ParamsHead else LocalsHead)) &&
              EndsWith(VariableComment(f), " */")
  {
    if f.parameters != [] || f.locals != [] {
      var parts := (if f.parameters != [] then [ParamsPart(f.parameters)] else []) +
                   (if f.locals != [] then [LocalsPart(f.locals)] else []);
      if f.parameters != [] {
        StartsWithCat(ParamsHead, Join(VarTexts(f.parameters), ", "));
        CommentPrefix(parts, ParamsHead);
      } else {
        var shown := if |f.locals| > 8 then f.locals[..8] else f.locals;
        StartsWithCat(LocalsHead, Join(VarTexts(shown), ", ") +
                           (if |f.locals| > 8 then " + " + NatToString(|f.locals| - 8) + " more" else ""));
        CommentPrefix(parts, LocalsHead);
      }
    }
  }

  lemma StartsWithCat(pre: string, rest: string)
    ensures StartsWith(pre + rest, pre)
  {
    assert (pre + rest)[..|pre|] == pre;
  }

  /** A comment of parts starts with the prefix of its first part. */
  lemma CommentPrefix(parts: seq<string>, pre: string)
    requires parts != [] && StartsWith(parts[0], pre)
    ensures var c := "/* " + Join(parts, " | ") + " */";
            StartsWith(c, "/* " + pre) && EndsWith(c, " */")
  {
    var j := Join(parts, " | ");
    JoinHead(parts, " | ");
    assert j[..|pre|] == pre;
    var c := "/* " + j + " */";
    assert c[..3 + |pre|] == "/* " + j[..|pre|];
    assert c[|c| - 3..] == " */";
  }

  /** A join starts with its first part. */
  lemma JoinHead(parts: seq<string>, sep: string)
    requires parts != []
    ensures |parts[0]| <= |Join(parts, sep)| && Join(parts, sep)[..|parts[0]|] == parts[0]
  {
    if |parts| > 1 {
      JoinCons(parts[0], parts[1..], sep);
      assert [parts[0]] + parts[1..] == parts;
    }
  }

  /** With more than eight locals, exactly eight are listed, then the count of the
      rest; otherwise all are listed. */
  lemma LocalsPartCount(vs: seq<Variable>)
    ensures |vs| > 8 ==> EndsWith(LocalsPart(vs), " + " + NatToString(|vs| - 8) + " more")
    ensures |vs| <= 8 ==> LocalsPart(vs) == LocalsHead + Join(VarTexts(vs), ", ")
  {
  }

  // ---------------------------------------------------------------------
  // create_variable_mapping
  // ---------------------------------------------------------------------

  /** The decompiler's name for the `k`-th parameter (from 1). */
  function ParamName(k: nat): string {
    "param_" + NatToString(k)
  }

  lemma ParamNameInjective(a: nat, b: nat)
    requires ParamName(a) == ParamName(b)
    ensures a == b
  {
    assert NatToString(a) == ParamName(a)[6..];
    assert NatToString(b) == ParamName(b)[6..];
    NatToStringInjective(a, b);
  }

  /** `param_{i+1}` → the `i`-th parameter's name, for every parameter. */
  function ParamMapping(ps: seq<Variable>): map<string, string>
    decreases |ps|
  {
    if ps == [] then map[] else ParamMapping(ps[..|ps| - 1])[ParamName(|ps|) := ps[|ps| - 1].name]
  }

  /** The mapping's keys are exactly `param_1` … `param_n`, each mapped to the name of
      its parameter. */
  lemma {:induction false} ParamMappingMeaning(ps: seq<Variable>)
    ensures forall k :: 1 <= k <= |ps| ==>
              ParamName(k) in ParamMapping(ps) && ParamMapping(ps)[ParamName(k)] == ps[k - 1].name
    ensures forall key :: key in ParamMapping(ps) ==> exists k :: 1 <= k <= |ps| && key == ParamName(k)
    decreases |ps|
  {
    if ps != [] {
      var n := |ps|;
      var init := ps[..n - 1];
      ParamMappingMeaning(init);
      var m := ParamMapping(ps);
      assert m == ParamMapping(init)[ParamName(n) := ps[n - 1].name];
      forall k | 1 <= k <= n
        ensures ParamName(k) in m && m[ParamName(k)] == ps[k - 1].name
      {
        if k < n {
          if ParamName(k) == ParamName(n) {
            ParamNameInjective(k, n);
          }
          assert init[k - 1] == ps[k - 1];
        }
      }
    }
  }

  /** The inner loop of `create_variable_mapping`. */
  method BuildParamMapping(ps: seq<Variable>) returns (m: map<string, string>)
    ensures m == ParamMapping(ps)
  {
    m := map[];
    for i := 0 to |ps|
      invariant m == ParamMapping(ps[..i])
    {
      assert ps[..i + 1][..i] == ps[..i];
      m := m[ParamName(i + 1) := ps[i].name];
    }
    assert ps[..|ps|] == ps;
  }

  /** `create_variable_mapping`: a function is present exactly when it has parameters,
      and then maps every `param_k` to its `k`-th parameter's name. */
  function CreateVariableMapping(info: Info): (r: map<string, map<string, string>>)
    ensures forall n :: n in r <==> n in info.functions && info.functions[n].parameters != []
    ensures forall n :: n in r ==> r[n] == ParamMapping(info.functions[n].parameters)
  {
    map n | n in info.functions && info.functions[n].parameters != [] :: ParamMapping(info.functions[n].parameters)
  }

  // ---------------------------------------------------------------------
  // apply_dwarf_to_code
  // ---------------------------------------------------------------------

  /** The substitutions for a function: `\bparam_{k}\b` → the `k`-th parameter's name,
      applied in parameter order. */
  function ParamTable(ps: seq<Variable>): (t: seq<(string, string)>)
    ensures |t| == |ps|
    ensures forall i :: 0 <= i < |ps| ==> t[i] == (ParamName(i + 1), ps[i].name)
  {
    seq(|ps|, i requires 0 <= i < |ps| => (ParamName(i + 1), ps[i].name))
  }

  /** The whole-word substitutions of one line. */
  function SubstParams(ps: seq<Variable>, line: string): string {
    TypeNormalizer.ApplyTable(line, ParamTable(ps))
  }

  /** The word runs of the parameter names. */
  function NameWords(ps: seq<Variable>): set<string>
    decreases |ps|
  {
    if ps == [] then {}
    else
      var ws := Words(ps[|ps| - 1].name);
      NameWords(ps[..|ps| - 1]) + set i | 0 <= i < |ws| :: ws[i]
  }

  lemma {:induction false} NameWordsOf(ps: seq<Variable>)
    ensures forall i, x :: 0 <= i < |ps| && x in Words(ps[i].name) ==> x in NameWords(ps)
    decreases |ps|
  {
    if ps != [] {
      NameWordsOf(ps[..|ps| - 1]);
    }
  }

  /** Only `param_k` words change: every word of the result is a word of the line
      that is no `param_k` with `k` at most the parameter count, or a word of a
      parameter name. So a `param_k` survives only where a name brings it back. */
  lemma SubstParamsWords(ps: seq<Variable>, line: string)
    ensures forall x :: x in Words(SubstParams(ps, line)) ==>
              (x in Words(line) && forall k :: 1 <= k <= |ps| ==> x != ParamName(k)) || x in NameWords(ps)
  {
    var t := ParamTable(ps);
    NameWordsOf(ps);
    TypeNormalizer.ApplyTableWords(line, t, NameWords(ps));
    forall x | x in Words(SubstParams(ps, line)) && x !in NameWords(ps)
      ensures forall k :: 1 <= k <= |ps| ==> x != ParamName(k)
    {
      forall k | 1 <= k <= |ps| ensures x != ParamName(k) {
        assert t[k - 1].0 == ParamName(k);
      }
    }
  }

  /** A line without any `param_k` word is left as it is. */
  lemma SubstParamsAbsent(ps: seq<Variable>, line: string)
    requires forall k :: 1 <= k <= |ps| ==> ParamName(k) !in Words(line)
    ensures SubstParams(ps, line) == line
  {
    var t := ParamTable(ps);
    assert forall i :: 0 <= i < |t| ==> t[i].0 == ParamName(i + 1);
    TypeNormalizer.ApplyTableAbsent(line, t);
  }

  /** When no parameter name itself holds a `param_k` word, the substitutions act
      at once: every word `param_k` with `k` at most the parameter count becomes the
      `k`-th parameter's name, and every other word is kept. */
  lemma SubstParamsRenames(ps: seq<Variable>, line: string)
    requires forall i, k :: 0 <= i < |ps| && 1 <= k <= |ps| ==> ParamName(k) !in Words(ps[i].name)
    ensures SubstParams(ps, line) ==
            TypeNormalizer.MapRuns(line, w => if w in ParamMapping(ps) then ParamMapping(ps)[w] else w)
  {
    var t := ParamTable(ps);
    var m := ParamMapping(ps);
    assert forall i, j :: 0 <= i < |t| && 0 <= j < |t| ==> t[j].0 !in Words(t[i].1) by {
      forall i, j | 0 <= i < |t| && 0 <= j < |t| ensures t[j].0 !in Words(t[i].1) {
        assert t[j].0 == ParamName(j + 1) && t[i].1 == ps[i].name;
      }
    }
    TypeNormalizer.ApplyTableRuns(line, t);
    forall w | w in Words(line)
      ensures TypeNormalizer.Renamed(t, w) == (if w in m then m[w] else w)
    {
      ParamTableRenamed(ps, w);
    }
    TypeNormalizer.MapRunsExt(line, w => TypeNormalizer.Renamed(t, w), w => if w in m then m[w] else w);
  }

  /** Looking a word up in the substitution table agrees with the mapping. */
  lemma ParamTableRenamed(ps: seq<Variable>, w: string)
    ensures TypeNormalizer.Renamed(ParamTable(ps), w) ==
            (if w in ParamMapping(ps) then ParamMapping(ps)[w] else w)
  {
    var t := ParamTable(ps);
    if w in ParamMapping(ps) {
      var k := ParamIndexOf(ps, w);
      ParamTableDistinct(ps);
      TypeNormalizer.RenamedAt(t, k - 1);
    } else {
      forall j | 0 <= j < |t| ensures t[j].0 != w {
        ParamMappingAt(ps, j + 1);
      }
      TypeNormalizer.RenamedAbsent(t, w);
    }
  }

  lemma ParamMappingAt(ps: seq<Variable>, k: nat)
    requires 1 <= k <= |ps|
    ensures ParamName(k) in ParamMapping(ps) && ParamMapping(ps)[ParamName(k)] == ps[k - 1].name
  {
    ParamMappingMeaning(ps);
  }

  /** The position of a key of the mapping. */
  lemma ParamIndexOf(ps: seq<Variable>, key: string) returns (k: nat)
    requires key in ParamMapping(ps)
    ensures 1 <= k <= |ps| && key == ParamName(k) && ParamMapping(ps)[key] == ps[k - 1].name
  {
    ParamMappingMeaning(ps);
    k :| 1 <= k <= |ps| && key == ParamName(k);
  }

  lemma ParamTableDistinct(ps: seq<Variable>)
    ensures forall a, b :: 0 <= a < b < |ParamTable(ps)| ==> ParamTable(ps)[a].0 != ParamTable(ps)[b].0
  {
    var t := ParamTable(ps);
    forall a, b | 0 <= a < b < |t| ensures t[a].0 != t[b].0 {
      if t[a].0 == t[b].0 {
        ParamNameInjective(a + 1, b + 1);
      }
    }
  }

  /** `re.match(r"^(\w+)\s+(\w+)\s*\(", line.strip())`: the second word, when the
      stripped line is a word, spaces, a word, optional spaces and `(`. (Each group
      is forced to be maximal, so the match is unique.) */
  function DefName(line: string): (r: Option<string>)
    ensures r.Some? ==> r.value != [] && AllWordChars(r.value)
  {
    var t := Strip(line);
    var a := Span(t, IsWordChar);
    if a == 0 then None
    else
      var b := RunEnd(t, a, IsSpace);
      if b == a then None
      else
        var c := RunEnd(t, b, IsWordChar);
        if c == b then None
        else
          var d := RunEnd(t, c, IsSpace);
          if d < |t| && t[d] == '(' then Some(WordAt(t, b, c)) else None
  }

  /** The word run `s[b..c]` found by `RunEnd`. */
  function WordAt(s: string, b: nat, c: nat): (w: string)
    requires b <= c <= |s| && forall i :: b <= i < c ==> IsWordChar(s[i])
    ensures w == s[b..c] && AllWordChars(w)
  {
    s[b..c]
  }

  /** The change in brace depth a line causes. */
  function Braces(line: string): int {
    CountChar(line, '{') - CountChar(line, '}')
  }

  /** The items of the inserted locals comment: the names of the first ten locals,
      in order, then `+N` for the N others when there are more than ten. */
  function LocalsItems(vs: seq<Variable>): (items: seq<string>)
    ensures |items| == (if |vs| > 10 then 11 else |vs|)
    ensures forall i :: 0 <= i < |items| && i < 10 && i < |vs| ==> items[i] == vs[i].name
    ensures |vs| > 10 ==> items[10] == "+" + NatToString(|vs| - 10) + " more"
  {
    var shown := if |vs| > 10 then vs[..10] else vs;
    seq(|shown|, i requires 0 <= i < |shown| => shown[i].name) +
    (if |vs| > 10 then ["+" + NatToString(|vs| - 10) + " more"] else [])
  }

  /** The comment inserted after the line opening a body with locals. */
  function LocalsComment(vs: seq<Variable>): string {
    "/* Original locals: " + Join(LocalsItems(vs), ", ") + " */"
  }

  /** The pass's state: the output, one block per input line (the line, possibly
      followed by an inserted comment); the function being rewritten; the brace
      depth; and whether its body has opened. */
  datatype Apply = Apply(blocks: seq<seq<string>>, current: Option<Function>, depth: int, inBody: bool)

  /** A rewriting of a line by a function's parameters. The pass itself uses
      `SubstParams`; the lemmas about the pass's control hold for any rewriting. */
  type Rewrite = (seq<Variable>, string) -> string

  /** A depth-0 line that defines a function the dump knows. */
  predicate Defines(depth: int, line: string, functions: map<string, Function>) {
    depth == 0 && DefName(line).Some? && DefName(line).value in functions
  }

  /** The function in force for a line: the one it defines, else the current one. */
  function Selected(st: Apply, line: string, functions: map<string, Function>): Option<Function> {
    if Defines(st.depth, line, functions) then Some(functions[DefName(line).value]) else st.current
  }

  /** The signature pass: a defining line has its function's parameters substituted. */
  function SignatureText(st: Apply, line: string, functions: map<string, Function>, sub: Rewrite): string {
    if Defines(st.depth, line, functions) && functions[DefName(line).value].parameters != []
    then sub(functions[DefName(line).value].parameters, line) else line
  }

  /** The emitted line: after the signature pass, every line of the selected
      function has its parameters substituted (the body pass). */
  function LineText(st: Apply, line: string, functions: map<string, Function>, sub: Rewrite): string {
    var current := Selected(st, line, functions);
    if current.Some? && current.value.parameters != []
    then sub(current.value.parameters, SignatureText(st, line, functions, sub))
    else SignatureText(st, line, functions, sub)
  }

  /** The line opening the body of the function in force. */
  predicate Opens(st: Apply, line: string, selected: Option<Function>) {
    selected.Some? && '{' in line && !st.inBody
  }

  /** The lines emitted for one input line: its rewritten text, then the locals
      comment after the line opening the body of a function with locals. */
  function Block(st: Apply, line: string, text: string, selected: Option<Function>): seq<string> {
    [text] + (if Opens(st, line, selected) && selected.value.locals != []
              then [LocalsComment(selected.value.locals)] else [])
  }

  /** One iteration, given the rewritten text and the function in force: the block
      is emitted, the depth updated, and the function ends when the depth is back
      at 0 inside its body. */
  function StepWith(st: Apply, line: string, text: string, selected: Option<Function>): Apply {
    var depth := st.depth + Braces(line);
    var inBody := st.inBody || Opens(st, line, selected);
    if depth == 0 && inBody then Apply(st.blocks + [Block(st, line, text, selected)], None, depth, false)
    else Apply(st.blocks + [Block(st, line, text, selected)], selected, depth, inBody)
  }

  /** One iteration of the pass. */
  function ApplyStep(st: Apply, line: string, functions: map<string, Function>, sub: Rewrite): Apply {
    StepWith(st, line, LineText(st, line, functions, sub), Selected(st, line, functions))
  }

  /** The state after the loop has seen `ls`. */
  function ApplyScan(ls: seq<string>, functions: map<string, Function>, sub: Rewrite): Apply
    decreases |ls|
  {
    if ls == [] then Apply([], None, 0, false)
    else ApplyStep(ApplyScan(ls[..|ls| - 1], functions, sub), ls[|ls| - 1], functions, sub)
  }

  /** The blocks laid end to end. */
  function Flatten(bs: seq<seq<string>>): seq<string>
    decreases |bs|
  {
    if bs == [] then [] else Flatten(bs[..|bs| - 1]) + bs[|bs| - 1]
  }

  /** The output lines of the pass over `ls`. */
  function ApplyLines(ls: seq<string>, functions: map<string, Function>): seq<string> {
    Flatten(ApplyScan(ls, functions, SubstParams).blocks)
  }

  /** `apply_dwarf_to_code` as a value. */
  function ApplyDwarf(code: string, info: Info): string {
    if info.functions == map[] then code
    else Join(ApplyLines(Split(code, "\n"), info.functions), "\n")
  }

  /** `apply_dwarf_to_code`: the while loop over the lines, appending to the result. */
  method ApplyDwarfToCode(code: string, info: Info) returns (r: string)
    ensures r == ApplyDwarf(code, info)
  {
    if info.functions == map[] {
      return code;
    }
    var fns := info.functions;
    var lines := Split(code, "\n");
    var resultLines: seq<string> := [];
    ghost var blocks: seq<seq<string>> := [];
    var current: Option<Function> := None;
    var braceDepth := 0;
    var inBody := false;
    var i := 0;
    while i < |lines|
      invariant 0 <= i <= |lines|
      invariant Apply(blocks, current, braceDepth, inBody) == ApplyScan(lines[..i], fns, SubstParams)
      invariant resultLines == Flatten(blocks)
    {
      assert lines[..i + 1][..i] == lines[..i];
      assert ApplyScan(lines[..i + 1], fns, SubstParams) ==
             ApplyStep(ApplyScan(lines[..i], fns, SubstParams), lines[i], fns, SubstParams);
      var block;
      block, current, braceDepth, inBody := ApplyLine(blocks, current, braceDepth, inBody, lines[i], fns);
      assert (blocks + [block])[..|blocks|] == blocks;
      assert Flatten(blocks + [block]) == Flatten(blocks) + block;
      resultLines := resultLines + block;
      blocks := blocks + [block];
      i := i + 1;
    }
    assert lines[..|lines|] == lines;
    r := Join(resultLines, "\n");
  }

  /** The body of the loop for one line: the lines it emits and the new state. */
  method ApplyLine(ghost blocks: seq<seq<string>>, current: Option<Function>, braceDepth: int, inBody: bool,
                   line: string, fns: map<string, Function>)
    returns (block: seq<string>, current': Option<Function>, braceDepth': int, inBody': bool)
    ensures Apply(blocks + [block], current', braceDepth', inBody') ==
            ApplyStep(Apply(blocks, current, braceDepth, inBody), line, fns, SubstParams)
  {
    ghost var st := Apply(blocks, current, braceDepth, inBody);
    var selected, modified := SubstituteLine(blocks, current, braceDepth, inBody, line, fns);
    block, current', braceDepth', inBody' := FinishLine(st, selected, braceDepth, inBody, line, modified);
  }

  /** The rest of the loop body once the line is rewritten: the locals comment
      after the line opening the body, the depth update and the end of the
      function when the depth is back at 0 inside its body. */
  method FinishLine(ghost st: Apply, selected: Option<Function>, braceDepth: int, inBody: bool,
                    line: string, modified: string)
    returns (block: seq<string>, current': Option<Function>, braceDepth': int, inBody': bool)
    requires braceDepth == st.depth && inBody == st.inBody
    ensures Apply(st.blocks + [block], current', braceDepth', inBody') == StepWith(st, line, modified, selected)
  {
    current' := selected;
    var openBraces, closeBraces := CountChar(line, '{'), CountChar(line, '}');
    block := [modified];
    braceDepth' := braceDepth + openBraces - closeBraces;
    inBody' := inBody;
    if current'.Some? && '{' in line && !inBody' {
      inBody' := true;
      if current'.value.locals != [] {
        block := block + [LocalsComment(current'.value.locals)];
      }
    }
    assert block == Block(st, line, modified, selected);
    assert braceDepth' == st.depth + Braces(line);
    if braceDepth' == 0 && inBody' {
      current' := None;
      inBody' := false;
    }
    StepOfParts(st, line, modified, selected, block, current', braceDepth', inBody');
  }

  /** `StepWith` from the loop body's variables. */
  lemma StepOfParts(st: Apply, line: string, text: string, selected: Option<Function>, block: seq<string>,
                    current': Option<Function>, depth': int, inBody': bool)
    requires block == Block(st, line, text, selected)
    requires depth' == st.depth + Braces(line)
    requires if depth' == 0 && (st.inBody || Opens(st, line, selected)) then current' == None && !inBody'
             else current' == selected && inBody' == (st.inBody || Opens(st, line, selected))
    ensures Apply(st.blocks + [block], current', depth', inBody') == StepWith(st, line, text, selected)
  {
  }

  /** The signature pass and the body pass on one line: the function in force and
      the rewritten text. */
  method SubstituteLine(ghost blocks: seq<seq<string>>, current: Option<Function>, braceDepth: int, inBody: bool,
                        line: string, fns: map<string, Function>)
    returns (current': Option<Function>, modified: string)
    ensures current' == Selected(Apply(blocks, current, braceDepth, inBody), line, fns)
    ensures modified == LineText(Apply(blocks, current, braceDepth, inBody), line, fns, SubstParams)
  {
    current', modified := SignaturePass(blocks, current, braceDepth, inBody, line, fns);
    if current'.Some? && current'.value.parameters != [] {
      modified := SubstParams(current'.value.parameters, modified);
    }
  }

  /** The signature pass: a depth-0 line defining a known function selects it and
      has its parameters substituted. */
  method SignaturePass(ghost blocks: seq<seq<string>>, current: Option<Function>, braceDepth: int, inBody: bool,
                       line: string, fns: map<string, Function>)
    returns (current': Option<Function>, modified: string)
    ensures current' == Selected(Apply(blocks, current, braceDepth, inBody), line, fns)
    ensures modified == SignatureText(Apply(blocks, current, braceDepth, inBody), line, fns, SubstParams)
  {
    current' := current;
    modified := line;
    var defName := DefName(line);
    if defName.Some? && braceDepth == 0 {
      if defName.value in fns {
        current' := Some(fns[defName.value]);
        if current'.value.parameters != [] {
          modified := SubstParams(current'.value.parameters, modified);
        }
      }
    }
  }

  /** Without DWARF functions the code is returned unchanged. */
  lemma ApplyNoFunctions(code: string, info: Info)
    requires info.functions == map[]
    ensures ApplyDwarf(code, info) == code
  {
  }

  /** The running depth of the lines before a point. */
  function DepthOf(ls: seq<string>): int
    decreases |ls|
  {
    if ls == [] then 0 else DepthOf(ls[..|ls| - 1]) + Braces(ls[|ls| - 1])
  }

  /** One block per line, holding just the line. */
  function Singletons(ls: seq<string>): seq<seq<string>>
    decreases |ls|
  {
    if ls == [] then [] else Singletons(ls[..|ls| - 1]) + [[ls[|ls| - 1]]]
  }

  /** Outside any selected function, a line that defines no known function is
      emitted as it is. */
  lemma ApplyStepUntouched(st: Apply, line: string, functions: map<string, Function>, sub: Rewrite)
    requires st.current == None && !st.inBody && !Defines(st.depth, line, functions)
    ensures ApplyStep(st, line, functions, sub) == Apply(st.blocks + [[line]], None, st.depth + Braces(line), false)
  {
    assert Block(st, line, line, None) == [line];
  }

  /** When no line at depth 0 defines a known function, the pass never selects one:
      every line is emitted as it is, and nothing is inserted. */
  lemma {:induction false} ApplyScanUntouched(ls: seq<string>, functions: map<string, Function>, sub: Rewrite)
    requires forall k :: 0 <= k < |ls| ==> !Defines(DepthOf(ls[..k]), ls[k], functions)
    ensures ApplyScan(ls, functions, sub) == Apply(Singletons(ls), None, DepthOf(ls), false)
    decreases |ls|
  {
    if ls != [] {
      var n := |ls| - 1;
      var init := ls[..n];
      forall k | 0 <= k < n
        ensures !Defines(DepthOf(init[..k]), init[k], functions)
      {
        assert init[..k] == ls[..k];
      }
      ApplyScanUntouched(init, functions, sub);
      assert ls[..n] == init;
      var st := ApplyScan(init, functions, sub);
      assert ApplyScan(ls, functions, sub) == ApplyStep(st, ls[n], functions, sub);
      assert Singletons(ls) == Singletons(init) + [[ls[n]]];
      assert DepthOf(ls) == st.depth + Braces(ls[n]);
      ApplyStepUntouched(st, ls[n], functions, sub);
    }
  }

  lemma {:induction false} FlattenSingletons(ls: seq<string>)
    ensures Flatten(Singletons(ls)) == ls
    decreases |ls|
  {
    if ls != [] {
      var n := |ls| - 1;
      FlattenSingletons(ls[..n]);
      assert ls[..n] + [ls[n]] == ls;
    }
  }

  /** The code comes back line for line unchanged when no depth-0 definition line
      names a function of the dump. */
  lemma ApplyDwarfUntouched(code: string, info: Info)
    requires var ls := Split(code, "\n");
             forall k :: 0 <= k < |ls| ==> !Defines(DepthOf(ls[..k]), ls[k], info.functions)
    ensures ApplyDwarf(code, info) == code
  {
    if info.functions != map[] {
      var ls := Split(code, "\n");
      ApplyScanUntouched(ls, info.functions, SubstParams);
      FlattenSingletons(ls);
      JoinSplit(code, "\n");
    }
  }

  /** The block of line `k` of `ls`: the one the state left by the lines before it
      gives. */
  function BlockAt(ls: seq<string>, k: int, functions: map<string, Function>, sub: Rewrite): seq<string>
    requires 0 <= k < |ls|
  {
    var st := ApplyScan(ls[..k], functions, sub);
    Block(st, ls[k], LineText(st, ls[k], functions, sub), Selected(st, ls[k], functions))
  }

  /** Line `k` of `ls` opens the body of the function in force, and that function
      has locals: the locals comment follows it. */
  predicate InsertsAt(ls: seq<string>, k: int, functions: map<string, Function>, sub: Rewrite)
    requires 0 <= k < |ls|
  {
    var st := ApplyScan(ls[..k], functions, sub);
    var f := Selected(st, ls[k], functions);
    Opens(st, ls[k], f) && f.value.locals != []
  }

  /** The pass emits one block per line, in input order, each the block of the state
      before that line. */
  lemma {:induction false} ApplyScanBlocks(ls: seq<string>, functions: map<string, Function>, sub: Rewrite)
    ensures |ApplyScan(ls, functions, sub).blocks| == |ls|
    ensures forall k :: 0 <= k < |ls| ==> ApplyScan(ls, functions, sub).blocks[k] == BlockAt(ls, k, functions, sub)
    decreases |ls|
  {
    if ls != [] {
      var n := |ls| - 1;
      var init := ls[..n];
      ApplyScanBlocks(init, functions, sub);
      BlocksSnoc(ls, functions, sub);
    }
  }

  lemma BlocksSnoc(ls: seq<string>, functions: map<string, Function>, sub: Rewrite)
    requires ls != []
    requires var init := ls[..|ls| - 1];
             |ApplyScan(init, functions, sub).blocks| == |init| &&
             forall k :: 0 <= k < |init| ==> ApplyScan(init, functions, sub).blocks[k] == BlockAt(init, k, functions, sub)
    ensures |ApplyScan(ls, functions, sub).blocks| == |ls|
    ensures forall k :: 0 <= k < |ls| ==> ApplyScan(ls, functions, sub).blocks[k] == BlockAt(ls, k, functions, sub)
  {
    var n := |ls| - 1;
    var ibs := ApplyScan(ls[..n], functions, sub).blocks;
    var bs := ApplyScan(ls, functions, sub).blocks;
    assert BlocksAre(ls[..n], ibs, functions, sub);
    ScanBlocksSnoc(ls, functions, sub);
    assert bs[..n] == ibs;
    BlocksAreSnoc(ls, bs, functions, sub);
  }

  /** `bs` holds the block of every line of `ls`, in order. */
  predicate BlocksAre(ls: seq<string>, bs: seq<seq<string>>, functions: map<string, Function>, sub: Rewrite) {
    |bs| == |ls| && forall k :: 0 <= k < |ls| ==> bs[k] == BlockAt(ls, k, functions, sub)
  }

  /** The blocks of the lines before the last, then the last line's block, are the
      blocks of all the lines. */
  lemma BlocksAreSnoc(ls: seq<string>, bs: seq<seq<string>>, functions: map<string, Function>, sub: Rewrite)
    requires ls != [] && |bs| == |ls|
    requires BlocksAre(ls[..|ls| - 1], bs[..|bs| - 1], functions, sub)
    requires bs[|bs| - 1] == BlockAt(ls, |ls| - 1, functions, sub)
    ensures BlocksAre(ls, bs, functions, sub)
  {
    var init := ls[..|ls| - 1];
    forall k | 0 <= k < |ls| ensures bs[k] == BlockAt(ls, k, functions, sub) {
      if k < |init| {
        assert bs[k] == bs[..|bs| - 1][k];
        BlockAtPrefix(ls, init, k, functions, sub);
      } else {
        assert k == |bs| - 1;
      }
    }
  }

  /** The block of a line depends only on the lines up to it. */
  lemma BlockAtPrefix(ls: seq<string>, init: seq<string>, k: int, functions: map<string, Function>, sub: Rewrite)
    requires |init| <= |ls| && init == ls[..|init|] && 0 <= k < |init|
    ensures BlockAt(init, k, functions, sub) == BlockAt(ls, k, functions, sub)
  {
    assert init[..k] == ls[..k];
    assert init[k] == ls[k];
  }

  /** The pass over `ls` emits the blocks of the lines before the last, then the
      last line's block. */
  lemma ScanBlocksSnoc(ls: seq<string>, functions: map<string, Function>, sub: Rewrite)
    requires ls != []
    ensures ApplyScan(ls, functions, sub).blocks ==
            ApplyScan(ls[..|ls| - 1], functions, sub).blocks + [BlockAt(ls, |ls| - 1, functions, sub)]
  {
  }

  lemma FlattenSnoc(bs: seq<seq<string>>, b: seq<string>)
    ensures Flatten(bs + [b]) == Flatten(bs) + b
  {
    assert (bs + [b])[..|bs|] == bs;
  }

  /** Every line yields its rewritten text; the locals comment of the function in
      force follows exactly the line that opens that function's body, when it has
      locals — a line holding `{` — and no other line gets anything after it. */
  lemma BlockAtShape(ls: seq<string>, k: int, functions: map<string, Function>, sub: Rewrite)
    requires 0 <= k < |ls|
    ensures var b := BlockAt(ls, k, functions, sub);
            var st := ApplyScan(ls[..k], functions, sub);
            1 <= |b| <= 2 && b[0] == LineText(st, ls[k], functions, sub) &&
            (|b| == 2 <==> InsertsAt(ls, k, functions, sub)) &&
            (InsertsAt(ls, k, functions, sub) ==>
               '{' in ls[k] && b[1] == LocalsComment(Selected(st, ls[k], functions).value.locals))
  {
  }

  /** The number of lines after which a locals comment is inserted. */
  function InsertCount(ls: seq<string>, functions: map<string, Function>, sub: Rewrite): nat
    decreases |ls|
  {
    if ls == [] then 0
    else InsertCount(ls[..|ls| - 1], functions, sub) + (if InsertsAt(ls, |ls| - 1, functions, sub) then 1 else 0)
  }

  /** The output has one line per input line plus one per inserted comment. */
  lemma {:induction false} OutputLength(ls: seq<string>, functions: map<string, Function>, sub: Rewrite)
    ensures |Flatten(ApplyScan(ls, functions, sub).blocks)| == |ls| + InsertCount(ls, functions, sub)
    decreases |ls|
  {
    if ls != [] {
      var n := |ls| - 1;
      var init := ls[..n];
      OutputLength(init, functions, sub);
      ScanBlocksSnoc(ls, functions, sub);
      FlattenSnoc(ApplyScan(init, functions, sub).blocks, BlockAt(ls, n, functions, sub));
      BlockAtShape(ls, n, functions, sub);
    }
  }

  /** The state after the first `k` lines is the step over line `j`, the last of
      them, of the state before it. */
  lemma ScanBefore(ls: seq<string>, j: int, k: int, functions: map<string, Function>, sub: Rewrite)
    requires 0 <= j && k == j + 1 && k <= |ls|
    ensures ApplyScan(ls[..k], functions, sub) == ApplyStep(ApplyScan(ls[..j], functions, sub), ls[j], functions, sub)
  {
    assert ls[..k][..j] == ls[..j];
    assert ls[..k][j] == ls[j];
  }

  /** The pass tracks the running brace depth, and it is never inside a body at
      depth 0. */
  lemma {:induction false} ScanControl(ls: seq<string>, functions: map<string, Function>, sub: Rewrite)
    ensures ApplyScan(ls, functions, sub).depth == DepthOf(ls)
    ensures ApplyScan(ls, functions, sub).inBody ==> DepthOf(ls) != 0
    decreases |ls|
  {
    if ls != [] {
      ScanControl(ls[..|ls| - 1], functions, sub);
    }
  }

  /** A step over a line of the function `f`: the function stays in force until the
      depth is back at 0 once its body has opened (on a line holding `{`). */
  lemma StepOutcome(st: Apply, line: string, functions: map<string, Function>, sub: Rewrite, f: Function)
    requires Selected(st, line, functions) == Some(f)
    ensures var next := ApplyStep(st, line, functions, sub);
            var begun := st.inBody || '{' in line;
            next.depth == st.depth + Braces(line) &&
            next.inBody == (next.depth != 0 && begun) &&
            next.current == (if next.depth == 0 && begun then None else Some(f))
  {
  }

  /** The running depth before line `j`. */
  function DepthBefore(ls: seq<string>, j: int): int
    requires 0 <= j <= |ls|
  {
    DepthOf(ls[..j])
  }

  /** Line `j` holds an opening brace. */
  predicate BraceAt(ls: seq<string>, j: int)
    requires 0 <= j < |ls|
  {
    '{' in ls[j]
  }

  /** Line `j` defines a known function at depth 0. */
  predicate DefinesAt(ls: seq<string>, j: int, functions: map<string, Function>)
    requires 0 <= j < |ls|
  {
    Defines(DepthBefore(ls, j), ls[j], functions)
  }

  /** The span of a function in the lines `ls`: line `d`, at depth 0, defines a
      function of the dump; `o` is the first line from `d` on that holds `{`, and no
      line after `d` up to `o` defines another known function at depth 0; `c` is the
      first line from `o` on after which the depth is back at 0. */
  predicate FunctionSpan(ls: seq<string>, d: int, o: int, c: int, functions: map<string, Function>) {
    0 <= d <= o <= c < |ls| &&
    DepthBefore(ls, d) == 0 && Defines(0, ls[d], functions) &&
    (forall j :: d <= j < o ==> !BraceAt(ls, j)) && BraceAt(ls, o) &&
    (forall j :: d < j <= o ==> !DefinesAt(ls, j, functions)) &&
    (forall j :: o < j <= c ==> DepthBefore(ls, j) != 0) &&
    DepthBefore(ls, c + 1) == 0
  }

  /** What the span says about line `k`. */
  lemma SpanFacts(ls: seq<string>, d: int, o: int, c: int, functions: map<string, Function>, k: int)
    requires FunctionSpan(ls, d, o, c, functions) && d <= k <= c
    ensures k < o ==> '{' !in ls[k]
    ensures k == o ==> '{' in ls[k]
    ensures d < k <= o ==> !Defines(DepthOf(ls[..k]), ls[k], functions)
    ensures o < k ==> DepthOf(ls[..k]) != 0
    ensures o <= k ==> (DepthOf(ls[..k + 1]) == 0 <==> k == c)
  {
    if k < o {
      assert !BraceAt(ls, k);
    }
    if d < k <= o {
      assert !DefinesAt(ls, k, functions);
    }
    if o < k {
      assert DepthBefore(ls, k) != 0;
    }
    if o <= k < c {
      assert DepthBefore(ls, k + 1) != 0;
    }
  }

  /** A step over a line of `f` that comes after the opening brace when `open`,
      and brings the depth back to 0 after it when `closes`. */
  lemma SpanStep(st: Apply, line: string, functions: map<string, Function>, sub: Rewrite, f: Function, open: bool, closes: bool)
    requires Selected(st, line, functions) == Some(f)
    requires (st.inBody || '{' in line) == open
    requires open ==> (st.depth + Braces(line) == 0 <==> closes)
    requires !open ==> !closes
    ensures ApplyStep(st, line, functions, sub).current == (if closes then None else Some(f))
    ensures ApplyStep(st, line, functions, sub).inBody == (open && !closes)
  {
    StepOutcome(st, line, functions, sub, f);
  }

  /** The depth after line `k` is the depth before it plus the line's braces. */
  lemma DepthAt(ls: seq<string>, k: int)
    requires 0 <= k < |ls|
    ensures DepthOf(ls[..k + 1]) == DepthOf(ls[..k]) + Braces(ls[k])
  {
    assert ls[..k + 1][..k] == ls[..k];
  }

  /** The defining line of a span selects its function, outside any body. */
  lemma SpanFirst(ls: seq<string>, d: int, o: int, c: int, functions: map<string, Function>, sub: Rewrite)
    requires FunctionSpan(ls, d, o, c, functions)
    ensures var st := ApplyScan(ls[..d], functions, sub);
            Selected(st, ls[d], functions) == Some(functions[DefName(ls[d]).value]) && !st.inBody
  {
    ScanControl(ls[..d], functions, sub);
  }

  /** A later line of a span keeps the function in force. */
  lemma SpanKeeps(ls: seq<string>, d: int, o: int, c: int, functions: map<string, Function>, sub: Rewrite, k: int)
    requires FunctionSpan(ls, d, o, c, functions) && d < k <= c
    requires ApplyScan(ls[..k], functions, sub).current == Some(functions[DefName(ls[d]).value])
    ensures Selected(ApplyScan(ls[..k], functions, sub), ls[k], functions) == Some(functions[DefName(ls[d]).value])
  {
    ScanControl(ls[..k], functions, sub);
    SpanFacts(ls, d, o, c, functions, k);
  }

  /** Within a span, line `j` is at or after the opening brace exactly when `o <= j`,
      and from there the depth is back at 0 after it exactly when it is line `c`. */
  lemma SpanBraces(ls: seq<string>, d: int, o: int, c: int, functions: map<string, Function>, sub: Rewrite, j: int)
    requires FunctionSpan(ls, d, o, c, functions) && d <= j <= c
    requires ApplyScan(ls[..j], functions, sub).inBody == (o < j)
    ensures var st := ApplyScan(ls[..j], functions, sub);
            (st.inBody || '{' in ls[j]) == (o <= j) &&
            (o <= j ==> (st.depth + Braces(ls[j]) == 0 <==> j == c))
  {
    ScanControl(ls[..j], functions, sub);
    SpanFacts(ls, d, o, c, functions, j);
    DepthAt(ls, j);
  }

  /** Within a span, the state after line `k - 1`: the spanned function is in force
      until line `c` has been seen, and its body is open after line `o`. */
  lemma {:induction false} SpanState(ls: seq<string>, d: int, o: int, c: int, functions: map<string, Function>, sub: Rewrite, k: int)
    requires FunctionSpan(ls, d, o, c, functions) && d < k <= c + 1
    ensures var st := ApplyScan(ls[..k], functions, sub);
            st.current == (if k == c + 1 then None else Some(functions[DefName(ls[d]).value])) &&
            st.inBody == (o < k <= c)
    decreases k
  {
    var f := functions[DefName(ls[d]).value];
    var j := k - 1;
    var prev := ApplyScan(ls[..j], functions, sub);
    if j == d {
      SpanFirst(ls, d, o, c, functions, sub);
    } else {
      SpanState(ls, d, o, c, functions, sub, j);
      SpanKeeps(ls, d, o, c, functions, sub, j);
    }
    SpanBraces(ls, d, o, c, functions, sub, j);
    ScanBefore(ls, j, k, functions, sub);
    SpanStep(prev, ls[j], functions, sub, f, o <= j, j == c);
  }

  /** Within a span, the spanned function is in force for every line. */
  lemma SpanLine(ls: seq<string>, d: int, o: int, c: int, functions: map<string, Function>, sub: Rewrite, k: int)
    requires FunctionSpan(ls, d, o, c, functions) && d <= k <= c
    ensures var st := ApplyScan(ls[..k], functions, sub);
            Selected(st, ls[k], functions) == Some(functions[DefName(ls[d]).value]) && st.inBody == (o < k) &&
            (d < k ==> !Defines(st.depth, ls[k], functions)) && (d == k ==> Defines(st.depth, ls[k], functions))
  {
    var st := ApplyScan(ls[..k], functions, sub);
    ScanControl(ls[..k], functions, sub);
    SpanFacts(ls, d, o, c, functions, k);
    if k == d {
      assert Defines(st.depth, ls[k], functions);
    } else {
      SpanState(ls, d, o, c, functions, sub, k);
    }
  }

  /** Which lines the pass rewrites by a function of the dump: every line of its
      span, from the defining line to the one closing its body, has that function
      in force, so each body line is rewritten by its parameters (the defining line
      by the signature pass and then the body pass); its locals comment follows the
      line `o`, and only that line; after line `c` no function is in force. */
  lemma ApplyDwarfRenameSpan(ls: seq<string>, d: int, o: int, c: int, functions: map<string, Function>, sub: Rewrite, f: Function)
    requires FunctionSpan(ls, d, o, c, functions) && f == functions[DefName(ls[d]).value]
    ensures forall k :: d <= k <= c ==> Selected(ApplyScan(ls[..k], functions, sub), ls[k], functions) == Some(f)
    ensures forall k :: d < k <= c ==>
              BlockAt(ls, k, functions, sub)[0] == (if f.parameters != [] then sub(f.parameters, ls[k]) else ls[k])
    ensures BlockAt(ls, d, functions, sub)[0] ==
              (if f.parameters != [] then sub(f.parameters, sub(f.parameters, ls[d])) else ls[d])
    ensures forall k :: d <= k <= c ==> (InsertsAt(ls, k, functions, sub) <==> k == o && f.locals != [])
    ensures ApplyScan(ls[..c + 1], functions, sub).current == None
    ensures !ApplyScan(ls[..c + 1], functions, sub).inBody
  {
    SpanSelects(ls, d, o, c, functions, sub, f);
    SpanRenames(ls, d, o, c, functions, sub, f);
    SpanBlock(ls, d, o, c, functions, sub, d);
    SpanInserts(ls, d, o, c, functions, sub, f);
    SpanEnds(ls, d, o, c, functions, sub);
  }

  /** After the last line of a span no function is in force. */
  lemma SpanEnds(ls: seq<string>, d: int, o: int, c: int, functions: map<string, Function>, sub: Rewrite)
    requires FunctionSpan(ls, d, o, c, functions)
    ensures ApplyScan(ls[..c + 1], functions, sub).current == None
    ensures !ApplyScan(ls[..c + 1], functions, sub).inBody
  {
    var e := c + 1;
    SpanState(ls, d, o, c, functions, sub, e);
  }

  /** Every line of a span has the spanned function in force. */
  lemma SpanSelects(ls: seq<string>, d: int, o: int, c: int, functions: map<string, Function>, sub: Rewrite, f: Function)
    requires FunctionSpan(ls, d, o, c, functions) && f == functions[DefName(ls[d]).value]
    ensures forall k :: d <= k <= c ==> Selected(ApplyScan(ls[..k], functions, sub), ls[k], functions) == Some(f)
  {
    forall k | d <= k <= c
      ensures Selected(ApplyScan(ls[..k], functions, sub), ls[k], functions) == Some(f)
    {
      SpanBlock(ls, d, o, c, functions, sub, k);
    }
  }

  /** Every line of a span after the defining line is rewritten by the spanned
      function's parameters. */
  lemma SpanRenames(ls: seq<string>, d: int, o: int, c: int, functions: map<string, Function>, sub: Rewrite, f: Function)
    requires FunctionSpan(ls, d, o, c, functions) && f == functions[DefName(ls[d]).value]
    ensures forall k :: d < k <= c ==>
              BlockAt(ls, k, functions, sub)[0] == (if f.parameters != [] then sub(f.parameters, ls[k]) else ls[k])
  {
    forall k | d < k <= c
      ensures BlockAt(ls, k, functions, sub)[0] == (if f.parameters != [] then sub(f.parameters, ls[k]) else ls[k])
    {
      SpanBlock(ls, d, o, c, functions, sub, k);
    }
  }

  /** The locals comment of the spanned function follows line `o` and no other line
      of the span. */
  lemma SpanInserts(ls: seq<string>, d: int, o: int, c: int, functions: map<string, Function>, sub: Rewrite, f: Function)
    requires FunctionSpan(ls, d, o, c, functions) && f == functions[DefName(ls[d]).value]
    ensures forall k :: d <= k <= c ==> (InsertsAt(ls, k, functions, sub) <==> k == o && f.locals != [])
  {
    forall k | d <= k <= c
      ensures InsertsAt(ls, k, functions, sub) <==> k == o && f.locals != []
    {
      SpanBlock(ls, d, o, c, functions, sub, k);
    }
  }

  /** The block of line `k` of a span. */
  lemma SpanBlock(ls: seq<string>, d: int, o: int, c: int, functions: map<string, Function>, sub: Rewrite, k: int)
    requires FunctionSpan(ls, d, o, c, functions) && d <= k <= c
    ensures var f := functions[DefName(ls[d]).value];
            Selected(ApplyScan(ls[..k], functions, sub), ls[k], functions) == Some(f) &&
            (k > d ==> BlockAt(ls, k, functions, sub)[0] == (if f.parameters != [] then sub(f.parameters, ls[k]) else ls[k])) &&
            (k == d ==> BlockAt(ls, k, functions, sub)[0] ==
                          (if f.parameters != [] then sub(f.parameters, sub(f.parameters, ls[k])) else ls[k])) &&
            (InsertsAt(ls, k, functions, sub) <==> k == o && f.locals != [])
  {
    var f := functions[DefName(ls[d]).value];
    var st := ApplyScan(ls[..k], functions, sub);
    SpanLine(ls, d, o, c, functions, sub, k);
    SpanFacts(ls, d, o, c, functions, k);
    BlockAtShape(ls, k, functions, sub);
    if k > d {
      BlockInFunction(st, ls[k], functions, sub, f);
    } else {
      assert Defines(st.depth, ls[k], functions);
    }
  }

  /** From a point where no function is in force, lines that define no known
      function at depth 0 leave the pass in that condition. */
  lemma {:induction false} UntouchedState(ls: seq<string>, m: int, k: int, functions: map<string, Function>, sub: Rewrite)
    requires 0 <= m <= k <= |ls|
    requires ApplyScan(ls[..m], functions, sub).current == None && !ApplyScan(ls[..m], functions, sub).inBody
    requires forall j :: m <= j < k ==> !DefinesAt(ls, j, functions)
    ensures ApplyScan(ls[..k], functions, sub).current == None && !ApplyScan(ls[..k], functions, sub).inBody
    decreases k - m
  {
    if m < k {
      var j := k - 1;
      UntouchedState(ls, m, j, functions, sub);
      var prev := ApplyScan(ls[..j], functions, sub);
      ScanControl(ls[..j], functions, sub);
      assert !DefinesAt(ls, j, functions);
      ScanBefore(ls, j, k, functions, sub);
      ApplyStepUntouched(prev, ls[j], functions, sub);
    }
  }

  /** After a function has ended, lines that define no known function at depth 0
      are emitted as they are, with nothing inserted. */
  lemma UntouchedFrom(ls: seq<string>, m: int, k: int, functions: map<string, Function>, sub: Rewrite)
    requires 0 <= m <= k < |ls|
    requires ApplyScan(ls[..m], functions, sub).current == None && !ApplyScan(ls[..m], functions, sub).inBody
    requires forall j :: m <= j <= k ==> !DefinesAt(ls, j, functions)
    ensures BlockAt(ls, k, functions, sub) == [ls[k]]
  {
    UntouchedState(ls, m, k, functions, sub);
    var st := ApplyScan(ls[..k], functions, sub);
    ScanControl(ls[..k], functions, sub);
    assert !DefinesAt(ls, k, functions);
    assert Block(st, ls[k], ls[k], None) == [ls[k]];
  }

  /** The pass as written on a prototype: a depth-0 declaration such as
      `int f(int param_1);` of a known function selects it, but holds no `{`, so the
      function's body never opens and it stays in force. The next line, though it
      defines a function the dump does not know (say `void g(int param_1) {`), is
      then rewritten by `f`'s parameters and, when it opens a body, gets `f`'s
      locals comment. */
  lemma PrototypeKeepsSelection(ls: seq<string>, d: int, functions: map<string, Function>, sub: Rewrite)
    requires 0 <= d && d + 1 < |ls|
    requires DepthOf(ls[..d]) == 0 && Defines(0, ls[d], functions)
    requires '{' !in ls[d] && Braces(ls[d]) == 0
    requires !Defines(0, ls[d + 1], functions)
    ensures var f := functions[DefName(ls[d]).value];
            var b := BlockAt(ls, d + 1, functions, sub);
            Selected(ApplyScan(ls[..d + 1], functions, sub), ls[d + 1], functions) == Some(f) &&
            b[0] == (if f.parameters != [] then sub(f.parameters, ls[d + 1]) else ls[d + 1]) &&
            ('{' in ls[d + 1] && f.locals != [] ==> b == [b[0], LocalsComment(f.locals)])
  {
    var f := functions[DefName(ls[d]).value];
    var e := d + 1;
    PrototypeState(ls, d, e, functions, sub);
    BlockInFunction(ApplyScan(ls[..e], functions, sub), ls[e], functions, sub, f);
  }

  /** After the prototype line its function is in force, outside any body, at
      depth 0. */
  lemma PrototypeState(ls: seq<string>, d: int, e: int, functions: map<string, Function>, sub: Rewrite)
    requires 0 <= d && e == d + 1 && e <= |ls|
    requires DepthOf(ls[..d]) == 0 && Defines(0, ls[d], functions)
    requires '{' !in ls[d] && Braces(ls[d]) == 0
    ensures var next := ApplyScan(ls[..e], functions, sub);
            next.current == Some(functions[DefName(ls[d]).value]) && !next.inBody && next.depth == 0
  {
    var st := ApplyScan(ls[..d], functions, sub);
    ScanControl(ls[..d], functions, sub);
    ScanBefore(ls, d, e, functions, sub);
    StepOutcome(st, ls[d], functions, sub, functions[DefName(ls[d]).value]);
  }

  /** The block of a line of the function in force that defines no known function:
      the line rewritten by the function's parameters, followed by its locals
      comment when the line opens the body. */
  lemma BlockInFunction(st: Apply, line: string, functions: map<string, Function>, sub: Rewrite, f: Function)
    requires st.current == Some(f) && !Defines(st.depth, line, functions)
    ensures var b := Block(st, line, LineText(st, line, functions, sub), Selected(st, line, functions));
            Selected(st, line, functions) == Some(f) &&
            b[0] == (if f.parameters != [] then sub(f.parameters, line) else line) &&
            ('{' in line && !st.inBody && f.locals != [] ==> b == [b[0], LocalsComment(f.locals)])
  {
  }
}
