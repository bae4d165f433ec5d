/** The debug-name helpers of the library decompilation script. Ghidra's view of a
    function is abstracted to its parameters and its variables, each with its name,
    the name of its data type (absent when Ghidra has no data type for it) and its
    storage, in the order Ghidra lists them. */
module DecompileLib {
  import opened Text
  import Dwarf

  datatype GhidraVar = GhidraVar(name: string, dataType: Option<string>, storage: string)

  /** The data type's name, or `missing` when the variable has no data type. */
  function TypeNameOr(v: GhidraVar, missing: string): string {
    match v.dataType
    case Some(t) => t
    case None => missing
  }

  // ---------------------------------------------------------------------
  // get_function_local_variables
  // ---------------------------------------------------------------------

  /** The names the listing of local variables skips as made up by the decompiler. */
  predicate IsGeneratedName(name: string) {
    StartsWith(name, "local_") || StartsWith(name, "param_") ||
    StartsWith(name, "in_") || StartsWith(name, "uVar")
  }

  /** A listed variable: name, type name (`unknown` without a data type), storage. */
  function Listed(v: GhidraVar): (string, string, string) {
    (v.name, TypeNameOr(v, "unknown"), v.storage)
  }

  /** The listing of `vars`, in order. */
  function LocalVariables(vars: seq<GhidraVar>): seq<(string, string, string)>
    decreases |vars|
  {
    if vars == [] then []
    else
      var v := vars[|vars| - 1];
      var init := LocalVariables(vars[..|vars| - 1]);
      if IsGeneratedName(v.name) then init else init + [Listed(v)]
  }

  /** `get_function_local_variables`. */
  method GetFunctionLocalVariables(vars: seq<GhidraVar>) returns (variables: seq<(string, string, string)>)
    ensures variables == LocalVariables(vars)
  {
    variables := [];
    for i := 0 to |vars|
      invariant variables == LocalVariables(vars[..i])
    {
      assert vars[..i + 1][..i] == vars[..i];
      var v := vars[i];
      if !IsGeneratedName(v.name) {
        variables := variables + [Listed(v)];
      }
    }
    assert vars[..|vars|] == vars;
  }

  /** Exactly the variables with a name of their own are listed, and the listing is
      as long as `vars` exactly when no name is a made-up one. */
  lemma {:induction false} LocalVariablesMeaning(vars: seq<GhidraVar>)
    ensures forall e :: e in LocalVariables(vars) <==>
              exists v :: v in vars && !IsGeneratedName(v.name) && e == Listed(v)
    ensures |LocalVariables(vars)| == |vars| <==> forall i :: 0 <= i < |vars| ==> !IsGeneratedName(vars[i].name)
    ensures |LocalVariables(vars)| <= |vars|
    decreases |vars|
  {
    if vars != [] {
      var n := |vars| - 1;
      var init := vars[..n];
      LocalVariablesMeaning(init);
      assert vars == init + [vars[n]];
      forall e ensures e in LocalVariables(vars) <==>
                       exists v :: v in vars && !IsGeneratedName(v.name) && e == Listed(v)
      {
        if e in LocalVariables(init) {
          var v :| v in init && !IsGeneratedName(v.name) && e == Listed(v);
          assert v in vars;
        }
      }
      if IsGeneratedName(vars[n].name) {
        assert !(forall i :: 0 <= i < |vars| ==> !IsGeneratedName(vars[i].name));
      } else {
        assert (forall i :: 0 <= i < |vars| ==> !IsGeneratedName(vars[i].name)) <==>
               (forall i :: 0 <= i < n ==> !IsGeneratedName(init[i].name));
      }
    }
  }

  // ---------------------------------------------------------------------
  // get_dwarf_variable_mapping
  // ---------------------------------------------------------------------

  /** A parameter name taken as an original one: present and not `param_…`. */
  predicate IsOriginalParamName(name: string) {
    name != [] && !StartsWith(name, "param_")
  }

  /** `param_{i+1}` → the `i`-th parameter's name, for the parameters whose name is
      an original one. */
  function DwarfVariableMapping(params: seq<GhidraVar>): map<string, string>
    decreases |params|
  {
    if params == [] then map[]
    else
      var m := DwarfVariableMapping(params[..|params| - 1]);
      var p := params[|params| - 1];
      if IsOriginalParamName(p.name) then m[Dwarf.ParamName(|params|) := p.name] else m
  }

  /** `get_dwarf_variable_mapping`. Its scan of the local variables records nothing,
      so they are not an input here. */
  method GetDwarfVariableMapping(params: seq<GhidraVar>) returns (mapping: map<string, string>)
    ensures mapping == DwarfVariableMapping(params)
  {
    mapping := map[];
    for i := 0 to |params|
      invariant mapping == DwarfVariableMapping(params[..i])
    {
      assert params[..i + 1][..i] == params[..i];
      var name := params[i].name;
      var autoName := Dwarf.ParamName(i + 1);
      if IsOriginalParamName(name) {
        mapping := mapping[autoName := name];
      }
    }
    assert params[..|params|] == params;
  }

  /** `param_k` is a key exactly when the `k`-th parameter has an original name, and
      then maps to it; there are no other keys. */
  lemma {:induction false} DwarfVariableMappingMeaning(params: seq<GhidraVar>)
    ensures forall k :: 1 <= k <= |params| ==>
              (Dwarf.ParamName(k) in DwarfVariableMapping(params) <==> IsOriginalParamName(params[k - 1].name))
    ensures forall k :: 1 <= k <= |params| && Dwarf.ParamName(k) in DwarfVariableMapping(params) ==>
              DwarfVariableMapping(params)[Dwarf.ParamName(k)] == params[k - 1].name
    ensures forall key :: key in DwarfVariableMapping(params) ==>
              exists k :: 1 <= k <= |params| && key == Dwarf.ParamName(k)
    decreases |params|
  {
    if params != [] {
      var n := |params|;
      var init := params[..n - 1];
      DwarfVariableMappingMeaning(init);
      var m := DwarfVariableMapping(params);
      forall k | 1 <= k <= n
        ensures (Dwarf.ParamName(k) in m <==> IsOriginalParamName(params[k - 1].name))
        ensures Dwarf.ParamName(k) in m ==> m[Dwarf.ParamName(k)] == params[k - 1].name
      {
        if k < n {
          if Dwarf.ParamName(k) == Dwarf.ParamName(n) {
            Dwarf.ParamNameInjective(k, n);
          }
          assert init[k - 1] == params[k - 1];
        } else if Dwarf.ParamName(n) in DwarfVariableMapping(init) {
          var j :| 1 <= j <= n - 1 && Dwarf.ParamName(n) == Dwarf.ParamName(j);
          Dwarf.ParamNameInjective(j, n);
        }
      }
    }
  }

  // ---------------------------------------------------------------------
  // add_dwarf_variable_comments
  // ---------------------------------------------------------------------

  /** A local variable name taken as an original one. */
  predicate IsOriginalLocalName(name: string) {
    name != [] &&
    !(StartsWith(name, "local_") || StartsWith(name, "uVar") || StartsWith(name, "iVar") ||
      StartsWith(name, "pVar") || StartsWith(name, "in_"))
  }

  /** The listed form of a variable: `type name`, with `?` for a missing type. */
  function Entry(v: GhidraVar): string {
    TypeNameOr(v, "?") + " " + v.name
  }

  /** The entries of the variables whose name `keep` accepts, in order. */
  function Entries(vs: seq<GhidraVar>, keep: string -> bool): seq<string>
    decreases |vs|
  {
    if vs == [] then []
    else
      var init := Entries(vs[..|vs| - 1], keep);
      if keep(vs[|vs| - 1].name) then init + [Entry(vs[|vs| - 1])] else init
  }

  /** One of the two collecting loops of `add_dwarf_variable_comments`. */
  method CollectEntries(vs: seq<GhidraVar>, keep: string -> bool) returns (entries: seq<string>)
    ensures entries == Entries(vs, keep)
  {
    entries := [];
    for i := 0 to |vs|
      invariant entries == Entries(vs[..i], keep)
    {
      assert vs[..i + 1][..i] == vs[..i];
      var v := vs[i];
      if keep(v.name) {
        entries := entries + [Entry(v)];
      }
    }
    assert vs[..|vs|] == vs;
  }

  /** An entry is listed exactly for a kept variable. */
  lemma {:induction false} EntriesMeaning(vs: seq<GhidraVar>, keep: string -> bool)
    ensures forall e :: e in Entries(vs, keep) <==> exists v :: v in vs && keep(v.name) && e == Entry(v)
    ensures |Entries(vs, keep)| <= |vs|
    decreases |vs|
  {
    if vs != [] {
      var n := |vs| - 1;
      var init := vs[..n];
      EntriesMeaning(init, keep);
      assert vs == init + [vs[n]];
      forall e ensures e in Entries(vs, keep) <==> exists v :: v in vs && keep(v.name) && e == Entry(v) {
        if e in Entries(init, keep) {
          var v :| v in init && keep(v.name) && e == Entry(v);
          assert v in vs;
        }
      }
    }
  }

  /** At most this many locals are listed. */
  const MaxListedLocals := 5

  const ParamsOpen := "/* Original params: "
  const LocalsOpen := "/* Original locals: "
  const CommentClose := " */"

  function ParamsLine(entries: seq<string>): string {
    ParamsOpen + Join(entries, ", ") + CommentClose
  }

  // The locals line: the first five entries; with more, every closing marker (a
  // space, a star and a slash) is replaced by ` + N more` and the marker.
  function LocalsLine(entries: seq<string>): string {
    var shown := if |entries| > MaxListedLocals then entries[..MaxListedLocals] else entries;
    var line := LocalsOpen + Join(shown, ", ") + CommentClose;
    if |entries| > MaxListedLocals then
      ReplaceAll(line, CommentClose, " + " + NatToString(|entries| - MaxListedLocals) + " more */")
    else line
  }

  function CommentLines(params: seq<string>, locals: seq<string>): seq<string> {
    (if params != [] then [ParamsLine(params)] else []) + (if locals != [] then [LocalsLine(locals)] else [])
  }

  /** What `add_dwarf_variable_comments` returns. */
  function AddComments(code: string, params: seq<GhidraVar>, locals: seq<GhidraVar>): string {
    if code == [] then code
    else
      var ps := Entries(params, IsOriginalParamName);
      var ls := Entries(locals, IsOriginalLocalName);
      if ps == [] && ls == [] then code
      else
        var bracePos := IndexOf(code, "{");
        if bracePos > 0 then
          code[..bracePos] + "\n" + Join(CommentLines(ps, ls), "\n") + "\n" + code[bracePos..]
        else code
  }

  /** `add_dwarf_variable_comments`. */
  method AddDwarfVariableComments(code: string, params: seq<GhidraVar>, locals: seq<GhidraVar>)
    returns (r: string)
    ensures r == AddComments(code, params, locals)
  {
    if code == [] {
      return code;
    }
    var originalParams := CollectEntries(params, IsOriginalParamName);
    var originalLocals := CollectEntries(locals, IsOriginalLocalName);
    r := code;
    if originalParams != [] || originalLocals != [] {
      var commentLines: seq<string> := [];
      if originalParams != [] {
        commentLines := commentLines + [ParamsLine(originalParams)];
      }
      if originalLocals != [] {
        commentLines := commentLines + [LocalsLine(originalLocals)];
      }
      var bracePos := IndexOf(code, "{");
      if bracePos > 0 {
        var comment := Join(commentLines, "\n");
        r := code[..bracePos] + "\n" + comment + "\n" + code[bracePos..];
      }
    }
  }

  /** The code changes exactly when it is not empty, some variable has an original
      name and the first `{` is past the start. */
  lemma AddCommentsChanges(code: string, params: seq<GhidraVar>, locals: seq<GhidraVar>)
    ensures AddComments(code, params, locals) != code <==>
            code != [] &&
            (Entries(params, IsOriginalParamName) != [] || Entries(locals, IsOriginalLocalName) != []) &&
            IndexOf(code, "{") > 0
  {
    var r := AddComments(code, params, locals);
    if code != [] && (Entries(params, IsOriginalParamName) != [] || Entries(locals, IsOriginalLocalName) != []) &&
       IndexOf(code, "{") > 0 {
      var b := IndexOf(code, "{");
      assert |r| == |code| + 2 + |Join(CommentLines(Entries(params, IsOriginalParamName), Entries(locals, IsOriginalLocalName)), "\n")|;
    }
  }

  /** The comment block sits right before the first `{`: the code before it and
      from it on are kept, and taking the block out gives the code back. */
  lemma AddCommentsPlacement(code: string, params: seq<GhidraVar>, locals: seq<GhidraVar>)
    requires AddComments(code, params, locals) != code
    ensures var r := AddComments(code, params, locals);
            var b := IndexOf(code, "{");
            var block := "\n" + Join(CommentLines(Entries(params, IsOriginalParamName),
                                                  Entries(locals, IsOriginalLocalName)), "\n") + "\n";
            0 < b < |code| && code[b] == '{' && '{' !in code[..b] &&
            |r| == |code| + |block| && r[..b] == code[..b] &&
            r[b..b + |block|] == block && r[b + |block|..] == code[b..]
  {
    var b := IndexOf(code, "{");
    var comment := Join(CommentLines(Entries(params, IsOriginalParamName), Entries(locals, IsOriginalLocalName)), "\n");
    AddCommentsChanges(code, params, locals);
    assert AddComments(code, params, locals) == code[..b] + "\n" + comment + "\n" + code[b..];
    FirstBrace(code, b);
    InsertAt(code, b, comment);
  }

  /** `{` occurs first at `b`. */
  lemma FirstBrace(code: string, b: int)
    requires 0 <= b && OccursAt(code, "{", b)
    requires forall k :: 0 <= k < b ==> !OccursAt(code, "{", k)
    ensures b < |code| && code[b] == '{' && '{' !in code[..b]
  {
    assert code[b..b + 1] == "{";
    assert code[b] == code[b..b + 1][0];
    forall k | 0 <= k < b ensures code[..b][k] != '{' {
      assert !OccursAt(code, "{", k);
      assert code[k..k + 1] == [code[k]];
    }
  }

  /** The text with `"\n" + comment + "\n"` put in at `b`, read back by position. */
  lemma InsertAt(code: string, b: nat, comment: string)
    requires b <= |code|
    ensures var block := "\n" + comment + "\n";
            var r := code[..b] + "\n" + comment + "\n" + code[b..];
            |r| == |code| + |block| && r[..b] == code[..b] &&
            r[b..b + |block|] == block && r[b + |block|..] == code[b..]
  {
    var block := "\n" + comment + "\n";
    var r := code[..b] + "\n" + comment + "\n" + code[b..];
    assert r == code[..b] + block + code[b..];
  }

  /** A params line comes first exactly when some parameter has an original name,
      and a locals line last exactly when some local has one. */
  lemma CommentLinesShape(params: seq<string>, locals: seq<string>)
    ensures var ls := CommentLines(params, locals);
            |ls| == (if params != [] then 1 else 0) + (if locals != [] then 1 else 0) &&
            (params != [] ==> ls[0] == ParamsLine(params)) &&
            (locals != [] ==> ls[|ls| - 1] == LocalsLine(locals))
  {
  }

  // When no entry holds a slash, the locals line lists the first five entries and,
  // with more, ends in ` + N more` and the closing marker, for the `N` left out.
  lemma LocalsLineShape(entries: seq<string>)
    requires forall i :: 0 <= i < |entries| ==> '/' !in entries[i]
    ensures var shown := if |entries| > MaxListedLocals then entries[..MaxListedLocals] else entries;
            LocalsLine(entries) ==
            LocalsOpen + Join(shown, ", ") +
            (if |entries| > MaxListedLocals then " + " + NatToString(|entries| - MaxListedLocals) + " more */"
             else CommentClose)
  {
    if |entries| > MaxListedLocals {
      var shown := entries[..MaxListedLocals];
      assert forall i :: 0 <= i < |shown| ==> shown[i] == entries[i];
      ShownLine(shown, " + " + NatToString(|entries| - MaxListedLocals) + " more */");
    }
  }

  /** Replacing the closing marker of the line listing `shown` by `more`. */
  lemma ShownLine(shown: seq<string>, more: string)
    requires forall i :: 0 <= i < |shown| ==> '/' !in shown[i]
    ensures ReplaceAll(LocalsOpen + Join(shown, ", ") + CommentClose, CommentClose, more) ==
            LocalsOpen + Join(shown, ", ") + more
  {
    var j := Join(shown, ", ");
    JoinFree(shown, ", ", '/');
    OpenedFree(j);
    CloseMarker();
    ReplaceAllFinal(LocalsOpen + j, CommentClose, more);
  }

  lemma CloseMarker()
    ensures CommentClose != [] && CommentClose[|CommentClose| - 1] == '/'
    ensures CommentClose[|CommentClose| - 1] !in CommentClose[..|CommentClose| - 1]
    ensures |CommentClose| - 1 == 2
  {
    assert CommentClose[..2] == " *";
  }

  /** Past its first two characters, the opened locals line holds no slash. */
  lemma OpenedFree(j: string)
    requires '/' !in j
    ensures forall k :: 2 <= k < |LocalsOpen + j| ==> (LocalsOpen + j)[k] != '/'
  {
    var x := LocalsOpen + j;
    assert forall k :: 2 <= k < |LocalsOpen| ==> LocalsOpen[k] != '/';
    forall k | 2 <= k < |x| ensures x[k] != '/' {
      if k >= |LocalsOpen| {
        assert x[k] == j[k - |LocalsOpen|];
      }
    }
  }

  /** A character in no part and not in the separator is not in the join. */
  lemma {:induction false} JoinFree(parts: seq<string>, sep: string, c: char)
    requires c !in sep && forall i :: 0 <= i < |parts| ==> c !in parts[i]
    ensures c !in Join(parts, sep)
    decreases |parts|
  {
    if |parts| > 1 {
      JoinFree(parts[1..], sep, c);
    }
  }

  /** Replacing a pattern that closes the text, where its last character occurs
      nowhere the pattern could end earlier, replaces only that closing. */
  lemma ReplaceAllFinal(x: string, p: string, r: string)
    requires p != [] && p[|p| - 1] !in p[..|p| - 1]
    requires forall k :: |p| - 1 <= k < |x| ==> x[k] != p[|p| - 1]
    ensures ReplaceAll(x + p, p, r) == x + r
  {
    var c := p[|p| - 1];
    var s := x + p;
    forall i | 0 <= i < |x| ensures !OccursAt(s, p, i) {
      var e := i + |p| - 1;
      if e < |x| {
        assert s[e] == x[e];
      } else {
        assert s[e] == p[e - |x|] == p[..|p| - 1][e - |x|];
      }
      assert s[e] != c;
      if i + |p| <= |s| {
        assert s[i..i + |p|][|p| - 1] == s[e];
      }
    }
    ReplaceAllSkip(x, p, p, r);
    assert p[..|p|] == p;
    assert p[|p|..] == [];
  }

  /** Where no occurrence starts within `a`, the replacement passes `a` unchanged. */
  lemma {:induction false} ReplaceAllSkip(a: string, b: string, p: string, r: string)
    requires p != [] && forall i :: 0 <= i < |a| ==> !OccursAt(a + b, p, i)
    ensures ReplaceAll(a + b, p, r) == a + ReplaceAll(b, p, r)
    decreases |a|
  {
    if a == [] {
      assert a + b == b;
    } else {
      var s := a + b;
      if |s| < |p| {
        assert ReplaceAll(b, p, r) == b;
      } else {
        assert !OccursAt(s, p, 0);
        assert s[1..] == a[1..] + b;
        forall i | 0 <= i < |a| - 1 ensures !OccursAt(a[1..] + b, p, i) {
          OccursAtTail(s, p, i);
        }
        ReplaceAllSkip(a[1..], b, p, r);
        assert s[0] == a[0];
        assert a == [a[0]] + a[1..];
      }
    }
  }
}
