/** Reconstruction of C++ classes in an ELF program: virtual tables are found by
    their symbol names and read slot by slot from the program image, then the
    functions whose display names carry a `Class::` scope are gathered into classes
    and matched against those tables. The program image is modelled as the address
    each readable pointer slot denotes plus the functions that start at addresses;
    the demangler's answer and the calling-convention test are inputs. */
module Vtables {
  import opened Text
  import Names

  /** The safety limit on the number of slots examined per table. */
  const MaxEntries: nat := 100

  /** A symbol, with the demangler's rendering of its name (the name itself when it
      cannot be demangled). */
  datatype Symbol = Symbol(name: string, addr: nat, demangled: string)

  /** The program image: for each readable pointer slot the address it denotes
      (an unreadable slot is absent), the function starting at each address, and the
      pointer size. */
  datatype Image = Image(words: map<nat, nat>, functions: map<nat, string>, ptrSize: nat)

  /** A table slot that points at a function: its slot index, the function's
      address and its name. */
  datatype Entry = Entry(index: nat, addr: nat, name: string)

  /** A virtual table found at `addr`, with the class it names (if any). */
  datatype Vtable = Vtable(addr: nat, className: Option<string>, entries: seq<Entry>)

  // ---------------------------------------------------------------------
  // Recognising virtual-table symbols
  // ---------------------------------------------------------------------

  /** `s` starts with `pre` when case is ignored (`pre` is lower case). */
  predicate StartsWithNoCase(s: string, pre: string) {
    |pre| <= |s| && ToLower(s[..|pre|]) == pre
  }

  /** `^vtable\s+for\s+`, ignoring case. */
  predicate IsVtableForName(n: string) {
    StartsWithNoCase(n, "vtable") &&
    var a := RunEnd(n, 6, IsSpace);
    a > 6 && a + 3 < |n| && ToLower(n[a..a + 3]) == "for" && IsSpace(n[a + 3])
  }

  /** A symbol is a virtual table when one of the patterns matches from its first
      character, ignoring case: `^_ZTV` (section 5.1.4 of the Itanium C++ ABI),
      `^vtable\s+for\s+`, `^__vt_`, or `_vtbl$` (which, anchored at the start, accepts
      only `_vtbl`, possibly before a final newline). */
  predicate IsVtableName(n: string) {
    StartsWithNoCase(n, "_ztv") || IsVtableForName(n) || StartsWithNoCase(n, "__vt_") ||
    ToLower(n) == "_vtbl" || ToLower(n) == "_vtbl\n"
  }

  /** The class a table names: only for a (case-sensitive) `_ZTV` symbol, from the
      demangled `vtable for X` when the demangler gives one, else the text after
      `_ZTV`. */
  function ClassNameOf(sym: Symbol): (r: Option<string>)
    ensures r.Some? <==> StartsWith(sym.name, "_ZTV")
    ensures r.Some? && !Contains(sym.demangled, "vtable for ") ==> sym.name == "_ZTV" + r.value
  {
    if StartsWith(sym.name, "_ZTV") then
      if Contains(sym.demangled, "vtable for ") then
        Some(Strip(ReplaceAll(sym.demangled, "vtable for ", "")))
      else
        assert sym.name == sym.name[..4] + sym.name[4..];
        Some(sym.name[4..])
    else None
  }

  /** Every `_ZTV` symbol is recognised as a table whatever its demangling. */
  lemma ItaniumNamesAreTables(n: string)
    requires StartsWith(n, "_ZTV")
    ensures IsVtableName(n)
  {
    assert n[..4] == "_ZTV";
    assert ToLower(n[..4]) == "_ztv";
  }

  /** `_vtbl` is accepted only as the whole name: a longer name ending in `_vtbl` is
      not a table unless another pattern matches its start. */
  lemma VtblSuffixAlone(n: string)
    requires IsVtableName(n) && |n| > 6
    ensures StartsWithNoCase(n, "_ztv") || IsVtableForName(n) || StartsWithNoCase(n, "__vt_")
  {
  }

  // ---------------------------------------------------------------------
  // The slot scan
  // ---------------------------------------------------------------------

  /** The address of slot `index` of a table at `start`. */
  function SlotAddr(img: Image, start: nat, index: nat): nat {
    start + index * img.ptrSize
  }

  /** Slot `j` is readable and points at a function. */
  predicate IsFuncSlot(img: Image, start: nat, j: nat) {
    SlotAddr(img, start, j) in img.words && img.words[SlotAddr(img, start, j)] in img.functions
  }

  /** The entries the scan collects from slot `index` on: a function slot is kept, a
      non-function slot is skipped while the index is at most 2 (the offset-to-top
      and RTTI slots of section 2.5.2 of the Itanium C++ ABI) and ends the scan after
      that, an unreadable slot ends it, and at most `MaxEntries` slots are seen. */
  function ScanFrom(img: Image, start: nat, index: nat): (es: seq<Entry>)
    decreases MaxEntries - index
  {
    if index >= MaxEntries then []
    else
      var at := SlotAddr(img, start, index);
      if at !in img.words then []
      else
        var target := img.words[at];
        if target in img.functions then
          [Entry(index, target, img.functions[target])] + ScanFrom(img, start, index + 1)
        else if index > 2 then []
        else ScanFrom(img, start, index + 1)
  }

  /** The slot scan of the table at `start`, as the inner loop of `analyze_vtables`
      performs it. */
  method ScanVtable(img: Image, start: nat) returns (entries: seq<Entry>)
    ensures entries == ScanFrom(img, start, 0)
  {
    entries := [];
    var index: nat := 0;
    var current := start;
    while index < MaxEntries
      invariant current == SlotAddr(img, start, index)
      invariant entries + ScanFrom(img, start, index) == ScanFrom(img, start, 0)
      decreases MaxEntries - index
    {
      if current !in img.words {
        break;
      }
      var target := img.words[current];
      if target in img.functions {
        entries := entries + [Entry(index, target, img.functions[target])];
      } else if index > 2 {
        break;
      }
      index := index + 1;
      current := current + img.ptrSize;
    }
  }

  function Indices(es: seq<Entry>): set<nat> {
    set i | 0 <= i < |es| :: es[i].index
  }

  /** What the scan collects: slot indices strictly increase and stay below the
      limit, and each entry records a function slot exactly as the image has it. */
  predicate WellScanned(img: Image, start: nat, from: nat, es: seq<Entry>) {
    (forall i :: 0 <= i < |es| ==> from <= es[i].index < MaxEntries) &&
    (forall i, j :: 0 <= i < j < |es| ==> es[i].index < es[j].index) &&
    (forall i :: 0 <= i < |es| ==>
       IsFuncSlot(img, start, es[i].index) &&
       img.words[SlotAddr(img, start, es[i].index)] == es[i].addr &&
       img.functions[es[i].addr] == es[i].name)
  }

  lemma {:induction false} ScanSound(img: Image, start: nat, index: nat)
    ensures WellScanned(img, start, index, ScanFrom(img, start, index))
    decreases MaxEntries - index
  {
    if index < MaxEntries {
      ScanSound(img, start, index + 1);
    }
  }

  /** Past the metadata slots the entries are contiguous: after index 3 each entry's
      slot directly follows the previous entry's, and the first entry is at slot 3 at
      the latest. */
  lemma {:induction false} ScanContiguous(img: Image, start: nat, index: nat)
    requires index <= 3
    ensures var es := ScanFrom(img, start, index);
            (es != [] ==> es[0].index <= 3) &&
            forall i :: 0 < i < |es| && es[i].index > 3 ==> es[i - 1].index + 1 == es[i].index
    decreases MaxEntries - index
  {
    var es := ScanFrom(img, start, index);
    if index == 3 {
      ScanTail(img, start, index);
    } else {
      ScanContiguous(img, start, index + 1);
      var rest := ScanFrom(img, start, index + 1);
      if IsFuncSlot(img, start, index) {
        assert es == [es[0]] + rest;
        forall i | 0 < i < |es| && es[i].index > 3 ensures es[i - 1].index + 1 == es[i].index {
          assert es[i] == rest[i - 1];
          if i > 1 {
            assert es[i - 1] == rest[i - 2];
          }
        }
      }
    }
  }

  /** From slot 3 on, the entries occupy consecutive slots starting at the first. */
  lemma {:induction false} ScanTail(img: Image, start: nat, index: nat)
    requires index >= 3
    ensures Consecutive(ScanFrom(img, start, index), index)
    decreases MaxEntries - index
  {
    if index < MaxEntries {
      ScanTail(img, start, index + 1);
      var es := ScanFrom(img, start, index);
      var rest := ScanFrom(img, start, index + 1);
      if IsFuncSlot(img, start, index) {
        assert es == [es[0]] + rest;
        forall i | 0 < i < |es| ensures es[i].index == index + i {
          assert es[i] == rest[i - 1];
        }
      }
    }
  }

  /** The entries sit in the consecutive slots `from`, `from + 1`, ... */
  predicate Consecutive(es: seq<Entry>, from: nat) {
    forall i :: 0 <= i < |es| ==> es[i].index == from + i
  }

  /** Nothing is skipped: every function slot up to the last entry's is an entry. */
  lemma {:induction false} ScanComplete(img: Image, start: nat, index: nat, j: nat)
    requires index <= j && IsFuncSlot(img, start, j)
    requires var es := ScanFrom(img, start, index); es != [] && j <= es[|es| - 1].index
    ensures j in Indices(ScanFrom(img, start, index))
    decreases MaxEntries - index
  {
    var es := ScanFrom(img, start, index);
    var rest := ScanFrom(img, start, index + 1);
    ScanSound(img, start, index);
    if j == index {
      assert es[0].index == index;
    } else {
      assert es == rest || es == [es[0]] + rest;
      assert rest != [] && rest[|rest| - 1] == es[|es| - 1];
      ScanComplete(img, start, index + 1, j);
      var t :| 0 <= t < |rest| && rest[t].index == j;
      if es != rest {
        assert es[t + 1] == rest[t];
      }
    }
  }

  // ---------------------------------------------------------------------
  // Collecting the tables
  // ---------------------------------------------------------------------

  /** The position of the table at `addr`, if the dictionary has one. */
  function Find(vts: seq<Vtable>, addr: nat): (r: Option<nat>)
    ensures r.Some? ==> r.value < |vts| && vts[r.value].addr == addr
    ensures r.None? ==> forall i :: 0 <= i < |vts| ==> vts[i].addr != addr
  {
    if vts == [] then None
    else if vts[|vts| - 1].addr == addr then Some(|vts| - 1)
    else Find(vts[..|vts| - 1], addr)
  }

  /** Dictionary assignment keyed by address: an existing key keeps its place and
      gets the new value, a new key goes last. */
  function Put(vts: seq<Vtable>, v: Vtable): seq<Vtable> {
    match Find(vts, v.addr)
    case Some(i) => vts[i := v]
    case None => vts + [v]
  }

  /** The tables found among `symbols`, in dictionary order. */
  function VtablesOf(symbols: seq<Symbol>, img: Image): seq<Vtable> {
    if symbols == [] then []
    else
      var prev := VtablesOf(symbols[..|symbols| - 1], img);
      var sym := symbols[|symbols| - 1];
      var entries := ScanFrom(img, sym.addr, 0);
      if IsVtableName(sym.name) && entries != [] then
        Put(prev, Vtable(sym.addr, ClassNameOf(sym), entries))
      else prev
  }

  /** `analyze_vtables`: its loop over the symbol table. */
  method AnalyzeVtables(symbols: seq<Symbol>, img: Image) returns (vts: seq<Vtable>)
    ensures vts == VtablesOf(symbols, img)
  {
    vts := [];
    for i := 0 to |symbols|
      invariant vts == VtablesOf(symbols[..i], img)
    {
      assert symbols[..i + 1][..i] == symbols[..i];
      var sym := symbols[i];
      if IsVtableName(sym.name) {
        var className := ClassNameOf(sym);
        var entries := ScanVtable(img, sym.addr);
        if entries != [] {
          vts := Put(vts, Vtable(sym.addr, className, entries));
        }
      }
    }
    assert symbols[..|symbols|] == symbols;
  }

  function VtableAddrs(symbols: seq<Symbol>): set<nat> {
    set i | 0 <= i < |symbols| && IsVtableName(symbols[i].name) :: symbols[i].addr
  }

  /** One table per address. */
  predicate UniqueAddrs(vts: seq<Vtable>) {
    forall i, j :: 0 <= i < j < |vts| ==> vts[i].addr != vts[j].addr
  }

  /** Each table belongs to a table symbol at its address and holds that address's
      non-empty scan. */
  predicate TablesSound(vts: seq<Vtable>, symbols: seq<Symbol>, img: Image) {
    forall i :: 0 <= i < |vts| ==>
      vts[i].entries == ScanFrom(img, vts[i].addr, 0) && vts[i].entries != [] &&
      vts[i].addr in VtableAddrs(symbols)
  }

  /** Every table symbol whose scan finds an entry has a table at its address. */
  predicate TablesComplete(vts: seq<Vtable>, symbols: seq<Symbol>, img: Image) {
    forall k :: (0 <= k < |symbols| && IsVtableName(symbols[k].name) &&
                 ScanFrom(img, symbols[k].addr, 0) != []) ==> Find(vts, symbols[k].addr).Some?
  }

  /** The dictionary has one table per address; each belongs to a table symbol at
      that address and holds that address's (non-empty) scan; and every table
      symbol whose scan finds an entry is present. */
  lemma {:induction false} VtablesShape(symbols: seq<Symbol>, img: Image)
    ensures var vts := VtablesOf(symbols, img);
            UniqueAddrs(vts) && TablesSound(vts, symbols, img) && TablesComplete(vts, symbols, img)
    decreases |symbols|
  {
    if symbols != [] {
      var init := symbols[..|symbols| - 1];
      VtablesShape(init, img);
      var prev := VtablesOf(init, img);
      var sym := symbols[|symbols| - 1];
      SymbolsGrow(init, symbols);
      SoundGrows(prev, init, symbols, img);
      if IsVtableName(sym.name) && ScanFrom(img, sym.addr, 0) != [] {
        var v := Vtable(sym.addr, ClassNameOf(sym), ScanFrom(img, sym.addr, 0));
        assert sym.addr in VtableAddrs(symbols);
        PutShape(prev, v);
        PutSound(prev, v, symbols, img);
        PutComplete(prev, v, init, symbols, img);
      } else {
        assert VtablesOf(symbols, img) == prev;
        CompleteGrows(prev, init, symbols, img);
      }
    }
  }

  lemma SymbolsGrow(init: seq<Symbol>, symbols: seq<Symbol>)
    requires symbols != [] && init == symbols[..|symbols| - 1]
    ensures VtableAddrs(init) <= VtableAddrs(symbols)
  {
    forall a | a in VtableAddrs(init) ensures a in VtableAddrs(symbols) {
      var i :| 0 <= i < |init| && IsVtableName(init[i].name) && init[i].addr == a;
      assert symbols[i] == init[i];
    }
  }

  lemma SoundGrows(vts: seq<Vtable>, init: seq<Symbol>, symbols: seq<Symbol>, img: Image)
    requires TablesSound(vts, init, img) && VtableAddrs(init) <= VtableAddrs(symbols)
    ensures TablesSound(vts, symbols, img)
  {
  }

  lemma CompleteGrows(vts: seq<Vtable>, init: seq<Symbol>, symbols: seq<Symbol>, img: Image)
    requires symbols != [] && init == symbols[..|symbols| - 1]
    requires TablesComplete(vts, init, img)
    requires var sym := symbols[|symbols| - 1];
             !(IsVtableName(sym.name) && ScanFrom(img, sym.addr, 0) != [])
    ensures TablesComplete(vts, symbols, img)
  {
    forall k | 0 <= k < |symbols| - 1
      ensures (IsVtableName(symbols[k].name) && ScanFrom(img, symbols[k].addr, 0) != []) ==>
              Find(vts, symbols[k].addr).Some?
    {
      assert symbols[k] == init[k];
    }
  }

  lemma PutSound(vts: seq<Vtable>, v: Vtable, symbols: seq<Symbol>, img: Image)
    requires TablesSound(vts, symbols, img)
    requires v.entries == ScanFrom(img, v.addr, 0) && v.entries != [] && v.addr in VtableAddrs(symbols)
    ensures TablesSound(Put(vts, v), symbols, img)
  {
    var r := Put(vts, v);
    assert forall i :: 0 <= i < |r| ==> r[i] == v || r[i] in vts;
  }

  lemma PutComplete(vts: seq<Vtable>, v: Vtable, init: seq<Symbol>, symbols: seq<Symbol>, img: Image)
    requires symbols != [] && init == symbols[..|symbols| - 1] && v.addr == symbols[|symbols| - 1].addr
    requires TablesComplete(vts, init, img)
    requires forall a :: Find(vts, a).Some? ==> Find(Put(vts, v), a).Some?
    requires Find(Put(vts, v), v.addr).Some?
    ensures TablesComplete(Put(vts, v), symbols, img)
  {
    forall k | 0 <= k < |symbols| - 1
      ensures (IsVtableName(symbols[k].name) && ScanFrom(img, symbols[k].addr, 0) != []) ==>
              Find(Put(vts, v), symbols[k].addr).Some?
    {
      assert symbols[k] == init[k];
    }
  }

  /** Assignment keeps keys unique, keeps every key, and stores the value under its
      key. */
  lemma PutShape(vts: seq<Vtable>, v: Vtable)
    requires UniqueAddrs(vts)
    ensures var r := Put(vts, v);
            UniqueAddrs(r) &&
            (forall i :: 0 <= i < |r| ==> r[i] == v || r[i] in vts) &&
            (forall a :: Find(vts, a).Some? ==> Find(r, a).Some?) &&
            Find(r, v.addr).Some? && r[Find(r, v.addr).value] == v
  {
    var r := Put(vts, v);
    forall a | Find(vts, a).Some? ensures Find(r, a).Some? {
      var k := Find(vts, a).value;
      assert r[k].addr == a;
    }
    match Find(vts, v.addr)
    case Some(i) =>
      assert r[i] == v;
    case None =>
      assert r[|r| - 1] == v;
  }

  // ---------------------------------------------------------------------
  // Assembling classes
  // ---------------------------------------------------------------------

  /** A decompiled function: its name, entry address, display name, and whether the
      calling-convention and data-reference tests call it virtual. */
  datatype FuncRecord = FuncRecord(funcName: string, entry: nat, displayName: string, flagVirtual: bool)

  /** A method as recorded in its class. */
  datatype MethodInfo = MethodInfo(funcName: string, methodName: string, isVirtual: bool, vtableIndex: int)

  /** A reconstructed class. */
  class CppClassInfo {
    const name: string
    var methods: seq<MethodInfo>
    var vtableAddr: Option<nat>
    var vtableFuncs: seq<Entry>

    constructor (name: string)
      ensures this.name == name && methods == [] && vtableAddr == None && vtableFuncs == []
    {
      this.name := name;
      methods := [];
      vtableAddr := None;
      vtableFuncs := [];
    }
  }

  /** The class a function belongs to: the scope of its display name, when there is
      a non-empty one. */
  function ClassOf(scope: Option<string>): (c: Option<string>)
    ensures c.Some? ==> c.value != []
  {
    if scope.Some? && scope.value != [] then scope else None
  }

  /** The scope extracted from each function's display name. */
  function Scopes(records: seq<FuncRecord>): (ss: seq<Option<string>>)
    ensures |ss| == |records|
  {
    if records == [] then []
    else
      var n := |records| - 1;
      Scopes(records[..n]) + [Names.ExtractClassFromMethod(records[n].displayName)]
  }

  /** The method's own name: the last `::` piece, up to its `(`, stripped. */
  function MethodName(displayName: string): string {
    var parts := Split(displayName, "::");
    Strip(Split(parts[|parts| - 1], "(")[0])
  }

  /** The method name holds neither `::` nor `(`. */
  lemma MethodNameLacks(displayName: string)
    ensures var m := MethodName(displayName); !Contains(m, "::") && '(' !in m
  {
    var parts := Split(displayName, "::");
    SplitLastLacksSep(displayName, "::");
    PieceNameLacks(parts[|parts| - 1]);
  }

  /** The name taken from a piece without `::` has neither `::` nor `(`. */
  lemma PieceNameLacks(last: string)
    requires !Contains(last, "::")
    ensures var m := Strip(Split(last, "(")[0]); !Contains(m, "::") && '(' !in m
  {
    var head := Split(last, "(")[0];
    HeadOfSplit(last, '(');
    StrippedHead(last, head);
  }

  lemma StrippedHead(last: string, head: string)
    requires !Contains(last, "::")
    requires |head| <= |last| && head == last[..|head|] && '(' !in head
    ensures !Contains(Strip(head), "::") && '(' !in Strip(head)
  {
    var i := StripIsSlice(head);
    var m := Strip(head);
    SliceOfPrefix(last, head, i, m);
    SliceContains(last, i, m, "::");
  }

  /** A slice `m` of a prefix `head` of `last` is a slice of `last`, and has no
      character `head` lacks. */
  lemma SliceOfPrefix(last: string, head: string, i: nat, m: string)
    requires |head| <= |last| && head == last[..|head|]
    requires i + |m| <= |head| && m == head[i..i + |m|]
    ensures i + |m| <= |last| && m == last[i..i + |m|]
    ensures forall c :: c in m ==> c in head
  {
    forall c | c in m ensures c in head {
      var k :| 0 <= k < |m| && m[k] == c;
      assert head[i + k] == c;
    }
  }

  /** A display name with neither `::` nor `(` is only stripped. */
  lemma MethodNamePlain(displayName: string)
    requires !Contains(displayName, "::") && '(' !in displayName
    ensures MethodName(displayName) == Strip(displayName)
  {
    SplitShape(displayName, "::");
    HeadOfSplit(displayName, '(');
  }

  /** The first piece of a split on `c` is a prefix of the text without `c`, and the
      whole text when `c` does not occur. */
  lemma HeadOfSplit(s: string, c: char)
    ensures var head := Split(s, [c])[0];
            |head| <= |s| && head == s[..|head|] && c !in head && (c !in s ==> head == s)
  {
    SplitPiecesLackSep(s, c);
    assert Split(s, [c])[0] in Split(s, [c]);
    ContainsChar(s, c);
    SplitShape(s, [c]);
  }

  /** A stripped text is a slice of the original. */
  lemma StripIsSlice(s: string) returns (i: nat)
    ensures i + |Strip(s)| <= |s| && Strip(s) == s[i..i + |Strip(s)|]
  {
    var l := LStrip(s);
    i := |s| - |l|;
    assert Strip(s) == l[..|Strip(s)|];
    assert s[i..i + |Strip(s)|] == l[..|Strip(s)|];
  }

  /** A slice of a text holds `pat` only where the text does. */
  lemma SliceContains(s: string, a: nat, m: string, pat: string)
    requires a + |m| <= |s| && m == s[a..a + |m|]
    ensures Contains(m, pat) ==> Contains(s, pat)
  {
    if Contains(m, pat) {
      var k := IndexOf(m, pat);
      SliceOfSlice(s, a, a + |m|, k, k + |pat|);
      assert OccursAt(s, pat, a + k);
    }
  }

  lemma SliceOfSlice(s: string, a: nat, e: nat, k: nat, l: nat)
    requires a <= e <= |s| && k <= l <= e - a
    ensures s[a..e][k..l] == s[a + k..a + l]
  {
    assert forall i :: 0 <= i < l - k ==> s[a..e][k..l][i] == s[a + k..a + l][i];
  }

  /** The slot of the first entry of `es` at address `a`. */
  function SlotOf(es: seq<Entry>, a: nat): (r: Option<nat>)
    ensures r.Some? ==> exists j :: 0 <= j < |es| && es[j].addr == a && es[j].index == r.value
    ensures r.None? <==> forall j :: 0 <= j < |es| ==> es[j].addr != a
  {
    if es == [] then None
    else if es[0].addr == a then Some(es[0].index)
    else
      var r := SlotOf(es[1..], a);
      assert forall j :: 0 <= j < |es| - 1 ==> es[1..][j] == es[j + 1];
      r
  }

  /** The slot matching `a` in the last table of class `c` that lists `a`. */
  function VtableSlot(vts: seq<Vtable>, c: string, a: nat): Option<nat> {
    if vts == [] then None
    else
      var last := vts[|vts| - 1];
      if last.className == Some(c) && SlotOf(last.entries, a).Some? then SlotOf(last.entries, a)
      else VtableSlot(vts[..|vts| - 1], c, a)
  }

  /** A slot is found exactly when some table of class `c` lists address `a`, and a
      slot found is the index of such an entry. */
  lemma {:induction false} VtableSlotMeaning(vts: seq<Vtable>, c: string, a: nat)
    ensures VtableSlot(vts, c, a).None? <==>
            forall i, j :: 0 <= i < |vts| && vts[i].className == Some(c) && 0 <= j < |vts[i].entries|
              ==> vts[i].entries[j].addr != a
    ensures VtableSlot(vts, c, a).Some? ==>
            exists i, j :: 0 <= i < |vts| && vts[i].className == Some(c) && 0 <= j < |vts[i].entries| &&
              vts[i].entries[j].addr == a && vts[i].entries[j].index == VtableSlot(vts, c, a).value
    decreases |vts|
  {
    if vts != [] {
      var init := vts[..|vts| - 1];
      VtableSlotMeaning(init, c, a);
      assert forall i :: 0 <= i < |init| ==> init[i] == vts[i];
    }
  }

  /** The search of `analyze_cpp_classes` through the tables for a function's entry
      point: within a table the first matching slot, across tables the last table
      that matches. */
  method LookupSlot(vts: seq<Vtable>, c: string, a: nat) returns (found: bool, index: int)
    ensures found <==> VtableSlot(vts, c, a).Some?
    ensures index == if found then VtableSlot(vts, c, a).value as int else -1
  {
    found, index := false, -1;
    for v := 0 to |vts|
      invariant found <==> VtableSlot(vts[..v], c, a).Some?
      invariant index == if found then VtableSlot(vts[..v], c, a).value as int else -1
    {
      assert vts[..v + 1][..v] == vts[..v];
      if vts[v].className == Some(c) {
        var es := vts[v].entries;
        var k := 0;
        while k < |es|
          invariant k <= |es| && SlotOf(es, a) == SlotOf(es[k..], a)
        {
          if es[k].addr == a {
            found, index := true, es[k].index;
            break;
          }
          assert es[k..][1..] == es[k + 1..];
          k := k + 1;
        }
      }
    }
    assert vts[..|vts|] == vts;
  }

  /** What the class records for a function of class `c`. */
  function MethodOf(r: FuncRecord, vts: seq<Vtable>, c: string): MethodInfo {
    var slot := VtableSlot(vts, c, r.entry);
    MethodInfo(r.funcName, MethodName(r.displayName), r.flagVirtual || slot.Some?,
               if slot.Some? then slot.value as int else -1)
  }

  /** The methods of class `c`, in the order its functions come. */
  function MethodsOf(records: seq<FuncRecord>, scopes: seq<Option<string>>, vts: seq<Vtable>, c: string): seq<MethodInfo>
    requires |scopes| == |records|
  {
    if records == [] then []
    else
      var n := |records| - 1;
      MethodsOf(records[..n], scopes[..n], vts, c) +
      (if ClassOf(scopes[n]) == Some(c) then [MethodOf(records[n], vts, c)] else [])
  }

  /** The classes in the order they are first met. */
  function ClassOrder(scopes: seq<Option<string>>): (order: seq<string>)
    ensures forall i, j :: 0 <= i < j < |order| ==> order[i] != order[j]
    ensures forall i :: 0 <= i < |order| ==> order[i] != []
  {
    if scopes == [] then []
    else
      var prev := ClassOrder(scopes[..|scopes| - 1]);
      var c := ClassOf(scopes[|scopes| - 1]);
      if c.Some? && c.value !in prev then prev + [c.value] else prev
  }

  /** A class is listed exactly when some function belongs to it. */
  lemma {:induction false} ClassOrderMembers(scopes: seq<Option<string>>, c: string)
    ensures c in ClassOrder(scopes) <==> exists i :: 0 <= i < |scopes| && ClassOf(scopes[i]) == Some(c)
    decreases |scopes|
  {
    if scopes != [] {
      var n := |scopes| - 1;
      var init := scopes[..n];
      ClassOrderMembers(init, c);
      if c in ClassOrder(scopes) && c in ClassOrder(init) {
        var i :| 0 <= i < |init| && ClassOf(init[i]) == Some(c);
        assert scopes[i] == init[i];
      }
      if i :| 0 <= i < |scopes| && ClassOf(scopes[i]) == Some(c) {
        if i < n {
          assert scopes[i] == init[i];
        }
      }
    }
  }

  /** A class no function belongs to has no methods. */
  lemma {:induction false} MethodsOfAbsent(records: seq<FuncRecord>, scopes: seq<Option<string>>,
                                           vts: seq<Vtable>, c: string)
    requires |scopes| == |records| && c !in ClassOrder(scopes)
    ensures MethodsOf(records, scopes, vts, c) == []
    decreases |records|
  {
    if records != [] {
      var n := |records| - 1;
      MethodsOfAbsent(records[..n], scopes[..n], vts, c);
    }
  }

  /** The last table naming class `c`. */
  function AttachedVtable(vts: seq<Vtable>, c: string): Option<Vtable> {
    if vts == [] then None
    else if vts[|vts| - 1].className == Some(c) then Some(vts[|vts| - 1])
    else AttachedVtable(vts[..|vts| - 1], c)
  }

  /** A table is attached exactly when one names the class, and the attached one is
      the last such in dictionary order. */
  lemma {:induction false} AttachedVtableMeaning(vts: seq<Vtable>, c: string)
    ensures AttachedVtable(vts, c).None? <==> forall i :: 0 <= i < |vts| ==> vts[i].className != Some(c)
    ensures AttachedVtable(vts, c).Some? ==>
            exists i :: 0 <= i < |vts| && vts[i] == AttachedVtable(vts, c).value &&
              vts[i].className == Some(c) &&
              forall j :: i < j < |vts| ==> vts[j].className != Some(c)
    decreases |vts|
  {
    if vts != [] {
      var init := vts[..|vts| - 1];
      AttachedVtableMeaning(init, c);
      assert forall i :: 0 <= i < |init| ==> init[i] == vts[i];
    }
  }

  /** The address of the table attached to class `c`, if any. */
  function AttachedAddr(vts: seq<Vtable>, c: string): Option<nat> {
    match AttachedVtable(vts, c) case Some(v) => Some(v.addr) case None => None
  }

  /** The entries of the table attached to class `c`, if any. */
  function AttachedFuncs(vts: seq<Vtable>, c: string): seq<Entry> {
    match AttachedVtable(vts, c) case Some(v) => v.entries case None => []
  }

  /** The classes listed in `order` are the keys, each under its own object. */
  ghost predicate Keyed(classes: map<string, CppClassInfo>, order: seq<string>) {
    (forall c :: c in classes <==> c in order) &&
    (forall c, d :: c in classes && d in classes && c != d ==> classes[c] != classes[d])
  }

  /** The state of the class dictionary after the first pass over `records`. */
  ghost predicate Collected(classes: map<string, CppClassInfo>, order: seq<string>,
                            records: seq<FuncRecord>, scopes: seq<Option<string>>, vts: seq<Vtable>)
    requires |scopes| == |records|
    reads set c | c in classes :: classes[c]
  {
    order == ClassOrder(scopes) && Keyed(classes, order) &&
    (forall c :: c in classes ==>
       classes[c].name == c && classes[c].methods == MethodsOf(records, scopes, vts, c) &&
       classes[c].vtableAddr == None && classes[c].vtableFuncs == [])
  }

  /** Taking one more function: the class order grows by its class when that is new. */
  lemma OrderStep(scopes: seq<Option<string>>, x: Option<string>)
    ensures var prev := ClassOrder(scopes);
            var c := ClassOf(x);
            ClassOrder(scopes + [x]) == if c.Some? && c.value !in prev then prev + [c.value] else prev
  {
    assert (scopes + [x])[..|scopes|] == scopes;
  }

  /** Taking one more function: the methods of its class grow by it, and those of
      every other class stay. */
  lemma MethodsStep(records: seq<FuncRecord>, scopes: seq<Option<string>>, x: Option<string>,
                    i: nat, vts: seq<Vtable>, c: string)
    requires i < |records| && |scopes| == i
    ensures MethodsOf(records[..i + 1], scopes + [x], vts, c) ==
            MethodsOf(records[..i], scopes, vts, c) +
            (if ClassOf(x) == Some(c) then [MethodOf(records[i], vts, c)] else [])
  {
    assert records[..i + 1][..i] == records[..i];
    assert (scopes + [x])[..i] == scopes;
  }

  /** The scopes of one more function. */
  lemma ScopesStep(records: seq<FuncRecord>, i: nat)
    requires i < |records|
    ensures Scopes(records[..i + 1]) == Scopes(records[..i]) + [Names.ExtractClassFromMethod(records[i].displayName)]
  {
    assert records[..i + 1][..i] == records[..i];
  }

  /** Appends method `m` to class `c`, creating the class first when it is new; every
      other class keeps its object and its fields. */
  method AddMethod(classes: map<string, CppClassInfo>, order: seq<string>, c: string, m: MethodInfo,
                   ghost before: map<string, seq<MethodInfo>>)
    returns (classes': map<string, CppClassInfo>, order': seq<string>, ghost after: map<string, seq<MethodInfo>>)
    requires Keyed(classes, order)
    requires forall d :: d in classes ==> d in before && classes[d].methods == before[d]
    requires forall d :: d in classes ==>
               classes[d].name == d && classes[d].vtableAddr == None && classes[d].vtableFuncs == []
    modifies if c in classes then {classes[c]} else {}
    ensures order' == if c in classes then order else order + [c]
    ensures Keyed(classes', order')
    ensures forall d :: d in classes' ==>
              classes'[d].name == d && classes'[d].vtableAddr == None && classes'[d].vtableFuncs == [] &&
              (if d in classes then classes'[d] == classes[d] else fresh(classes'[d]))
    ensures forall d :: d in after <==> d in classes'
    ensures forall d :: d in classes' ==> classes'[d].methods == after[d]
    ensures forall d :: d in after ==>
              after[d] == if d != c then before[d] else (if c in classes then before[c] else []) + [m]
  {
    classes', order' := classes, order;
    if c !in classes {
      var info := new CppClassInfo(c);
      classes' := classes[c := info];
      order' := order + [c];
    }
    classes'[c].methods := classes'[c].methods + [m];
    after := map d | d in classes' :: classes'[d].methods;
  }

  /** The method record of a function of class `c`, computed with the slot search. */
  method MethodFor(r: FuncRecord, vts: seq<Vtable>, c: string) returns (m: MethodInfo)
    ensures m == MethodOf(r, vts, c)
  {
    var isVirtual := r.flagVirtual;
    var found, vtableIndex := LookupSlot(vts, c, r.entry);
    if found {
      isVirtual := true;
    }
    m := MethodInfo(r.funcName, MethodName(r.displayName), isVirtual, vtableIndex);
  }

  /** One step of the first pass: the function `records[i]`, whose scope is `scope`, is
      appended as a method to its class when it has one. */
  method CollectOne(classes: map<string, CppClassInfo>, order: seq<string>, records: seq<FuncRecord>,
                    ghost scopes: seq<Option<string>>, scope: Option<string>, i: nat, vts: seq<Vtable>)
    returns (classes': map<string, CppClassInfo>, order': seq<string>)
    requires i < |records| && |scopes| == i
    requires Collected(classes, order, records[..i], scopes, vts)
    modifies set c | c in classes :: classes[c]
    ensures Collected(classes', order', records[..i + 1], scopes + [scope], vts)
    ensures forall c :: c in classes' ==> if c in classes then classes'[c] == classes[c] else fresh(classes'[c])
  {
    if scope.Some? && scope.value != [] {
      classes', order' := CollectInto(classes, order, records, scopes, scope.value, i, vts);
    } else {
      classes', order' := classes, order;
      CollectSkip(classes, order, records, scopes, scope, i, vts);
    }
  }

  /** A function without a class leaves the dictionary as it is. */
  lemma CollectSkip(classes: map<string, CppClassInfo>, order: seq<string>, records: seq<FuncRecord>,
                    scopes: seq<Option<string>>, scope: Option<string>, i: nat, vts: seq<Vtable>)
    requires i < |records| && |scopes| == i && ClassOf(scope).None?
    requires Collected(classes, order, records[..i], scopes, vts)
    ensures Collected(classes, order, records[..i + 1], scopes + [scope], vts)
  {
    OrderStep(scopes, scope);
    forall d | d in classes
      ensures classes[d].methods == MethodsOf(records[..i + 1], scopes + [scope], vts, d)
    {
      MethodsStep(records, scopes, scope, i, vts, d);
    }
  }

  /** A function of class `c` is appended to that class's methods. */
  method CollectInto(classes: map<string, CppClassInfo>, order: seq<string>, records: seq<FuncRecord>,
                     ghost scopes: seq<Option<string>>, c: string, i: nat, vts: seq<Vtable>)
    returns (classes': map<string, CppClassInfo>, order': seq<string>)
    requires i < |records| && |scopes| == i && c != []
    requires Collected(classes, order, records[..i], scopes, vts)
    modifies set c | c in classes :: classes[c]
    ensures Collected(classes', order', records[..i + 1], scopes + [Some(c)], vts)
    ensures forall c :: c in classes' ==> if c in classes then classes'[c] == classes[c] else fresh(classes'[c])
  {
    OrderStep(scopes, Some(c));
    var m := MethodFor(records[i], vts, c);
    ghost var before := map d | d in classes :: classes[d].methods;
    CollectedBefore(classes, order, records[..i], scopes, vts, c, before);
    ghost var after;
    classes', order', after := AddMethod(classes, order, c, m, before);
    MethodsGrow(before, after, records, scopes, i, vts, c, m);
    CollectedOf(classes', order', records[..i + 1], scopes + [Some(c)], vts, after);
  }

  /** What the first pass has collected, as a map from class to methods. */
  lemma CollectedBefore(classes: map<string, CppClassInfo>, order: seq<string>, records: seq<FuncRecord>,
                        scopes: seq<Option<string>>, vts: seq<Vtable>, c: string,
                        before: map<string, seq<MethodInfo>>)
    requires |scopes| == |records| && Collected(classes, order, records, scopes, vts)
    requires forall d :: d in before <==> d in classes
    requires forall d :: d in classes ==> before[d] == classes[d].methods
    ensures forall d :: d in before ==> before[d] == MethodsOf(records, scopes, vts, d)
    ensures c !in before ==> MethodsOf(records, scopes, vts, c) == []
  {
    if c !in before {
      MethodsOfAbsent(records, scopes, vts, c);
    }
  }

  /** The dictionary's fields say what the first pass has collected. */
  lemma CollectedOf(classes: map<string, CppClassInfo>, order: seq<string>,
                    records: seq<FuncRecord>, scopes: seq<Option<string>>, vts: seq<Vtable>,
                    after: map<string, seq<MethodInfo>>)
    requires |scopes| == |records| && order == ClassOrder(scopes) && Keyed(classes, order)
    requires forall c :: c in classes ==> c in after && classes[c].methods == after[c]
    requires forall c :: c in after ==> after[c] == MethodsOf(records, scopes, vts, c)
    requires forall c :: c in classes ==> classes[c].name == c
    requires forall c :: c in classes ==> classes[c].vtableAddr == None && classes[c].vtableFuncs == []
    ensures Collected(classes, order, records, scopes, vts)
  {
  }

  /** The methods of every class after one function of class `c` is appended. */
  lemma MethodsGrow(before: map<string, seq<MethodInfo>>, after: map<string, seq<MethodInfo>>,
                    records: seq<FuncRecord>, scopes: seq<Option<string>>, i: nat, vts: seq<Vtable>,
                    c: string, m: MethodInfo)
    requires i < |records| && |scopes| == i && c != [] && m == MethodOf(records[i], vts, c)
    requires forall d :: d in before ==> before[d] == MethodsOf(records[..i], scopes, vts, d)
    requires c !in before ==> MethodsOf(records[..i], scopes, vts, c) == []
    requires forall d :: d in after <==> d in before || d == c
    requires forall d :: d in after ==>
               after[d] == if d != c then before[d] else (if c in before then before[c] else []) + [m]
    ensures forall d :: d in after ==> after[d] == MethodsOf(records[..i + 1], scopes + [Some(c)], vts, d)
  {
    forall d | d in after ensures after[d] == MethodsOf(records[..i + 1], scopes + [Some(c)], vts, d) {
      MethodsStep(records, scopes, Some(c), i, vts, d);
    }
  }

  /** The first pass: each function with a class is appended, as a method, to that
      class, which is created when first met. */
  method CollectMethods(records: seq<FuncRecord>, vts: seq<Vtable>)
    returns (classes: map<string, CppClassInfo>, order: seq<string>)
    ensures Collected(classes, order, records, Scopes(records), vts)
    ensures forall c :: c in classes ==> fresh(classes[c])
  {
    ghost var scopes: seq<Option<string>> := [];
    classes, order := map[], [];
    for i := 0 to |records|
      invariant scopes == Scopes(records[..i])
      invariant Collected(classes, order, records[..i], scopes, vts)
      invariant forall c :: c in classes ==> fresh(classes[c])
    {
      var scope := Names.ExtractClassFromMethod(records[i].displayName);
      ScopesStep(records, i);
      classes, order := CollectOne(classes, order, records, scopes, scope, i, vts);
      scopes := scopes + [scope];
    }
    assert records[..|records|] == records;
  }

  /** The second pass: every table naming an existing class is attached to it, so the
      last such table wins; the methods stay as they are. */
  method AttachVtables(classes: map<string, CppClassInfo>, order: seq<string>, vts: seq<Vtable>)
    requires Keyed(classes, order)
    requires forall c :: c in classes ==>
               c != [] && classes[c].name == c && classes[c].vtableAddr == None && classes[c].vtableFuncs == []
    modifies set c | c in classes :: classes[c]
    ensures forall c :: c in classes ==>
              classes[c].name == c && classes[c].methods == old(classes[c].methods) &&
              classes[c].vtableAddr == AttachedAddr(vts, c) && classes[c].vtableFuncs == AttachedFuncs(vts, c)
  {
    for v := 0 to |vts|
      invariant forall c :: c in classes ==>
                  classes[c].methods == old(classes[c].methods) &&
                  classes[c].vtableAddr == AttachedAddr(vts[..v], c) &&
                  classes[c].vtableFuncs == AttachedFuncs(vts[..v], c)
    {
      assert vts[..v + 1][..v] == vts[..v];
      var name := vts[v].className;
      if name.Some? && name.value != [] && name.value in classes {
        classes[name.value].vtableAddr := Some(vts[v].addr);
        classes[name.value].vtableFuncs := vts[v].entries;
      }
    }
    assert vts[..|vts|] == vts;
  }

  /** `analyze_cpp_classes`: its two passes over the functions and the tables. */
  method AnalyzeCppClasses(records: seq<FuncRecord>, vts: seq<Vtable>)
    returns (classes: map<string, CppClassInfo>, order: seq<string>)
    ensures order == ClassOrder(Scopes(records)) && Keyed(classes, order)
    ensures forall c :: c in classes ==> fresh(classes[c])
    ensures forall c :: c in classes ==>
              classes[c].name == c && classes[c].methods == MethodsOf(records, Scopes(records), vts, c) &&
              classes[c].vtableAddr == AttachedAddr(vts, c) && classes[c].vtableFuncs == AttachedFuncs(vts, c)
  {
    classes, order := CollectMethods(records, vts);
    AttachVtables(classes, order, vts);
  }
}
