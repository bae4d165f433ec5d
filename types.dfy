/** The Ghidra pseudo-type table and the two ways it is applied: to one type
    string, keeping its pointer stars, and as whole words across a code text. */
module TypeNormalizer {
  import opened Text

  /** GHIDRA_TYPE_MAP, in declaration order (the order the text pass applies it in). */
  const TypeMap: seq<(string, string)> := [
    ("undefined", "unk8_t"),
    ("undefined1", "unk8_t"),
    ("undefined2", "unk16_t"),
    ("undefined3", "unk32_t"),
    ("undefined4", "unk32_t"),
    ("undefined5", "unk64_t"),
    ("undefined6", "unk64_t"),
    ("undefined7", "unk64_t"),
    ("undefined8", "unk64_t"),
    ("byte", "uint8_t"),
    ("ubyte", "uint8_t"),
    ("sbyte", "int8_t"),
    ("word", "uint16_t"),
    ("sword", "int16_t"),
    ("dword", "uint32_t"),
    ("sdword", "int32_t"),
    ("qword", "uint64_t"),
    ("sqword", "int64_t"),
    ("uint", "uint32_t"),
    ("ushort", "uint16_t"),
    ("ulong", "uint32_t"),
    ("ulonglong", "uint64_t"),
    ("longlong", "int64_t"),
    ("uchar", "uint8_t"),
    ("schar", "int8_t"),
    ("addr", "void *"),
    ("pointer", "void *")
  ]

  /** The keys of the table. */
  const Keys: set<string> := {
    "undefined", "undefined1", "undefined2", "undefined3", "undefined4",
    "undefined5", "undefined6", "undefined7", "undefined8",
    "byte", "ubyte", "sbyte", "word", "sword", "dword", "sdword", "qword", "sqword",
    "uint", "ushort", "ulong", "ulonglong", "longlong", "uchar", "schar",
    "addr", "pointer"
  }

  /** The word runs of the table's targets. */
  const TargetWords: set<string> := {
    "unk8_t", "unk16_t", "unk32_t", "unk64_t", "uint8_t", "int8_t", "uint16_t",
    "int16_t", "uint32_t", "int32_t", "uint64_t", "int64_t", "void"
  }

  /** Dictionary lookup in a table given as a sequence of pairs. */
  function Lookup(table: seq<(string, string)>, key: string): (r: Option<string>)
    ensures r.Some? <==> exists i :: 0 <= i < |table| && table[i].0 == key
    ensures r.Some? ==> exists i :: 0 <= i < |table| && table[i] == (key, r.value)
  {
    if table == [] then None
    else if table[0].0 == key then Some(table[0].1)
    else
      var r := Lookup(table[1..], key);
      assert forall i :: 1 <= i < |table| ==> table[i] == table[1..][i - 1];
      r
  }

  /** Every target is either one of the target words or `void *`. */
  lemma TargetsAreWords()
    ensures forall i :: 0 <= i < |TypeMap| ==> TypeMap[i].1 in TargetWords || TypeMap[i].1 == "void *"
  {
  }

  /** Exactly the two pointer placeholders map to `void *`. */
  lemma PointerTargets()
    ensures forall i :: 0 <= i < |TypeMap| ==>
              (TypeMap[i].1 == "void *" <==> TypeMap[i].0 in {"addr", "pointer"})
  {
  }

  lemma PlaceholdersAreKeys()
    ensures "addr" in Keys && "pointer" in Keys
  {
    assert TypeMap[25].0 == "addr" && TypeMap[26].0 == "pointer";
  }

  /** The target words are single words, none of them a key. */
  lemma TargetWordsShape()
    ensures forall w :: w in TargetWords ==> w != [] && AllWordChars(w) && w !in Keys
  {
    TargetWordsAreWords();
    TargetWordsUnderscored();
    KeysLackUnderscore();
    forall w | w in TargetWords ensures w !in Keys {
      if w != "void" {
        assert '_' in w;
      }
    }
  }

  lemma TargetWordsAreWords()
    ensures forall w :: w in TargetWords ==> w != [] && AllWordChars(w)
  {
  }

  /** Every target word but `void` has an underscore. */
  lemma TargetWordsUnderscored()
    ensures forall w :: w in TargetWords ==> w == "void" || '_' in w
  {
  }

  /** No key has an underscore, and `void` is not a key. */
  lemma KeysLackUnderscore()
    ensures forall k :: k in Keys ==> '_' !in k
    ensures "void" !in Keys
  {
  }

  /** Every key is the key of some entry of the ordered table. */
  lemma KeysInTable()
    ensures forall k :: k in Keys ==> exists i :: 0 <= i < |TypeMap| && TypeMap[i].0 == k
  {
    forall k | k in Keys ensures exists i :: 0 <= i < |TypeMap| && TypeMap[i].0 == k {
      if k in {"undefined", "undefined1", "undefined2", "undefined3", "undefined4", "undefined5", "undefined6", "undefined7", "undefined8"} {
        KeysInTableA(k);
      } else if k in {"byte", "ubyte", "sbyte", "word", "sword", "dword", "sdword", "qword", "sqword"} {
        KeysInTableB(k);
      } else {
        KeysInTableC(k);
      }
    }
  }

  lemma KeysInTableA(k: string)
    requires k in {"undefined", "undefined1", "undefined2", "undefined3", "undefined4", "undefined5", "undefined6", "undefined7", "undefined8"}
    ensures exists i :: 0 <= i < |TypeMap| && TypeMap[i].0 == k
  {
    assert TypeMap[0].0 == "undefined";
    assert TypeMap[1].0 == "undefined1";
    assert TypeMap[2].0 == "undefined2";
    assert TypeMap[3].0 == "undefined3";
    assert TypeMap[4].0 == "undefined4";
    assert TypeMap[5].0 == "undefined5";
    assert TypeMap[6].0 == "undefined6";
    assert TypeMap[7].0 == "undefined7";
    assert TypeMap[8].0 == "undefined8";
  }

  lemma KeysInTableB(k: string)
    requires k in {"byte", "ubyte", "sbyte", "word", "sword", "dword", "sdword", "qword", "sqword"}
    ensures exists i :: 0 <= i < |TypeMap| && TypeMap[i].0 == k
  {
    assert TypeMap[9].0 == "byte";
    assert TypeMap[10].0 == "ubyte";
    assert TypeMap[11].0 == "sbyte";
    assert TypeMap[12].0 == "word";
    assert TypeMap[13].0 == "sword";
    assert TypeMap[14].0 == "dword";
    assert TypeMap[15].0 == "sdword";
    assert TypeMap[16].0 == "qword";
    assert TypeMap[17].0 == "sqword";
  }

  lemma KeysInTableC(k: string)
    requires k in {"uint", "ushort", "ulong", "ulonglong", "longlong", "uchar", "schar", "addr", "pointer"}
    ensures exists i :: 0 <= i < |TypeMap| && TypeMap[i].0 == k
  {
    assert TypeMap[18].0 == "uint";
    assert TypeMap[19].0 == "ushort";
    assert TypeMap[20].0 == "ulong";
    assert TypeMap[21].0 == "ulonglong";
    assert TypeMap[22].0 == "longlong";
    assert TypeMap[23].0 == "uchar";
    assert TypeMap[24].0 == "schar";
    assert TypeMap[25].0 == "addr";
    assert TypeMap[26].0 == "pointer";
  }

  /** The word runs of every target are target words. */
  lemma WordsOfTargets()
    ensures forall i :: 0 <= i < |TypeMap| ==> forall x :: x in Words(TypeMap[i].1) ==> x in TargetWords
  {
    TargetsAreWords();
    TargetWordsShape();
    forall i | 0 <= i < |TypeMap| ensures forall x :: x in Words(TypeMap[i].1) ==> x in TargetWords {
      var t := TypeMap[i].1;
      if t == "void *" {
        VoidStarWords();
      } else {
        WordsOfWord(t);
      }
    }
  }

  lemma VoidStarWords()
    ensures Words("void *") == ["void"]
  {
    WordsOfWord("void");
    WordsOfSingleNonWord(' ');
    WordsOfSingleNonWord('*');
    WordsAppend(" ", "*");
    assert " " + "*" == " *";
    WordsAppend("void", " *");
    assert "void" + " *" == "void *";
  }

  /** The dictionary lookup `GHIDRA_TYPE_MAP.get(base)`, with what the table
      guarantees about its answer. */
  function MapType(base: string): (r: Option<string>)
    ensures r.Some? <==> base in Keys
    ensures r.Some? ==> (r.value == "void *" <==> base in {"addr", "pointer"})
    ensures r.Some? && r.value != "void *" ==> r.value in TargetWords
  {
    match base
      case "undefined" => Some("unk8_t")
      case "undefined1" => Some("unk8_t")
      case "undefined2" => Some("unk16_t")
      case "undefined3" => Some("unk32_t")
      case "undefined4" => Some("unk32_t")
      case "undefined5" => Some("unk64_t")
      case "undefined6" => Some("unk64_t")
      case "undefined7" => Some("unk64_t")
      case "undefined8" => Some("unk64_t")
      case "byte" => Some("uint8_t")
      case "ubyte" => Some("uint8_t")
      case "sbyte" => Some("int8_t")
      case "word" => Some("uint16_t")
      case "sword" => Some("int16_t")
      case "dword" => Some("uint32_t")
      case "sdword" => Some("int32_t")
      case "qword" => Some("uint64_t")
      case "sqword" => Some("int64_t")
      case "uint" => Some("uint32_t")
      case "ushort" => Some("uint16_t")
      case "ulong" => Some("uint32_t")
      case "ulonglong" => Some("uint64_t")
      case "longlong" => Some("int64_t")
      case "uchar" => Some("uint8_t")
      case "schar" => Some("int8_t")
      case "addr" => Some("void *")
      case "pointer" => Some("void *")
      case _ => None
  }

  /** The lookup and the ordered table agree. */
  lemma MapTypeTable()
    ensures forall i :: 0 <= i < |TypeMap| ==> MapType(TypeMap[i].0) == Some(TypeMap[i].1)
  {
  }

  // ---------------------------------------------------------------------
  // normalize_ghidra_type
  // ---------------------------------------------------------------------

  /** `normalize_ghidra_type`: remove every star, strip, map the base through the
      table and re-append a space and as many stars as were removed. The empty
      string is returned unchanged. */
  function NormalizeGhidraType(t: string): (r: string)
  {
    if t == [] then t
    else
      var stars := CountChar(t, '*');
      var mapped := MapBase(BaseOf(t));
      if stars > 0 then mapped + " " + Repeat('*', stars) else mapped
  }

  /** The base type a type string is normalised from. */
  function BaseOf(t: string): (b: string)
    ensures '*' !in b
  {
    Strip(RemoveChar(t, '*'))
  }

  /** The base after the table lookup: its target, or the base itself. */
  function MapBase(base: string): string
  {
    match MapType(base) case Some(c) => c case None => base
  }

  /** The mapped base has a star exactly when the base is a pointer placeholder. */
  lemma MapBaseStars(base: string)
    requires '*' !in base
    ensures CountChar(MapBase(base), '*') == if base in {"addr", "pointer"} then 1 else 0
  {
    var lk := MapType(base);
    if lk.Some? {
      if lk.value == "void *" {
        assert CountChar("void *", '*') == 1;
      } else {
        TargetWordsShape();
        CountCharAbsent(lk.value, '*');
      }
    } else {
      PlaceholdersAreKeys();
      CountCharAbsent(base, '*');
    }
  }

  /** Pointer arity: the stars of the result are those of the input, plus one when
      the base is a pointer placeholder (`addr`, `pointer`) whose target is `void *`. */
  lemma NormalizeGhidraTypeStars(t: string)
    requires t != []
    ensures CountChar(NormalizeGhidraType(t), '*') ==
            CountChar(t, '*') + (if BaseOf(t) in {"addr", "pointer"} then 1 else 0)
  {
    var stars := CountChar(t, '*');
    var mapped := MapBase(BaseOf(t));
    MapBaseStars(BaseOf(t));
    if stars > 0 {
      CountCharAppend(mapped, " ", '*');
      CountCharAppend(mapped + " ", Repeat('*', stars), '*');
      CountRepeat('*', stars);
    }
  }

  /** The empty type string is returned unchanged. */
  lemma NormalizeGhidraTypeEmpty()
    ensures NormalizeGhidraType("") == ""
  {
  }

  /** Away from the pointer placeholders the mapped base is a fixed point of the
      lookup: star-free, not padded with whitespace, and not itself a key. */
  lemma MapBaseFixed(base: string)
    requires '*' !in base && base != "addr" && base != "pointer"
    requires base == [] || (!IsSpace(base[0]) && !IsSpace(base[|base| - 1]))
    ensures var m := MapBase(base);
            '*' !in m && MapType(m).None? &&
            (m == [] || (!IsSpace(m[0]) && !IsSpace(m[|m| - 1])))
  {
    var lk := MapType(base);
    if lk.Some? {
      TargetWordsShape();
      assert lk.value in TargetWords;
    }
  }

  /** A type whose base maps to a star-free target (or to nothing) normalises to a
      fixed point: normalising it again changes nothing. */
  lemma NormalizeGhidraTypeIdempotent(t: string)
    requires BaseOf(t) != "addr" && BaseOf(t) != "pointer"
    ensures NormalizeGhidraType(NormalizeGhidraType(t)) == NormalizeGhidraType(t)
  {
    if t != [] {
      if CountChar(t, '*') > 0 {
        IdempotentStarred(t);
      } else {
        IdempotentUnstarred(t);
      }
    }
  }

  lemma IdempotentStarred(t: string)
    requires t != [] && CountChar(t, '*') > 0
    requires BaseOf(t) != "addr" && BaseOf(t) != "pointer"
    ensures NormalizeGhidraType(NormalizeGhidraType(t)) == NormalizeGhidraType(t)
  {
    var stars := CountChar(t, '*');
    var mapped := MapBase(BaseOf(t));
    MapBaseFixed(BaseOf(t));
    NormalizeGhidraTypeStarred(t, mapped, stars);
    StarredFixed(mapped, stars);
  }

  lemma IdempotentUnstarred(t: string)
    requires t != [] && CountChar(t, '*') == 0
    requires BaseOf(t) != "addr" && BaseOf(t) != "pointer"
    ensures NormalizeGhidraType(NormalizeGhidraType(t)) == NormalizeGhidraType(t)
  {
    var mapped := MapBase(BaseOf(t));
    MapBaseFixed(BaseOf(t));
    NormalizeGhidraTypeUnstarred(t, mapped);
    UnstarredFixed(mapped);
  }

  /** A star-free, unpadded, unmapped base followed by its stars is a fixed point. */
  lemma StarredFixed(m: string, n: nat)
    requires '*' !in m && MapType(m).None? && n > 0
    requires m == [] || (!IsSpace(m[0]) && !IsSpace(m[|m| - 1]))
    ensures NormalizeGhidraType(m + " " + Repeat('*', n)) == m + " " + Repeat('*', n)
  {
    BaseOfStarred(m, n);
  }

  /** A star-free, unpadded, unmapped base is a fixed point. */
  lemma UnstarredFixed(m: string)
    requires '*' !in m && MapType(m).None?
    requires m == [] || (!IsSpace(m[0]) && !IsSpace(m[|m| - 1]))
    ensures NormalizeGhidraType(m) == m
  {
    if m != [] {
      CountCharAbsent(m, '*');
      RemoveCharAbsent(m, '*');
      assert BaseOf(m) == m;
    }
  }

  lemma {:induction false} RemoveCharAbsent(s: string, c: char)
    requires c !in s
    ensures RemoveChar(s, c) == s
  {
    if s != [] { RemoveCharAbsent(s[1..], c); }
  }

  lemma {:induction false} RemoveCharAppend(a: string, b: string, c: char)
    ensures RemoveChar(a + b, c) == RemoveChar(a, c) + RemoveChar(b, c)
  {
    if a == [] {
      assert a + b == b;
    } else {
      assert (a + b)[0] == a[0];
      assert (a + b)[1..] == a[1..] + b;
      RemoveCharAppend(a[1..], b, c);
    }
  }

  lemma {:induction false} RemoveCharRepeat(n: int)
    ensures RemoveChar(Repeat('*', n), '*') == []
  {
    if n > 0 {
      assert Repeat('*', n)[1..] == Repeat('*', n - 1);
      RemoveCharRepeat(n - 1);
    }
  }

  /** Stripping a stripped text followed by one space gives the text back. */
  lemma StripTrailingSpace(m: string)
    requires m == [] || (!IsSpace(m[0]) && !IsSpace(m[|m| - 1]))
    ensures Strip(m + " ") == m
  {
    var s := m + " ";
    if m == [] {
      assert LStrip(" ") == [];
    } else {
      assert s[0] == m[0];
      assert LStrip(s) == s;
      assert s[..|s| - 1] == m;
      assert RStrip(s) == RStrip(m);
    }
  }

  /** `"addr *"` normalises to `"void * *"`, which normalises to `"void **"`: the
      pass is not idempotent on the pointer placeholders. */
  lemma NormalizeGhidraTypeAddrNotIdempotent()
    ensures NormalizeGhidraType("addr *") == "void * *"
    ensures NormalizeGhidraType("void * *") == "void **"
  {
    AddrStep();
    VoidStep();
  }

  lemma AddrStep()
    ensures NormalizeGhidraType("addr *") == "void * *"
  {
    BaseOfStarred("addr", 1);
    AddrText();
    AddrMaps();
    NormalizeGhidraTypeStarred("addr *", "void *", 1);
    AddrResultText();
  }

  lemma AddrText()
    ensures "addr" + " " + Repeat('*', 1) == "addr *"
  {
    assert Repeat('*', 1) == "*";
  }

  lemma AddrResultText()
    ensures "void *" + " " + Repeat('*', 1) == "void * *"
  {
    assert Repeat('*', 1) == "*";
  }

  lemma AddrMaps()
    ensures MapBase("addr") == "void *"
  {
  }

  lemma VoidStep()
    ensures NormalizeGhidraType("void * *") == "void **"
  {
    VoidStars();
    VoidBase();
    TargetWordsShape();
    assert "void" in TargetWords;
    MapBaseUnmapped("void");
    NormalizeGhidraTypeStarred("void * *", "void", 2);
    VoidText();
  }

  lemma VoidText()
    ensures "void" + " " + Repeat('*', 2) == "void **"
  {
    assert Repeat('*', 2) == "**";
  }

  /** A base that is not a key is kept. */
  lemma MapBaseUnmapped(base: string)
    requires base !in Keys
    ensures MapBase(base) == base
  {
  }

  /** The result for a star-free type is its mapped base. */
  lemma NormalizeGhidraTypeUnstarred(t: string, m: string)
    requires t != [] && CountChar(t, '*') == 0 && MapBase(BaseOf(t)) == m
    ensures NormalizeGhidraType(t) == m
  {
  }

  /** The result for a starred type, from its mapped base and its star count. */
  lemma NormalizeGhidraTypeStarred(t: string, m: string, n: nat)
    requires t != [] && n > 0 && CountChar(t, '*') == n && MapBase(BaseOf(t)) == m
    ensures NormalizeGhidraType(t) == m + " " + Repeat('*', n)
  {
  }

  lemma VoidStars()
    ensures CountChar("void * *", '*') == 2
  {
    assert "void * *" == "void " + "* *";
    CountCharAppend("void ", "* *", '*');
    CountCharAbsent("void ", '*');
  }

  lemma VoidBase()
    ensures BaseOf("void * *") == "void"
  {
    VoidRemove();
    VoidStrip();
  }

  lemma VoidRemove()
    ensures RemoveChar("void * *", '*') == "void  "
  {
    assert "void * *" == "void " + "* *";
    RemoveCharAppend("void ", "* *", '*');
    RemoveCharAbsent("void ", '*');
    assert RemoveChar("* *", '*') == " ";
    assert "void " + " " == "void  ";
  }

  lemma VoidStrip()
    ensures Strip("void  ") == "void"
  {
    StripTwoTrailingSpaces("void");
    assert "void" + "  " == "void  ";
  }

  lemma StripTwoTrailingSpaces(m: string)
    requires m != [] && !IsSpace(m[0]) && !IsSpace(m[|m| - 1])
    ensures Strip(m + "  ") == m
  {
    var s := m + "  ";
    assert s[0] == m[0];
    assert LStrip(s) == s;
    assert s == (m + " ") + " ";
    RStripSpace(m + " ");
    RStripSpace(m);
  }

  lemma RStripSpace(m: string)
    ensures RStrip(m + " ") == RStrip(m)
  {
    assert (m + " ")[..|m|] == m;
  }

  /** A star-free, unpadded base followed by a space and stars: the base and the
      star count are recovered. */
  lemma BaseOfStarred(m: string, n: nat)
    requires '*' !in m && n > 0
    requires m == [] || (!IsSpace(m[0]) && !IsSpace(m[|m| - 1]))
    ensures BaseOf(m + " " + Repeat('*', n)) == m
    ensures CountChar(m + " " + Repeat('*', n), '*') == n
  {
    var r := m + " " + Repeat('*', n);
    CountCharAbsent(m, '*');
    RemoveCharAbsent(m, '*');
    CountCharAppend(m, " ", '*');
    CountCharAppend(m + " ", Repeat('*', n), '*');
    CountRepeat('*', n);
    RemoveCharAppend(m + " ", Repeat('*', n), '*');
    RemoveCharAppend(m, " ", '*');
    RemoveCharRepeat(n);
    assert RemoveChar(" ", '*') == " ";
    assert RemoveChar(r, '*') == m + " ";
    StripTrailingSpace(m);
  }

  // ---------------------------------------------------------------------
  // normalize_code_types
  // ---------------------------------------------------------------------

  /** `re.sub(r"\b" + w + r"\b", rep, s)` for a key made of word characters: every
      maximal word run equal to `w` is replaced by `rep`; everything else is kept. */
  function ReplaceWord(s: string, w: string, rep: string): (r: string)
    decreases |s|
  {
    if s == [] then []
    else if IsWordChar(s[0]) then
      var n := Span(s, IsWordChar);
      (if s[..n] == w then rep else s[..n]) + ReplaceWord(s[n..], w, rep)
    else [s[0]] + ReplaceWord(s[1..], w, rep)
  }

  /** Substitution on the word runs: each run equal to `w` becomes the runs of `rws`. */
  function SubstWords(ws: seq<string>, w: string, rws: seq<string>): seq<string>
  {
    if ws == [] then [] else (if ws[0] == w then rws else [ws[0]]) + SubstWords(ws[1..], w, rws)
  }

  lemma ReplaceWordFirst(s: string, w: string, rep: string)
    requires s != [] && !IsWordChar(s[0])
    ensures ReplaceWord(s, w, rep) != [] && ReplaceWord(s, w, rep)[0] == s[0]
  {
  }

  /** Word-boundary safety: the word runs after the replacement are those before,
      with each run equal to `w` (and only those) replaced by the runs of `rep`. So
      `undefined` leaves `undefined4` alone and `uint` leaves `uint8_t` alone. */
  lemma {:induction false} WordsReplaceWord(s: string, w: string, rep: string)
    ensures Words(ReplaceWord(s, w, rep)) == SubstWords(Words(s), w, Words(rep))
    decreases |s|
  {
    if s == [] {
    } else if IsWordChar(s[0]) {
      var n := Span(s, IsWordChar);
      var piece := if s[..n] == w then rep else s[..n];
      var rest := ReplaceWord(s[n..], w, rep);
      WordsReplaceWord(s[n..], w, rep);
      assert Words(s) == [s[..n]] + Words(s[n..]);
      if rest != [] {
        assert n < |s|;
        ReplaceWordFirst(s[n..], w, rep);
      }
      WordsAppend(piece, rest);
      assert s[..n] != [] && AllWordChars(s[..n]);
      WordsOfWord(s[..n]);
      assert SubstWords(Words(s), w, Words(rep)) ==
             (if s[..n] == w then Words(rep) else [s[..n]]) + SubstWords(Words(s[n..]), w, Words(rep));
    } else {
      var rest := ReplaceWord(s[1..], w, rep);
      WordsReplaceWord(s[1..], w, rep);
      WordsAppend([s[0]], rest);
      WordsOfSingleNonWord(s[0]);
      assert Words(s) == Words(s[1..]);
    }
  }

  lemma {:induction false} SubstWordsMembers(ws: seq<string>, w: string, rws: seq<string>)
    ensures forall x :: x in SubstWords(ws, w, rws) ==> (x in ws && x != w) || x in rws
  {
    if ws != [] { SubstWordsMembers(ws[1..], w, rws); }
  }

  /** A text in which `w` is not a word run is not changed by replacing it. */
  lemma {:induction false} ReplaceWordAbsent(s: string, w: string, rep: string)
    requires w !in Words(s)
    ensures ReplaceWord(s, w, rep) == s
    decreases |s|
  {
    if s == [] {
    } else if IsWordChar(s[0]) {
      var n := Span(s, IsWordChar);
      assert Words(s) == [s[..n]] + Words(s[n..]);
      ReplaceWordAbsent(s[n..], w, rep);
      assert s[..n] + s[n..] == s;
    } else {
      assert Words(s) == Words(s[1..]);
      ReplaceWordAbsent(s[1..], w, rep);
    }
  }

  /** The table applied in order, each entry to the output of the previous one. */
  function ApplyTable(s: string, table: seq<(string, string)>): string
    decreases |table|
  {
    if table == [] then s else ApplyTable(ReplaceWord(s, table[0].0, table[0].1), table[1..])
  }

  /** `normalize_code_types` as a value: the empty text is returned unchanged. */
  function NormalizeText(code: string): string
  {
    if code == [] then code else ApplyTable(code, TypeMap)
  }

  /** `normalize_code_types`: the loop over the table, reassigning the code. */
  method NormalizeCodeTypes(code: string) returns (r: string)
    ensures r == NormalizeText(code)
  {
    if code == [] {
      return code;
    }
    r := ApplyTableLoop(code, TypeMap);
  }

  /** The loop over the table's entries in order, reassigning the code. */
  method ApplyTableLoop(code: string, table: seq<(string, string)>) returns (r: string)
    ensures r == ApplyTable(code, table)
  {
    r := code;
    var i := 0;
    while i < |table|
      invariant 0 <= i <= |table|
      invariant ApplyTable(r, table[i..]) == ApplyTable(code, table)
    {
      assert table[i..][1..] == table[i + 1..];
      r := ReplaceWord(r, table[i].0, table[i].1);
      i := i + 1;
    }
  }

  predicate KeyFree(s: string) {
    forall x :: x in Words(s) ==> x !in Keys
  }

  /** After the table pass, every word run is either an input run that no entry of
      the table names, or a word of some target (all of which lie in `targets`). */
  lemma {:induction false} ApplyTableWords(s: string, table: seq<(string, string)>, targets: set<string>)
    requires forall i :: 0 <= i < |table| ==> forall x :: x in Words(table[i].1) ==> x in targets
    ensures forall x :: x in Words(ApplyTable(s, table)) ==>
              (x in Words(s) && forall i :: 0 <= i < |table| ==> x != table[i].0) || x in targets
    decreases |table|
  {
    if table != [] {
      var s' := ReplaceWord(s, table[0].0, table[0].1);
      WordsReplaceWord(s, table[0].0, table[0].1);
      SubstWordsMembers(Words(s), table[0].0, Words(table[0].1));
      ApplyTableWords(s', table[1..], targets);
      forall x | x in Words(ApplyTable(s, table))
        ensures (x in Words(s) && forall i :: 0 <= i < |table| ==> x != table[i].0) || x in targets
      {
        if x !in targets {
          assert x in Words(s') && forall i :: 0 <= i < |table[1..]| ==> x != table[1..][i].0;
          forall i | 1 <= i < |table| ensures x != table[i].0 {
            assert table[i] == table[1..][i - 1];
          }
        }
      }
    }
  }

  /** A text in which no key of the table is a word run passes through unchanged. */
  lemma {:induction false} ApplyTableAbsent(s: string, table: seq<(string, string)>)
    requires forall i :: 0 <= i < |table| ==> table[i].0 !in Words(s)
    ensures ApplyTable(s, table) == s
    decreases |table|
  {
    if table != [] {
      ReplaceWordAbsent(s, table[0].0, table[0].1);
      assert forall i :: 0 <= i < |table[1..]| ==> table[1..][i].0 !in Words(s) by {
        forall i | 0 <= i < |table[1..]| ensures table[1..][i].0 !in Words(s) {
          assert table[1..][i] == table[i + 1];
        }
      }
      ApplyTableAbsent(s, table[1..]);
    }
  }

  /** Each maximal word run `w` of `s` replaced by `f(w)`; everything else kept. */
  function MapRuns(s: string, f: string -> string): string
    decreases |s|
  {
    if s == [] then []
    else if IsWordChar(s[0]) then
      var n := Span(s, IsWordChar);
      f(s[..n]) + MapRuns(s[n..], f)
    else [s[0]] + MapRuns(s[1..], f)
  }

  /** Replacing one word is mapping the runs by "that word to `rep`, the rest kept". */
  lemma {:induction false} ReplaceWordRuns(s: string, w: string, rep: string)
    ensures ReplaceWord(s, w, rep) == MapRuns(s, x => if x == w then rep else x)
    decreases |s|
  {
    if s != [] {
      if IsWordChar(s[0]) {
        ReplaceWordRuns(s[Span(s, IsWordChar)..], w, rep);
      } else {
        ReplaceWordRuns(s[1..], w, rep);
      }
    }
  }

  lemma MapRunsFirst(s: string, f: string -> string)
    requires s != [] && !IsWordChar(s[0])
    ensures MapRuns(s, f) != [] && MapRuns(s, f)[0] == s[0]
  {
  }

  /** Mapping the runs distributes over a concatenation at a non-word boundary. */
  lemma {:induction false} MapRunsAppend(x: string, y: string, g: string -> string)
    requires y == [] || !IsWordChar(y[0])
    ensures MapRuns(x + y, g) == MapRuns(x, g) + MapRuns(y, g)
    decreases |x|
  {
    if x == [] {
      assert x + y == y;
    } else if IsWordChar(x[0]) {
      var n := Span(x, IsWordChar);
      RunAppend(x, y, n);
      MapRunsAppend(x[n..], y, g);
    } else {
      assert (x + y)[1..] == x[1..] + y;
      MapRunsAppend(x[1..], y, g);
    }
  }

  /** The first run of `x` is the first run of `x + y` when `y` starts with no
      word character. */
  lemma RunAppend(x: string, y: string, n: nat)
    requires x != [] && n == Span(x, IsWordChar)
    requires y == [] || !IsWordChar(y[0])
    ensures Span(x + y, IsWordChar) == n
    ensures (x + y)[..n] == x[..n] && (x + y)[n..] == x[n..] + y
  {
    SpanAppendStop(x, y, IsWordChar);
    assert (x + y)[..n] == x[..n];
    assert (x + y)[n..] == x[n..] + y;
  }

  /** Mapping the runs by `f`, then by `g`, maps each run `w` to the runs of `f(w)`
      mapped by `g`. */
  lemma {:induction false} MapRunsCompose(s: string, f: string -> string, g: string -> string)
    ensures MapRuns(MapRuns(s, f), g) == MapRuns(s, x => MapRuns(f(x), g))
    decreases |s|
  {
    if s != [] {
      if IsWordChar(s[0]) {
        var n := Span(s, IsWordChar);
        if n < |s| {
          MapRunsFirst(s[n..], f);
        }
        MapRunsAppend(f(s[..n]), MapRuns(s[n..], f), g);
        MapRunsCompose(s[n..], f, g);
      } else {
        MapRunsCompose(s[1..], f, g);
      }
    }
  }

  /** Two mappings that agree on the runs of `s` give the same text. */
  lemma {:induction false} MapRunsExt(s: string, f: string -> string, g: string -> string)
    requires forall w :: w in Words(s) ==> f(w) == g(w)
    ensures MapRuns(s, f) == MapRuns(s, g)
    decreases |s|
  {
    if s != [] {
      if IsWordChar(s[0]) {
        var n := Span(s, IsWordChar);
        assert Words(s) == [s[..n]] + Words(s[n..]);
        MapRunsExt(s[n..], f, g);
      } else {
        assert Words(s) == Words(s[1..]);
        MapRunsExt(s[1..], f, g);
      }
    }
  }

  /** A mapping that fixes every run of `s` leaves `s` as it is. */
  lemma {:induction false} MapRunsIdentity(s: string, g: string -> string)
    requires forall w :: w in Words(s) ==> g(w) == w
    ensures MapRuns(s, g) == s
    decreases |s|
  {
    if s != [] {
      if IsWordChar(s[0]) {
        var n := Span(s, IsWordChar);
        assert Words(s) == [s[..n]] + Words(s[n..]);
        MapRunsIdentity(s[n..], g);
        assert s[..n] + s[n..] == s;
      } else {
        assert Words(s) == Words(s[1..]);
        MapRunsIdentity(s[1..], g);
      }
    }
  }

  /** A single run is mapped as a whole. */
  lemma MapRunsWord(w: string, g: string -> string)
    requires w != [] && AllWordChars(w)
    ensures MapRuns(w, g) == g(w)
  {
    var n := Span(w, IsWordChar);
    assert n == |w|;
    assert w[..n] == w && w[n..] == [];
  }

  /** Every run is made of word characters. */
  lemma {:induction false} WordsAreRuns(s: string)
    ensures forall w :: w in Words(s) ==> AllWordChars(w)
    decreases |s|
  {
    if s != [] {
      if IsWordChar(s[0]) {
        var n := Span(s, IsWordChar);
        WordsAreRuns(s[n..]);
      } else {
        WordsAreRuns(s[1..]);
      }
    }
  }

  /** The table as a renaming: the replacement of the first entry naming `w`, or `w`. */
  function Renamed(table: seq<(string, string)>, w: string): string
    decreases |table|
  {
    if table == [] then w else if w == table[0].0 then table[0].1 else Renamed(table[1..], w)
  }

  lemma {:induction false} RenamedAbsent(table: seq<(string, string)>, w: string)
    requires forall j :: 0 <= j < |table| ==> table[j].0 != w
    ensures Renamed(table, w) == w
    decreases |table|
  {
    if table != [] {
      assert forall j :: 0 <= j < |table[1..]| ==> table[1..][j] == table[j + 1];
      RenamedAbsent(table[1..], w);
    }
  }

  /** With distinct keys, a key is looked up to its own entry's replacement. */
  lemma {:induction false} RenamedAt(table: seq<(string, string)>, i: int)
    requires 0 <= i < |table|
    requires forall a, b :: 0 <= a < b < |table| ==> table[a].0 != table[b].0
    ensures Renamed(table, table[i].0) == table[i].1
    decreases |table|
  {
    if i > 0 {
      assert forall a, b :: 0 <= a < b < |table[1..]| ==> table[1..][a].0 != table[1..][b].0 by {
        forall a, b | 0 <= a < b < |table[1..]| ensures table[1..][a].0 != table[1..][b].0 {
          assert table[1..][a] == table[a + 1] && table[1..][b] == table[b + 1];
        }
      }
      RenamedAt(table[1..], i - 1);
    }
  }

  /** When no replacement brings back a key as a word, the sequential pass is one
      simultaneous substitution: each word run becomes its lookup in the table. */
  lemma {:induction false} ApplyTableRuns(s: string, table: seq<(string, string)>)
    requires forall i, j :: 0 <= i < |table| && 0 <= j < |table| ==> table[j].0 !in Words(table[i].1)
    ensures ApplyTable(s, table) == MapRuns(s, w => Renamed(table, w))
    decreases |table|
  {
    if table == [] {
      MapRunsIdentity(s, w => Renamed(table, w));
    } else {
      var k0, v0 := table[0].0, table[0].1;
      var rest := table[1..];
      assert forall j :: 0 <= j < |rest| ==> rest[j] == table[j + 1];
      var f := x => if x == k0 then v0 else x;
      var g := w => Renamed(rest, w);
      ReplaceWordRuns(s, k0, v0);
      ApplyTableRuns(MapRuns(s, f), rest);
      MapRunsCompose(s, f, g);
      WordsAreRuns(s);
      forall x | x in Words(s) ensures MapRuns(f(x), g) == Renamed(table, x) {
        if x == k0 {
          forall y | y in Words(v0) ensures g(y) == y {
            RenamedAbsent(rest, y);
          }
          MapRunsIdentity(v0, g);
        } else {
          MapRunsWord(x, g);
        }
      }
      MapRunsExt(s, x => MapRuns(f(x), g), w => Renamed(table, w));
    }
  }

  /** No key survives the pass as a whole word. */
  lemma NormalizeTextKeyFree(code: string)
    requires code != []
    ensures KeyFree(NormalizeText(code))
  {
    WordsOfTargets();
    TargetWordsShape();
    KeysInTable();
    ApplyTableWords(code, TypeMap, TargetWords);
  }

  /** Standard types survive: a text in which no table key is a whole word is left
      exactly as it is. */
  lemma NormalizeTextStandard(code: string)
    requires KeyFree(code)
    ensures NormalizeText(code) == code
  {
    if code != [] {
      assert forall i :: 0 <= i < |TypeMap| ==> TypeMap[i].0 in Keys;
      ApplyTableAbsent(code, TypeMap);
    }
  }

  /** The pass renames word runs simultaneously: each whole word that is a key
      becomes its target and every other character stays, since no target holds a
      key as a word. */
  lemma NormalizeTextRenames(code: string)
    requires code != []
    ensures NormalizeText(code) == MapRuns(code, w => Renamed(TypeMap, w))
  {
    WordsOfTargets();
    TargetWordsShape();
    assert forall i :: 0 <= i < |TypeMap| ==> TypeMap[i].0 in Keys;
    ApplyTableRuns(code, TypeMap);
  }

  /** Applying the pass twice equals applying it once. */
  lemma NormalizeTextIdempotent(code: string)
    ensures NormalizeText(NormalizeText(code)) == NormalizeText(code)
  {
    if code != [] {
      NormalizeTextKeyFree(code);
      NormalizeTextStandard(NormalizeText(code));
    }
  }
}
