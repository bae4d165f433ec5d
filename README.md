# LibSurgeon post-processing, modelled in Dafny

LibSurgeon feeds static libraries and ELF objects to Ghidra's headless
decompiler and writes one C/C++ file per module. This project models what
happens to the decompiler's output after Ghidra has produced it. That work is
sequential and deterministic text and symbol processing:

- the Ghidra type normaliser: a fixed table from Ghidra pseudo-types to C
  types, applied to a single type string and, whole word by whole word, to a
  whole code text (`types.dfy`, module `TypeNormalizer`);
- the file-name and C++ name helpers: two `sanitize_filename` variants,
  `extract_class_name`, `extract_namespace` and `extract_class_from_method`
  (`names.dfy`, `Names`);
- the code cleaner, a line scan that tracks brace depth (`cleaner.dfy`,
  `Cleaner`);
- the annotator's two insertions: the unknown-fields hint and the
  `/* vtable[..] */` notes (`annotator.dfy`, `Annotator`);
- signature extraction, in the common variant and the ELF variant
  (`signature.dfy`, `Signature`);
- module grouping of symbol names under the prefix, alpha, camelcase and
  single strategies (`grouping.dfy`, `Grouping`);
- the virtual-table scan and the two-pass class reconstruction
  (`vtables.dfy`, `Vtables`). The reconstruction uses a `CppClassInfo`
  class whose fields are updated in place. The `_ZTV` names are the
  virtual-table special names of section 5.1.4 of the Itanium C++ ABI. The
  metadata slots the scan tolerates at the head of a table are the
  offset-to-top and RTTI slots of section 2.5.2 of that ABI;
- the DWARF text helpers: the `readelf` line state machine over
  pre-classified DIE lines (DW_TAG_subprogram, DW_TAG_formal_parameter and
  DW_TAG_variable, sections 3.3 and 4.1 of DWARF Version 4); the comment
  builder; the `param_N` mapping; and the brace-tracking substitution pass
  over code (`dwarf.dfy`, `Dwarf`);
- the DWARF helpers of the library decompiler script: the local-variable
  filter, the parameter mapping and the comment insertion
  (`decompile_lib.dfy`, `DecompileLib`);
- the driver's small helpers: duration formatting, the progress bar and
  extension-based file typing (`surgeon.dfy`, `Surgeon`);
- the similarity tool's normalisation, pattern grouping, group analysis and
  candidate-pair enumeration. The similarity metric is a function parameter
  (`similarity.dfy`, `Similarity`).

`text.dfy` (module `Text`) holds the string vocabulary the other modules
share: character classes, strip, split and join, search, replacement,
whitespace collapsing, numerals and word runs.

Text semantics follow CPython 3 `str` regular expressions, with one
exception: a word character (`\w`, and the `\b` boundaries around it) is
ASCII `[A-Za-z0-9_]`. Whitespace (`\s`, `str.strip`, `str.isspace`) is the
Unicode whitespace set of `str.isspace`. A regular expression is never
interpreted at run time. Each pattern the code uses is written out as the
deterministic scan it denotes. The two places where the repository is
imperative are kept imperative:

- loops that build lists or reassign a variable are `method`s with loop
  invariants, proved equal to a specification function;
- `analyze_cpp_classes` mutates `CppClassInfo` objects held in a map.

Each operation's partner is a lemma about its specification function. The
partner is an inverse, an invariant, an independent characterisation, or
both directions of an "exactly when".

Behaviours of the code that differ from the docstrings and comments around
it are modelled as written, and a lemma pins each one down:

- `normalize_ghidra_type` is idempotent except on the pointer placeholders.
  `"addr *"` becomes `"void * *"`, and normalising again gives `"void **"`
  (`TypeNormalizer.NormalizeGhidraTypeAddrNotIdempotent`).
- The vtable pattern `_vtbl$` is tried with `re.match`, so it only accepts
  the name `_vtbl` itself (with an optional final line break), never a
  longer name ending in `_vtbl` (`Vtables.VtblSuffixAlone`).
- The camelcase strategy gives an empty module key for `_` and for names
  starting `__` (`Grouping.CamelCaseEmptyKey`, `Grouping.EmptyPieces`).
  The other strategies never do (`Grouping.ModuleNameNonEmpty`).
- The code's own value for `vg_lite_init` is `vglite`, not the docstring's
  example (`Grouping.UnderscoreKeyExample`).
- `apply_dwarf_to_code` ends a function only once its body has opened. A
  depth-0 prototype of a known function, such as `int f(int param_1);`,
  selects it and never opens a body. The next line, even the definition of a
  function the dump does not know, is then rewritten with `f`'s parameter
  names and gets `f`'s locals comment (`Dwarf.PrototypeKeepsSelection`).

## Model

| member | source | states |
|---|---|---|
| TypeNormalizer.MapType | ghidra_common.py:19-52 | a base is mapped exactly when it is a table key; the target is `void *` exactly for `addr`/`pointer`, otherwise a single C type word |
| TypeNormalizer.MapTypeTable | ghidra_common.py:19-52 | the lookup returns each table entry's target |
| TypeNormalizer.PointerTargets | ghidra_common.py:49-51 | exactly the two pointer placeholders map to `void *` |
| TypeNormalizer.TargetsAreWords | ghidra_common.py:19-52 | every target is a single word or `void *` |
| TypeNormalizer.BaseOf | ghidra_common.py:92 | the base of a type string holds no `*` |
| TypeNormalizer.NormalizeGhidraType | ghidra_common.py:84-101 | the model of `normalize_ghidra_type`: stars removed, the base stripped and mapped, a space and the same number of stars re-appended, the empty string kept; no contract of its own, its meaning is stated by `NormalizeGhidraTypeEmpty`, `NormalizeGhidraTypeStars`, `NormalizeGhidraTypeIdempotent` and `NormalizeGhidraTypeAddrNotIdempotent` |
| TypeNormalizer.NormalizeGhidraTypeEmpty | ghidra_common.py:86-87 | the empty type string is returned unchanged |
| TypeNormalizer.NormalizeGhidraTypeStars | ghidra_common.py:84-101 | the result keeps the input's star count, plus one when the base is `addr`/`pointer` |
| TypeNormalizer.NormalizeGhidraTypeIdempotent | ghidra_common.py:84-101 | normalising twice equals normalising once unless the base is `addr`/`pointer` |
| TypeNormalizer.NormalizeGhidraTypeAddrNotIdempotent | ghidra_common.py:49-51 | `"addr *"` gives `"void * *"`, which normalises again to `"void **"` |
| TypeNormalizer.NormalizeText | ghidra_common.py:104-115 | the model of `normalize_code_types` as a value: the table applied entry by entry as whole-word replacements, the empty text kept; no contract of its own, its meaning is stated by `NormalizeTextKeyFree`, `NormalizeTextStandard`, `NormalizeTextIdempotent` and `NormalizeTextRenames` |
| TypeNormalizer.NormalizeCodeTypes | ghidra_common.py:104-115 | the loop over the table equals the whole-word pass `NormalizeText` |
| TypeNormalizer.ApplyTableLoop | ghidra_common.py:111-113 | the reassigning loop equals the ordered table application |
| TypeNormalizer.ApplyTableWords | ghidra_common.py:111-113 | every word of the result is a word of the input that is no key, or a word of some target |
| TypeNormalizer.ApplyTableAbsent | ghidra_common.py:111-113 | a text in which no key is a whole word passes unchanged, so `undefined4` and `uint8_t` survive |
| TypeNormalizer.ApplyTableRuns | ghidra_common.py:111-113 | when no key occurs in any target, the ordered pass renames every word run at once through the table |
| TypeNormalizer.NormalizeTextKeyFree | ghidra_common.py:104-115 | after the pass no key is left as a whole word |
| TypeNormalizer.NormalizeTextStandard | ghidra_common.py:104-115 | code holding no key as a whole word is unchanged |
| TypeNormalizer.NormalizeTextIdempotent | ghidra_common.py:104-115 | applying the pass twice equals applying it once |
| TypeNormalizer.NormalizeTextRenames | ghidra_common.py:104-115 | on non-empty code the pass renames each word run through the map |
| Names.SanitizeFilename | ghidra_common.py:145-163 | the result has at most 100 characters, only letters, digits, `_` and `-`, no `__` and no leading `_` |
| Names.CollapsedUnderscores | ghidra_common.py:157-159 | collapsing `_` runs leaves name characters with no `__` |
| Names.StrippedClean | ghidra_common.py:160 | stripping `_` then leaves a clean name |
| Names.TruncatedClean | ghidra_common.py:161-162 | truncation keeps a name clean |
| Names.SanitizeFilenameFixed | ghidra_common.py:145-163 | a clean name of at most 100 characters not ending in `_` (`hello`, `test_file`) is unchanged |
| Names.SanitizeFilenameIdempotent | ghidra_common.py:145-163 | sanitising twice equals sanitising once whenever the first result does not end in `_` |
| Names.SanitizeFilenameCutUnderscore | ghidra_common.py:145-163 | where that condition fails the source is not idempotent: a clean 99-character `w` plus `_b` is cut to `w_`, which sanitises to `w` (`"a" * 99 + "_b"`) |
| Names.SanitizeFilenameScript | ghidra_decompile.py:43-51 | the 200-character variant gives at most 200 characters, free of `<>:"/\|?*` and whitespace |
| Names.SpacesReplaced | ghidra_decompile.py:46-47 | once the illegal characters are replaced, replacing each whitespace run by `_` leaves a plain name |
| Names.SanitizeFilenameScriptFixed | ghidra_decompile.py:43-51 | a plain name of at most 200 characters is unchanged |
| Names.SanitizeFilenameScriptIdempotent | ghidra_decompile.py:43-51 | the variant is idempotent |
| Names.SanitizeFilenameScriptCut | ghidra_decompile.py:49-51 | a plain name is only cut to 200 characters, with no collapsing or stripping |
| Names.ExtractClassName | ghidra_common.py:166-180 | None exactly when the name has no `::` |
| Names.ExtractClassNameOfPath | ghidra_decompile.py:54-62 | on `A::B` the first part, on three or more parts the second-to-last |
| Names.ExtractNamespace | ghidra_decompile.py:65-71 | None exactly without `::`, else the text before the first `::` |
| Names.ExtractNamespaceOfPath | ghidra_common.py:183-197 | on a qualified name the namespace is its first part |
| Names.ChainAt | ghidra_common.py:216-218 | the `\w+(::\w+)*` chain scan ends within the text, and its last `::` lies inside the chain |
| Names.MatchMethodScopeContains | ghidra_common.py:216-218 | the signature pattern can only match a text holding `::` |
| Names.ExtractClassFromMethod | ghidra_common.py:200-229 | None exactly when the display name has no `::` |
| Names.ExtractClassFromMethodMatched | ghidra_common.py:216-221 | when the signature pattern matches, its scope group is the result |
| Names.ExtractClassFromMethodFallback | ghidra_common.py:223-227 | otherwise the result is every `::` segment but the last, joined, cut at `(` |
| Names.ScopeOfCall | ghidra_common.py:216-218 | on a return-type prefix, a chain `A::…::m`, optional spaces and `(`, the pattern's group is `A::…` without the last part |
| Names.ExtractClassFromMethodOfCall | ghidra_common.py:200-229 | `void A::B::C::Method(void)` shapes give the whole scope path `A::B::C` |
| Cleaner.Classify | ghidra_common.py:325-337 | a line is blank exactly when its strip is empty, a signature comment exactly when it is a `/*…*/` line whose inner text holds `(` or is one space-free token shorter than 100, and its brace count is `{` minus `}` |
| Cleaner.CleanLines | ghidra_common.py:318-356 | the model of the line loop and the trailing pops of `clean_decompiled_code` as a value; no contract of its own, its meaning is stated by `CleanLinesSpec`, `CleanKeepsSeparatingBlank`, `CleanLinesFromInput` and `CleanLinesIdempotent` |
| Cleaner.CleanLinesLoop | ghidra_common.py:318-356 | the loop keeping lines and tracking depth and the previous blank equals `CleanLines` |
| Cleaner.CleanDecompiledCode | ghidra_common.py:301-358 | split, clean and join equals `CleanCode`, with the empty code unchanged |
| Cleaner.CleanLinesSpec | ghidra_common.py:324-356 | the non-blank kept lines are exactly the input's content lines in order; no signature comment, no two adjacent blanks, no blank inside a body, no trailing blank; the kept lines are the input with some lines left out, in input order (a subsequence), so a kept blank is one of the input's blank lines |
| Cleaner.CleanKeepsSeparatingBlank | ghidra_common.py:337-350 | a run of blank lines outside bodies between two content lines survives as one blank line in its place |
| Cleaner.CleanLinesFromInput | ghidra_common.py:352 | kept lines are input lines, unchanged, and they form a subsequence of the input: the input's order is kept and no input line is used twice |
| Cleaner.CleanCodeLines | ghidra_common.py:318-358 | the cleaned code splits back into the kept lines |
| Cleaner.CleanLinesIdempotent | ghidra_common.py:301-358 | cleaning cleaned lines changes nothing |
| Annotator.AnnotateFields | ghidra_common.py:445-462 | the model of the field-hint step of `enhance_decompiled_code`; no contract of its own, its meaning is stated by `AnnotateFieldsInsertsHint` and `FewFieldsNoHint` |
| Annotator.AnnotateFieldsInsertsHint | ghidra_common.py:445-462 | with more than 3 distinct `field_0x` tokens and a first `{` past index 0, exactly a newline and the hint follow that brace and removing them gives the code back; otherwise nothing changes |
| Annotator.FewFieldsNoHint | ghidra_common.py:451-452 | 3 distinct fields or fewer never add the hint |
| Annotator.FieldTokensFrom | ghidra_common.py:445-448 | every collected token is a `field_0x` token with at least one hex digit |
| Annotator.AnnotateCalls | ghidra_common.py:465-472 | the model of the vtable-call `re.sub` over a whole text; no contract of its own, its meaning is stated by `CallTableMatches`, `AnnotateCallsSpec`, `PiecesCoverInput`, `SubIsPieces` and `NoCallsUnchanged` |
| Annotator.CallSpan | ghidra_common.py:465 | a match found at a position has the vtable-call shape there, with its offset group inside it |
| Annotator.CallTableMatches | ghidra_common.py:465-472 | every entry of the match table lies ahead of its position and has the vtable-call shape there |
| Annotator.AnnotateCallsSpec | ghidra_common.py:467-472 | every replaced piece is a vtable-call text carrying its own offset |
| Annotator.PiecesCoverInput | ghidra_common.py:467-472 | the pieces cover the input exactly: no character is altered or lost |
| Annotator.SubIsPieces | ghidra_common.py:467-472 | the annotated text is each piece followed by its note, where a call gets ` /* vtable[off] */` |
| Annotator.NoCallsUnchanged | ghidra_common.py:465-472 | without a vtable call the text is unchanged |
| Annotator.EnhanceDecompiledCode | ghidra_common.py:421-474 | the model of `enhance_decompiled_code`: empty code kept, otherwise the field hint, then the vtable notes; no contract of its own, its meaning is stated by `EnhancePlain` and the lemmas of its two steps |
| Annotator.EnhancePlain | ghidra_common.py:421-474 | code with at most 3 fields and no vtable call comes back unchanged |
| Signature.ExtractFunctionSignature | ghidra_common.py:515-549 | the model of the common `extract_function_signature`: None for empty code and for an empty or `;`-terminated signature, else the normalised one-line signature; no contract of its own, its meaning is stated by `SignatureForms`, `SignatureOfBlank` and `SignatureNormalized` |
| Signature.ExtractFunctionSignatureElf | ghidra_decompile_elf.py:498-527 | the model of the ELF `extract_function_signature`, without the empty and `;` checks; no contract of its own, its meaning is stated by `SignatureForms` and `SignatureOfBlank` |
| Signature.SignatureLinesSpec | ghidra_common.py:524-532 | the kept lines are every line before the first line holding `{`, stripped, then that line's stripped text before the brace when there is such a line |
| Signature.SignatureLinesLackBrace | ghidra_common.py:527-532 | no kept line holds `{` |
| Signature.RawSignatureShape | ghidra_common.py:537-540 | the joined text is whitespace-collapsed, one line and stripped |
| Signature.SignatureOfBlank | ghidra_common.py:537-544 | blank code gives None in the common variant, but an empty signature in the ELF variant (ghidra_decompile_elf.py:498-528) |
| Signature.SignatureForms | ghidra_common.py:543-544 | where the common variant finds a signature the ELF variant (ghidra_decompile_elf.py:498-528) gives the same; where it gives None on non-empty code, the joined text was empty or ended in `;` |
| Signature.SignatureNormalized | ghidra_common.py:547-549 | a returned signature holds no Ghidra type key as a whole word |
| Grouping.ExtractPrefix | ghidra_decompile_elf.py:353-422 | total and never empty; `_generated` for `FUN_`/`DAT_` names; otherwise `_misc` or a prefix of the name (or of the name with its first `_` removed) |
| Grouping.DoubleUnderscoreKey | ghidra_decompile_elf.py:371-375 | a name with `__` whose first segment is at least 2 long maps to that segment |
| Grouping.UnderscoreKey | ghidra_decompile_elf.py:378-391 | otherwise, with `_`: the first piece if at least 2 long and capitalised or at least 4 long, else the two first pieces joined when at most 30 long |
| Grouping.UnderscoreKeyExample | ghidra_decompile_elf.py:378-391 | `vg_lite_init` maps to `vglite` |
| Grouping.NonLetterMisc | ghidra_decompile_elf.py:396-422 | a name with no `_` that does not start with a letter (and the empty name) falls to `_misc` |
| Grouping.ModuleByAlpha | ghidra_decompile_elf.py:425-436 | the model of `get_module_name_by_alpha`: `_generated` for generated names, else the upper-cased first letter or `_symbols`; no contract of its own, its meaning is stated by `AlphaBuckets` and `ModuleNameGenerated` |
| Grouping.AlphaBuckets | ghidra_decompile_elf.py:425-436 | `_symbols` exactly when the name is empty or starts with a non-letter; otherwise the upper-cased first letter |
| Grouping.CamelWordsFrom | ghidra_decompile_elf.py:451 | every word found is a `[A-Z][a-z]*`, `[a-z]+` or `[0-9]+` run |
| Grouping.CamelWordsCover | ghidra_decompile_elf.py:451 | the words laid end to end are the name's letters and digits in order |
| Grouping.NoCamelWords | ghidra_decompile_elf.py:451 | no words exactly when the name has no letter or digit |
| Grouping.ModuleByCamelCase | ghidra_decompile_elf.py:439-457 | the model of `get_module_name_by_camelcase`: `_generated` for generated names, else the first two pieces (on `_`, or the `re.findall` words) run together, the only piece, or `_misc`; no contract of its own, its meaning is stated by `CamelCaseMisc`, `CamelCaseEmptyKey`, `EmptyPieces`, `CamelWordsFrom` and `CamelWordsCover` |
| Grouping.CamelCaseMisc | ghidra_decompile_elf.py:447-457 | a name without `_` lands in `_misc` exactly when it has no letter or digit |
| Grouping.CamelCaseEmptyKey | ghidra_decompile_elf.py:448-456 | the camelcase key is empty exactly for `_` and names starting `__` |
| Grouping.EmptyPieces | ghidra_decompile_elf.py:448-449 | the first two `_` pieces are both empty exactly for `_` and names starting `__` |
| Grouping.ModuleName | ghidra_decompile_elf.py:460-473 | the model of `get_module_name`: the strategy dispatch, with unknown strategies falling back to the prefix rule; no contract of its own, its meaning is stated by `ModuleNameGenerated`, `ModuleNameNonEmpty` and `UnknownStrategyIsPrefix` |
| Grouping.ModuleNameGenerated | ghidra_decompile_elf.py:460-473 | `FUN_`/`DAT_` names map to `_generated` under every strategy but `single`, which gives `all_functions` |
| Grouping.ModuleNameNonEmpty | ghidra_decompile_elf.py:460-473 | every strategy but camelcase gives a non-empty key |
| Grouping.UnknownStrategyIsPrefix | ghidra_decompile_elf.py:471-473 | an unknown strategy behaves as the prefix strategy |
| Vtables.IsVtableName | ghidra_decompile_elf.py:120-141 | the model of the four `re.match` patterns, ignoring case; no contract of its own, its meaning is stated by `ItaniumNamesAreTables` and `VtblSuffixAlone` |
| Vtables.ClassNameOf | ghidra_decompile_elf.py:143-149 | a class name exactly for `_ZTV` names; without `vtable for ` in the demangling it is the name after `_ZTV` |
| Vtables.ItaniumNamesAreTables | ghidra_decompile_elf.py:121-141 | every `_ZTV` name is recognised as a table |
| Vtables.VtblSuffixAlone | ghidra_decompile_elf.py:125 | a recognised name longer than 6 characters matched one of the three prefix patterns, so `_vtbl$` alone accepts only `_vtbl` |
| Vtables.ScanVtable | ghidra_decompile_elf.py:156-192 | the while loop over slots equals the scan `ScanFrom(img, start, 0)` |
| Vtables.ScanSound | ghidra_decompile_elf.py:165-189 | entries have strictly increasing slot indices below 100, each a function slot recorded with its address and name |
| Vtables.ScanContiguous | ghidra_decompile_elf.py:181-189 | the first entry is at slot 3 at the latest, and past slot 3 the entries are consecutive |
| Vtables.ScanTail | ghidra_decompile_elf.py:185-186 | from slot 3 on, the first non-function slot ends the scan |
| Vtables.ScanComplete | ghidra_decompile_elf.py:165-189 | every function slot up to the last entry's is an entry |
| Vtables.AnalyzeVtables | ghidra_decompile_elf.py:109-197 | the loop over the symbols equals `VtablesOf` |
| Vtables.VtablesShape | ghidra_decompile_elf.py:128-195 | one table per address; each belongs to a table symbol there and holds its non-empty scan; every table symbol whose scan finds an entry is present |
| Vtables.PutShape | ghidra_decompile_elf.py:195 | storing under an address replaces that address's table in place or appends a new one |
| Vtables.CppClassInfo.constructor | ghidra_decompile_elf.py:66-76 | a new class has its name, no methods and no vtable |
| Vtables.MethodName | ghidra_decompile_elf.py:234 | the model of `display_name.split("::")[-1].split("(")[0].strip()`; no contract of its own, its meaning is stated by `MethodNameLacks` and `MethodNamePlain` |
| Vtables.MethodNameLacks | ghidra_decompile_elf.py:234 | the method name holds neither `::` nor `(` |
| Vtables.MethodNamePlain | ghidra_decompile_elf.py:234 | a display name with neither `::` nor `(` is only stripped |
| Vtables.SlotOf | ghidra_decompile_elf.py:228-232 | the slot of the first entry at an address, None exactly when no entry has it |
| Vtables.VtableSlotMeaning | ghidra_decompile_elf.py:226-232 | a slot is found exactly when some table of the class lists the address, and it is such an entry's index |
| Vtables.LookupSlot | ghidra_decompile_elf.py:222-232 | found exactly when `VtableSlot` finds one; the index is that slot, else -1 |
| Vtables.ClassOrderMembers | ghidra_decompile_elf.py:214-219 | a class is created exactly when some function's display name yields it |
| Vtables.MethodsOfAbsent | ghidra_decompile_elf.py:214-216 | a class no function belongs to has no methods |
| Vtables.AttachedVtableMeaning | ghidra_decompile_elf.py:240-244 | a class gets no table exactly when none names it, else the last table naming it |
| Vtables.AddMethod | ghidra_decompile_elf.py:218-237 | creates the class on first use and appends the method to it; other classes are unchanged |
| Vtables.MethodFor | ghidra_decompile_elf.py:222-236 | the method record: display method name, virtual when flagged or found in a table, with the found slot or -1 |
| Vtables.CollectOne | ghidra_decompile_elf.py:209-237 | one iteration keeps the collected classes equal to the specification over the records seen |
| Vtables.CollectMethods | ghidra_decompile_elf.py:209-237 | the first pass gives each class exactly its methods in function order |
| Vtables.AttachVtables | ghidra_decompile_elf.py:240-244 | the second pass attaches the last table naming each class and leaves its methods unchanged |
| Vtables.AnalyzeCppClasses | ghidra_decompile_elf.py:200-246 | classes in creation order, each with its methods, its attached table address and entries |
| Dwarf.ParseDwarfOutput | dwarf_parser.py:93-301 | the while loop over DIE lines equals `ParseInfo` |
| Dwarf.ParsedFunctionsKept | dwarf_parser.py:237-299 | every stored function is named, stored under its own name, and holds only variables with a non-empty name not starting `__` |
| Dwarf.HasLocalVarsExactly | dwarf_parser.py:281-298 | `has_local_vars` holds exactly when some line adds a variable |
| Dwarf.GlobalVariableIgnored | dwarf_parser.py:242-247 | a variable at depth at most the function's leaves the state unchanged |
| Dwarf.VariableComment | dwarf_parser.py:304-340 | the model of `generate_variable_comment` as a value; no contract of its own, its meaning is stated by `VariableCommentShape`, `CollectVarTexts` and `VarTextsAt` |
| Dwarf.GenerateVariableComment | dwarf_parser.py:304-340 | the loops equal `VariableComment` |
| Dwarf.VariableCommentShape | dwarf_parser.py:316-340 | empty exactly without parameters and locals; otherwise a `/* … */` comment starting with the parameters part when there is one |
| Dwarf.CollectVarTexts | dwarf_parser.py:318-331 | each entry is `type name`, or the bare name for `unknown` types, in order |
| Dwarf.VarTextsAt | dwarf_parser.py:318-331 | the i-th entry is the i-th variable's text |
| Dwarf.ParamMappingMeaning | dwarf_parser.py:432-443 | the keys are exactly `param_1` … `param_n`, each mapped to its parameter's name |
| Dwarf.BuildParamMapping | dwarf_parser.py:437-441 | the loop equals `ParamMapping` |
| Dwarf.CreateVariableMapping | dwarf_parser.py:424-443 | a function is present exactly when it has parameters, with their mapping |
| Dwarf.ParamTable | dwarf_parser.py:386-395 | the i-th substitution is `param_{i+1}` → the i-th parameter's name |
| Dwarf.SubstParamsWords | dwarf_parser.py:386-395 | every word of the rewritten line is an original word that is no `param_k`, or a word of a parameter name |
| Dwarf.SubstParamsAbsent | dwarf_parser.py:386-395 | a line without a `param_k` word is unchanged |
| Dwarf.SubstParamsRenames | dwarf_parser.py:386-395 | when no parameter name holds a `param_k` word, every `param_k` word becomes the k-th name at once and every other word is kept |
| Dwarf.DefName | dwarf_parser.py:378-380 | a defined name found is a non-empty word |
| Dwarf.LocalsItems | dwarf_parser.py:403-410 | the inserted comment lists the first ten local names in order, then `+N more` for the N others |
| Dwarf.ApplyDwarf | dwarf_parser.py:343-421 | the model of `apply_dwarf_to_code` as a value; no contract of its own, its meaning is stated by `ApplyNoFunctions`, `ApplyDwarfUntouched`, `BlockAtShape`, `ApplyScanBlocks`, `OutputLength`, `ApplyDwarfRenameSpan`, `UntouchedFrom` and `PrototypeKeepsSelection` |
| Dwarf.ApplyDwarfToCode | dwarf_parser.py:343-421 | the while loop equals `ApplyDwarf` |
| Dwarf.ApplyNoFunctions | dwarf_parser.py:357-358 | without DWARF functions the code is unchanged |
| Dwarf.ApplyDwarfUntouched | dwarf_parser.py:378-397 | when no depth-0 line defines a known function the code is unchanged line for line |
| Dwarf.BlockAtShape | dwarf_parser.py:400-417 | each line yields its rewritten text, followed by the locals comment exactly when it opens the body of the function in force and that function has locals |
| Dwarf.OutputLength | dwarf_parser.py:343-421 | output lines = input lines + inserted comments |
| Dwarf.ApplyScanBlocks | dwarf_parser.py:378-417 | the output is one block per input line, in order |
| Dwarf.ScanControl | dwarf_parser.py:400-417 | the pass's depth is the running brace count of the lines seen, and it is never inside a body at depth 0 |
| Dwarf.StepOutcome | dwarf_parser.py:397-417 | on a line of the selected function, the body counts as opened once a line holding `{` is seen; the function stays selected until the depth is back at 0 after that |
| Dwarf.SpanState | dwarf_parser.py:378-417 | within the span of a function, before each line after its defining line: the function is selected until the closing line has been seen, and the body is open exactly after the line holding its first `{` |
| Dwarf.ApplyDwarfRenameSpan | dwarf_parser.py:378-417 | for a depth-0 line defining a known function, up to the line after which the depth is back at 0: every line has that function selected; each later line is rewritten by its parameters; the defining line is rewritten twice; the locals comment follows only the line with the first `{`; afterwards no function is selected |
| Dwarf.BlockInFunction | dwarf_parser.py:391-412 | a line of the selected function that defines no known function is rewritten by its parameters, and is followed by the locals comment when it holds the body's first `{` |
| Dwarf.UntouchedState | dwarf_parser.py:378-417 | once no function is selected, lines that define no known function at depth 0 keep it that way |
| Dwarf.UntouchedFrom | dwarf_parser.py:378-417 | after a function has ended, each line up to the next depth-0 definition of a known function is emitted unchanged, with nothing inserted |
| Dwarf.PrototypeKeepsSelection | dwarf_parser.py:378-417 | a depth-0 prototype of a known function without braces leaves that function selected. The next line, if it defines no known function, is rewritten by the prototype's parameters and, when it opens a body, gets the prototype's locals comment |
| DecompileLib.GetFunctionLocalVariables | ghidra_decompile_lib.py:103-132 | the loop equals `LocalVariables` |
| DecompileLib.LocalVariablesMeaning | ghidra_decompile_lib.py:122-129 | a variable is listed exactly when its name has none of the prefixes `local_`, `param_`, `in_`, `uVar` |
| DecompileLib.GetDwarfVariableMapping | ghidra_decompile_lib.py:215-253 | the loop equals `DwarfVariableMapping` |
| DecompileLib.DwarfVariableMappingMeaning | ghidra_decompile_lib.py:231-235 | `param_{k}` is mapped exactly when the k-th name is non-empty and not `param_…`, and then to that name; no other key |
| DecompileLib.CollectEntries | ghidra_decompile_lib.py:272-290 | the collecting loop equals `Entries` |
| DecompileLib.EntriesMeaning | ghidra_decompile_lib.py:272-290 | an entry is listed exactly for a variable the filter keeps, as `type name` |
| DecompileLib.CommentLinesShape | ghidra_decompile_lib.py:292-306 | one params line when there are entries, then one locals line when there are entries |
| DecompileLib.LocalsLineShape | ghidra_decompile_lib.py:299-306 | the locals line lists the first 5 entries, and with more ends ` + N more */` for N = count − 5 |
| DecompileLib.AddDwarfVariableComments | ghidra_decompile_lib.py:256-317 | the method equals `AddComments` |
| DecompileLib.AddCommentsChanges | ghidra_decompile_lib.py:267-312 | the code changes exactly when some entry is listed and the first `{` is at an index above 0 |
| DecompileLib.AddCommentsPlacement | ghidra_decompile_lib.py:309-312 | a change is the newline-led comment block inserted right before the first `{`, with the code before and after unchanged |
| Surgeon.FormatTime | libsurgeon.py:81-91 | the model of `format_time`; no contract of its own, its meaning is stated by `FormatTimeParts` and `FormatTimeSame` |
| Surgeon.FormatTimeParts | libsurgeon.py:81-91 | the text is a numeral, a unit letter and the rest: `{s}s`, `{m}m{s}s` or `{h}h{m}m` |
| Surgeon.FormatTimeSame | libsurgeon.py:81-91 | two durations format alike exactly when equal below an hour, or in the same minute from an hour on |
| Surgeon.DrawProgressBar | libsurgeon.py:129-137 | the model of `draw_progress_bar`; no contract of its own, its meaning is stated by `ProgressBarNoTotal`, `ProgressBarShape` and `ProgressBarMonotone` |
| Surgeon.ProgressBarNoTotal | libsurgeon.py:131-132 | with total 0 the bar is `width` empty cells |
| Surgeon.FilledBounds | libsurgeon.py:134 | the filled count is the floor of current·width/total, within the width |
| Surgeon.ProgressBarShape | libsurgeon.py:129-136 | for 0 ≤ current ≤ total the bar is `width` long, the filled cells then the empty cells |
| Surgeon.ProgressBarMonotone | libsurgeon.py:134 | more progress never fills fewer cells |
| Surgeon.GetFileType | libsurgeon.py:162-172 | the model of `get_file_type`; no contract of its own, its meaning is stated by `VersionedSharedObject` and `ExtensionDecides` |
| Surgeon.LastIndexOfChar | libsurgeon.py:164-169 | the last index holding the character, or -1 |
| Surgeon.BasenameOf | libsurgeon.py:164 | the basename is the part after the last `/` |
| Surgeon.SplitExtOf | libsurgeon.py:169 | the extension is the part from the last `.` of a name not all dots |
| Surgeon.VersionedSharedObject | libsurgeon.py:165-168 | a basename containing `.so.` is ELF |
| Surgeon.ExtensionDecides | libsurgeon.py:150-171 | otherwise the lower-cased extension is looked up in the extension map, UNKNOWN when absent |
| Similarity.NormalizeCode | similarity_analyzer/similarity_analyzer.py:90-123 | the chain of substitutions equals `Normalized` |
| Similarity.NormalizedShape | similarity_analyzer/similarity_analyzer.py:120-123 | at most 50000 characters, a prefix of the collapsed text (all of it when short), whitespace only as single spaces |
| Similarity.DropLeadingDocCommentMeaning | similarity_analyzer/similarity_analyzer.py:109 | a leading `/**` comment up to the first closing marker is removed; anything else is kept |
| Similarity.MatchFile | similarity_analyzer/similarity_analyzer.py:214-218 | the inner loop finds the first pattern that matches |
| Similarity.FirstGroupMeaning | similarity_analyzer/similarity_analyzer.py:214-218 | a file gets a group exactly when some pattern matches it, and then the group of the first such pattern |
| Similarity.GroupByPattern | similarity_analyzer/similarity_analyzer.py:195-223 | a group is returned exactly when it has more than one member, with its members in input order; unmatched files in input order |
| Similarity.MembersMeaning | similarity_analyzer/similarity_analyzer.py:212-218 | a group's members are exactly the files whose first match is it, in input order |
| Similarity.UnmatchedMeaning | similarity_analyzer/similarity_analyzer.py:219-220 | `ungrouped` is exactly the files matching no pattern, in input order |
| Similarity.MembersCount | similarity_analyzer/similarity_analyzer.py:212-220 | a group's members and the unmatched files together never outnumber the input files |
| Similarity.UsableMeaning | similarity_analyzer/similarity_analyzer.py:237 | a file is used exactly when it is in the group, loaded, and has no error |
| Similarity.AnalysisSmall | similarity_analyzer/similarity_analyzer.py:239-243 | with fewer than 2 usable files: no line counts, total 0, no similarities |
| Similarity.PairSimilarities | similarity_analyzer/similarity_analyzer.py:246-254 | the nested loops equal `Rows` |
| Similarity.AnalyzeGroup | similarity_analyzer/similarity_analyzer.py:226-266 | the method equals `Analysis` |
| Similarity.AnalysisPairCount | similarity_analyzer/similarity_analyzer.py:246-254 | n(n−1)/2 similarities for n usable files |
| Similarity.RowsMeaning | similarity_analyzer/similarity_analyzer.py:246-254 | the recorded similarities are exactly the pairs of positions a < b, each scored by the metric on the two normalised texts |
| Similarity.DistinctLinesAll | similarity_analyzer/similarity_analyzer.py:257-264 | without repeated files, total lines is the sum of the line counts |
| Similarity.SortByLines | similarity_analyzer/similarity_analyzer.py:290 | the sorted list is ordered by line count and a permutation of the loaded files |
| Similarity.GenerateJobs | similarity_analyzer/similarity_analyzer.py:287-308 | the pair generation equals `CandidateJobs` |
| Similarity.JobsOf | similarity_analyzer/similarity_analyzer.py:292-308 | the nested loops with `break` equal `Jobs` |
| Similarity.JobsSound | similarity_analyzer/similarity_analyzer.py:292-308 | every job pairs positions a < b with lines_b ≤ 2·lines_a |
| Similarity.JobsComplete | similarity_analyzer/similarity_analyzer.py:292-308 | on a sorted list every such pair is a job |
| Similarity.CandidateJobsMeaning | similarity_analyzer/similarity_analyzer.py:287-308 | a job exactly for positions a < b of the sorted list with lines_b ≤ 2·lines_a |

## Left out

- Every call into Ghidra is an input. This covers DecompInterface, DemanglerUtil, memory reads and address factories, listings, the symbol table, function and variable objects, and the reference walk of `is_virtual_method` (ghidra_decompile_elf.py:79-106). That walk is a boolean per function. The demangled name and a symbol's words and functions are values.
- `Vtables.ScanVtable`: memory reads, `getAddress` and `getFunctionAt` are folded into two maps, the memory image and the function table. A slot address absent from the image's words stands for a failed read. As with the bare `except: break`, it ends the scan at any index, also at slots 0-2, where a non-function slot would be skipped. Other kinds of Ghidra failure are not modelled.
- `Vtables.AnalyzeVtables`, `Vtables.AnalyzeCppClasses`: the early exits on `monitor.isCancelled()` (ghidra_decompile_elf.py:129-130, 211-212) are not modelled. A cancelled run returns a prefix of the work, which the user aborted.
- `Vtables.CppClassInfo.constructor`: the `struct_type`, `parent_class` and `size` fields (ghidra_decompile_elf.py:74-76) are never changed by `analyze_cpp_classes` and are left out.
- `Vtables.AnalyzeCppClasses`: `module_functions` is given as one sequence of function records, module by module in the dictionary's order.
- `Grouping.AlphaBuckets`: letters and upper-casing are ASCII. `str.isalpha`/`str.upper` (ghidra_decompile_elf.py:433-434) are Unicode, so `"éclair"` gives `"É"` in the source and `"_symbols"` here, and `"ßx"` gives `"SS"`.
- `Names.SanitizeFilename`, `Names.ExtractClassFromMethod`, `TypeNormalizer.NormalizeText`, `Dwarf.SubstParams`: `\w` and `\b` are ASCII while `\s` and strip are Unicode. CPython 3 would also treat non-ASCII letters as word characters, so `sanitize_filename("café")` is `"café"` there and `"caf"` here. Under Jython 2.7 `\s` is ASCII too.
- `Surgeon.Filled`, `Surgeon.DrawProgressBar`: `int(current * width / total)` (libsurgeon.py:134) is taken as the exact quotient truncated toward zero, as `int()` does. Float rounding of the division is not modelled.
- None inputs have no counterpart. Strings are never None here, and `clean_decompiled_code`, `extract_function_signature`, `normalize_ghidra_type`, `normalize_code_types` and `add_dwarf_variable_comments` are modelled on `""` for their "not code" branch.
- `DecompileLib.AddDwarfVariableComments`: the `try/except` around the Ghidra calls returns the code unchanged on an exception. The model's inputs cannot fail.
- `DecompileLib.LocalsLineShape`: stated for entries without `/`, so that the closing marker is the text's last `*/`.
- `DecompileLib.GetDwarfVariableMapping`: the loop over locals (ghidra_decompile_lib.py:238-250) records nothing in the mapping and is left out.
- `Similarity.AnalyzeGroup`: `calc_similarity` (rapidfuzz or difflib) is a function parameter with no properties. The average is the exact rational mean, so float rounding is not modelled.
- `Similarity.GroupByPattern`, `Similarity.MatchFile`: `re.match(pattern, f)` is a predicate parameter. The patterns are opaque.
- `Similarity.NormalizeCode`: `Path(filename).stem` is an input, and the case-insensitive whole-word variant substitution is a function parameter.
- `Similarity.SortByLines`: an insertion sort by line count. The model states order and permutation, not the stability of Python's `sorted`.
- `Similarity.GenerateJobs`: the job tuple leaves out the constant threshold. `compare_pair`, the process pool, the threshold filter and the final sort by similarity are not modelled. The file dictionary is given as its items in insertion order.
- `Dwarf.ParseDwarfOutput`: `readelf` lines arrive pre-classified: depth, tag, name, resolved type name and artificial flag. Not modelled: the regexes that classify them, the type map built from base and pointer types (dwarf_parser.py:140-165), the compiler, source file, version, pc range and location fields, and `parse_dwarf_info`'s subprocess.
- The file-writing emitters and drivers are not modelled, because they are file I/O. This covers `write_file_header`, the header generators, `format_data_type`, `extract_struct_definition`, `collect_data_types`, the `_INDEX.md` writer, every `main()`, and libsurgeon.py's archive extraction, process pool, directory scanning, magic-byte sniffing and UI.
- evaluate_quality.py, format.py and ghidra_enable_dwarf.py are not part of this model.
