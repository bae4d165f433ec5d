/** `extract_function_signature`, in its common form and in the variant of the ELF
    decompiler: the text of a decompiled function up to its first `{`, on one line,
    whitespace-collapsed and type-normalised. */
module Signature {
  import opened Text
  import opened TypeNormalizer

  /** The loop over the lines of the stripped code: every line is kept stripped until
      the first line holding `{`, of which only the stripped text before the brace is
      kept, and the loop stops there. */
  function SignatureLines(lines: seq<string>): (sl: seq<string>)
    ensures |sl| <= |lines|
  {
    if lines == [] then []
    else if '{' in lines[0] then [Strip(Split(lines[0], "{")[0])]
    else [Strip(lines[0])] + SignatureLines(lines[1..])
  }

  /** The index of the first line holding `{`, or the number of lines. */
  function FirstBrace(lines: seq<string>): (k: nat)
    ensures k <= |lines|
    ensures forall i :: 0 <= i < k ==> '{' !in lines[i]
    ensures k < |lines| ==> '{' in lines[k]
  {
    if lines == [] then 0
    else if '{' in lines[0] then 0
    else 1 + FirstBrace(lines[1..])
  }

  /** Every line stripped. */
  function StripAll(lines: seq<string>): (r: seq<string>)
    ensures |r| == |lines|
  {
    if lines == [] then [] else [Strip(lines[0])] + StripAll(lines[1..])
  }

  /** The kept lines: every line before the first holding `{` stripped, then the
      stripped text before the brace of that line if there is one. */
  predicate KeptLines(lines: seq<string>, sl: seq<string>) {
    var k := FirstBrace(lines);
    sl == StripAll(lines[..k]) + (if k < |lines| then [Strip(Split(lines[k], "{")[0])] else [])
  }

  lemma {:induction false} SignatureLinesSpec(lines: seq<string>)
    ensures KeptLines(lines, SignatureLines(lines))
    decreases |lines|
  {
    if lines != [] && '{' !in lines[0] {
      SignatureLinesSpec(lines[1..]);
      KeptLinesCons(lines, SignatureLines(lines[1..]));
    } else if lines != [] {
      assert lines[..0] == [];
    }
  }

  lemma KeptLinesCons(lines: seq<string>, rest: seq<string>)
    requires lines != [] && '{' !in lines[0]
    requires KeptLines(lines[1..], rest)
    ensures KeptLines(lines, [Strip(lines[0])] + rest)
  {
    var k, k' := FirstBrace(lines), FirstBrace(lines[1..]);
    var tail := if k < |lines| then [Strip(Split(lines[k], "{")[0])] else [];
    var tail' := if k' < |lines[1..]| then [Strip(Split(lines[1..][k'], "{")[0])] else [];
    assert k == 1 + k';
    TakeCons(lines, k);
    StripAllCons(lines[0], lines[1..][..k']);
    assert tail == tail' by {
      if k < |lines| {
        assert lines[1..][k'] == lines[k];
      }
    }
    ConsAssoc(Strip(lines[0]), StripAll(lines[1..][..k']), tail);
  }

  lemma TakeCons<T>(s: seq<T>, k: nat)
    requires 1 <= k <= |s|
    ensures s[..k] == [s[0]] + s[1..][..k - 1]
  {
  }

  lemma StripAllCons(x: string, xs: seq<string>)
    ensures StripAll([x] + xs) == [Strip(x)] + StripAll(xs)
  {
    assert ([x] + xs)[1..] == xs;
  }

  lemma ConsAssoc<T>(x: T, a: seq<T>, b: seq<T>)
    ensures [x] + (a + b) == ([x] + a) + b
  {
  }

  /** `StripAll` strips each line in place. */
  lemma {:induction false} StripAllAt(lines: seq<string>, i: nat)
    requires i < |lines|
    ensures StripAll(lines)[i] == Strip(lines[i])
    decreases i
  {
    if i > 0 {
      StripAllAt(lines[1..], i - 1);
    }
  }

  /** No kept line holds `{`. */
  lemma {:induction false} SignatureLinesLackBrace(lines: seq<string>)
    ensures forall i :: 0 <= i < |SignatureLines(lines)| ==> '{' !in SignatureLines(lines)[i]
    decreases |lines|
  {
    if lines != [] {
      if '{' in lines[0] {
        var head := Split(lines[0], "{")[0];
        SplitPiecesLackSep(lines[0], '{');
        assert head in Split(lines[0], "{");
      } else {
        SignatureLinesLackBrace(lines[1..]);
      }
    }
  }

  /** The joined, stripped and whitespace-collapsed signature text, before the type
      normalisation. */
  function RawSignature(code: string): string {
    CollapseWhitespace(Strip(Join(SignatureLines(Split(Strip(code), "\n")), " ")))
  }

  /** `extract_function_signature` of the common module: None for the empty code, and
      for a signature that is empty or ends with `;` (a declaration, not a
      definition). */
  function ExtractFunctionSignature(code: string): Option<string> {
    if code == [] then None
    else
      var sig := RawSignature(code);
      if sig == [] || EndsWith(sig, ";") then None else Some(NormalizeText(sig))
  }

  /** `extract_function_signature` of the ELF decompiler: the same text, without the
      check for an empty signature or a trailing `;`. */
  function ExtractFunctionSignatureElf(code: string): Option<string> {
    if code == [] then None else Some(NormalizeText(RawSignature(code)))
  }

  /** The raw signature is on one line: it has no `{`, no whitespace at either end,
      no whitespace other than single spaces. */
  lemma RawSignatureShape(code: string)
    ensures OneLine(RawSignature(code))
  {
    var lines := Split(Strip(code), "\n");
    SignatureLinesLackBrace(lines);
    OneLineJoined(SignatureLines(lines));
  }

  /** Signature lines without `{`, joined with spaces, stripped and collapsed, make
      one line. */
  lemma OneLineJoined(sl: seq<string>)
    requires forall i :: 0 <= i < |sl| ==> '{' !in sl[i]
    ensures OneLine(CollapseWhitespace(Strip(Join(sl, " "))))
  {
    JoinLacks(sl, " ", '{');
    OneLineCollapsed(Join(sl, " "));
  }

  /** No `{`, no whitespace at either end, no whitespace other than single spaces. */
  predicate OneLine(r: string) {
    '{' !in r &&
    (r == [] || (!IsSpace(r[0]) && !IsSpace(r[|r| - 1]))) &&
    (forall i :: 0 <= i < |r| && IsSpace(r[i]) ==> r[i] == ' ') &&
    (forall i :: 0 <= i < |r| - 1 ==> !(IsSpace(r[i]) && IsSpace(r[i + 1])))
  }

  lemma OneLineCollapsed(j: string)
    requires '{' !in j
    ensures OneLine(CollapseWhitespace(Strip(j)))
  {
    var st := Strip(j);
    assert '{' !in st;
    CollapseWhitespaceLacks(st, '{');
  }

  /** A join of pieces without `c` with a separator without `c` has no `c`. */
  lemma {:induction false} JoinLacks(parts: seq<string>, sep: string, c: char)
    requires c !in sep
    requires forall i :: 0 <= i < |parts| ==> c !in parts[i]
    ensures c !in Join(parts, sep)
    decreases |parts|
  {
    if |parts| > 1 {
      JoinLacks(parts[1..], sep, c);
    }
  }

  /** Empty and whitespace-only code has no signature in the common form; the ELF
      form returns the empty signature for whitespace-only code. */
  lemma SignatureOfBlank(code: string)
    requires forall i :: 0 <= i < |code| ==> IsSpace(code[i])
    ensures ExtractFunctionSignature(code).None?
    ensures code != [] ==> ExtractFunctionSignatureElf(code) == Some([])
  {
    var st := Strip(code);
    StripAllSpace(code);
    assert Split(st, "\n") == [[]];
    assert SignatureLines([[]]) == [[]];
  }

  /** The two forms agree whenever the common one finds a signature; where it does
      not, the ELF form returns the normalised text anyway. */
  lemma SignatureForms(code: string)
    ensures ExtractFunctionSignature(code).Some? ==>
              ExtractFunctionSignatureElf(code) == ExtractFunctionSignature(code)
    ensures code != [] && ExtractFunctionSignature(code).None? ==>
              ExtractFunctionSignatureElf(code).Some? &&
              (RawSignature(code) == [] || EndsWith(RawSignature(code), ";"))
  {
  }

  /** A found signature is in normal form: normalising it again changes nothing. */
  lemma SignatureNormalized(code: string)
    requires ExtractFunctionSignature(code).Some?
    ensures NormalizeText(ExtractFunctionSignature(code).value) == ExtractFunctionSignature(code).value
  {
    NormalizeTextIdempotent(RawSignature(code));
  }
}
