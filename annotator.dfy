/** `enhance_decompiled_code`: two textual annotations of decompiled C, a hint
    after the first `{` when many unknown struct fields are accessed, and a
    `/* vtable[<offset>] */` note after each indirect call through a vtable. */
module Annotator {
  import opened Text

  // ---------------------------------------------------------------------
  // Unknown struct fields: `field_0x[0-9a-fA-F]+`
  // ---------------------------------------------------------------------

  const FieldPrefix: string := "field_0x"

  /** A token the field pattern matches: the prefix and at least one hex digit. */
  predicate IsFieldToken(t: string) {
    |t| > |FieldPrefix| && t[..|FieldPrefix|] == FieldPrefix &&
    forall i :: |FieldPrefix| <= i < |t| ==> IsHexDigit(t[i])
  }

  /** `re.findall` of the field pattern from position `k`: scanning left to right,
      each match takes the longest run of hex digits and the scan resumes after it. */
  function FieldTokensFrom(s: string, k: nat): (ts: seq<string>)
    requires k <= |s|
    ensures forall t :: t in ts ==> IsFieldToken(t)
    decreases |s| - k
  {
    if k + |FieldPrefix| > |s| then []
    else
      var e := RunEnd(s, k + |FieldPrefix|, IsHexDigit);
      if OccursAt(s, FieldPrefix, k) && e > k + |FieldPrefix| then
        assert s[k..e][..|FieldPrefix|] == s[k..k + |FieldPrefix|];
        [s[k..e]] + FieldTokensFrom(s, e)
      else FieldTokensFrom(s, k + 1)
  }

  function FieldTokens(s: string): seq<string> {
    FieldTokensFrom(s, 0)
  }

  /** The number of distinct field tokens, `len(set(matches))`. */
  function DistinctFields(s: string): nat {
    |set t | t in FieldTokens(s)|
  }

  function FieldHint(n: nat): string {
    "// NOTE: " + NatToString(n) + " unknown struct fields accessed - consider defining struct type\n"
  }

  /** The first step of `enhance_decompiled_code`: with more than three distinct
      field tokens and a first `{` after the start, a newline and the hint go right
      after that brace. */
  function AnnotateFields(code: string): string {
    var n := DistinctFields(code);
    var b := IndexOf(code, "{");
    if n > 3 && b > 0 then InsertAfter(code, b, "\n" + FieldHint(n)) else code
  }

  /** `code[:b + 1] + h + code[b + 1:]`. */
  function InsertAfter(code: string, b: nat, h: string): string
    requires b < |code|
  {
    code[..b + 1] + h + code[b + 1..]
  }

  /** The inserted text follows position `b` and removing it gives the code back. */
  lemma InsertAfterShape(code: string, b: nat, h: string)
    requires b < |code|
    ensures var r := InsertAfter(code, b, h);
            |r| == |code| + |h| && r[..b + 1] == code[..b + 1] &&
            r[b + 1..b + 1 + |h|] == h && r[..b + 1] + r[b + 1 + |h|..] == code
  {
    var r := InsertAfter(code, b, h);
    assert r[..b + 1] == code[..b + 1];
    assert r[b + 1..b + 1 + |h|] == h;
    assert r[b + 1 + |h|..] == code[b + 1..];
    assert code[..b + 1] + code[b + 1..] == code;
  }

  /** `IndexOf(code, "{")` is the first `{`. */
  lemma FirstBrace(code: string)
    requires IndexOf(code, "{") >= 0
    ensures var b := IndexOf(code, "{");
            b < |code| && code[b] == '{' && forall j :: 0 <= j < b ==> code[j] != '{'
  {
    var b := IndexOf(code, "{");
    assert code[b..b + 1] == "{";
    forall j | 0 <= j < b ensures code[j] != '{' {
      assert !OccursAt(code, "{", j);
      assert code[j..j + 1] == [code[j]];
    }
  }

  /** Either nothing changes, or the one inserted block, a newline and the hint, sits
      right after the first `{` (which is not at the start) and removing it gives
      the code back. */
  lemma AnnotateFieldsInsertsHint(code: string)
    ensures var r := AnnotateFields(code);
            var n := DistinctFields(code);
            var b := IndexOf(code, "{");
            var h := "\n" + FieldHint(n);
            if n > 3 && b > 0 then
              |r| == |code| + |h| && r[b] == '{' && (forall j :: 0 <= j < b ==> r[j] != '{') &&
              r[b + 1..b + 1 + |h|] == h && r[..b + 1] + r[b + 1 + |h|..] == code
            else r == code
  {
    var n := DistinctFields(code);
    var b := IndexOf(code, "{");
    if n > 3 && b > 0 {
      FirstBrace(code);
      var h := "\n" + FieldHint(n);
      InsertAfterShape(code, b, h);
      var r := InsertAfter(code, b, h);
      assert forall j :: 0 <= j <= b ==> r[j] == code[j];
    }
  }

  /** Three distinct fields or fewer never add the hint. */
  lemma FewFieldsNoHint(code: string)
    requires DistinctFields(code) <= 3
    ensures AnnotateFields(code) == code
  {
  }

  // ---------------------------------------------------------------------
  // Vtable calls: `\(\*\*\(\w+\s*\*\*\)\(\*?\(?(\w+)\)?\s*\+\s*(0x[0-9a-fA-F]+)\)\)`
  // ---------------------------------------------------------------------

  /** A hex literal `0x` followed by at least one hex digit. */
  predicate IsHexLiteral(o: string) {
    |o| > 2 && o[..2] == "0x" && forall i :: 2 <= i < |o| ==> IsHexDigit(o[i])
  }

  /** `\(\*\*\(\w+\s*\*\*\)\(` at `k`: where the matched text ends. */
  function HeadEnd(s: string, k: nat): (r: Option<nat>)
    requires k <= |s|
    ensures r.Some? ==> k + 4 < r.value <= |s| && OccursAt(s, "(**(", k)
  {
    if !OccursAt(s, "(**(", k) then None
    else
      var a := RunEnd(s, k + 4, IsWordChar);
      var b := RunEnd(s, a, IsSpace);
      if a == k + 4 || !OccursAt(s, "**)(", b) then None else Some(b + 4)
  }

  /** `\*?\(?(\w+)\)?\s*\+\s*` at `c`: where the offset starts. */
  function ObjectEnd(s: string, c: nat): (r: Option<nat>)
    requires c <= |s|
    ensures r.Some? ==> c < r.value <= |s|
  {
    var c1 := if c < |s| && s[c] == '*' then c + 1 else c;
    var c2 := if c1 < |s| && s[c1] == '(' then c1 + 1 else c1;
    var d := RunEnd(s, c2, IsWordChar);
    var d1 := if d < |s| && s[d] == ')' then d + 1 else d;
    var f := RunEnd(s, d1, IsSpace);
    if d == c2 || !OccursAt(s, "+", f) then None else Some(RunEnd(s, f + 1, IsSpace))
  }

  /** `0x[0-9a-fA-F]+\)\)` at `g`: where the hex digits end. */
  function OffsetEnd(s: string, g: nat): (r: Option<nat>)
    requires g <= |s|
    ensures r.Some? ==> g + 2 < r.value && r.value + 2 <= |s| && OccursAt(s, "0x", g) &&
                        OccursAt(s, "))", r.value) && forall i :: g + 2 <= i < r.value ==> IsHexDigit(s[i])
  {
    if !OccursAt(s, "0x", g) then None
    else
      var h := RunEnd(s, g + 2, IsHexDigit);
      if h == g + 2 || !OccursAt(s, "))", h) then None else Some(h)
  }

  /** The vtable-call pattern matched at `k`: where the offset (group 2) starts
      and where its hex digits end. Every part of the pattern is either forced or
      greedy with nothing to give back, so there is at most one match at a position. */
  function CallSpan(s: string, k: nat): (m: Option<(nat, nat)>)
    requires k <= |s|
    ensures m.Some? ==> CallShape(s, k, m.value.0, m.value.1)
  {
    match HeadEnd(s, k)
    case None => None
    case Some(c) =>
      match ObjectEnd(s, c)
      case None => None
      case Some(g) =>
        match OffsetEnd(s, g)
        case None => None
        case Some(h) => Some((g, h))
  }

  /** `(**(` at `k`, the offset `0x…` from `g` to `h`, and `))` after it. */
  predicate CallShape(s: string, k: nat, g: nat, h: nat) {
    k + 4 < g && g + 2 < h && h + 2 <= |s| && OccursAt(s, "(**(", k) &&
    OccursAt(s, "0x", g) && OccursAt(s, "))", h) && forall i :: g + 2 <= i < h ==> IsHexDigit(s[i])
  }

  /** The note appended after a match. */
  function Note(offset: string): string {
    " /* vtable[" + offset + "] */"
  }

  /** A matched call starts with `(**(` and ends with its offset and `))`. */
  predicate IsCallText(t: string, offset: string) {
    IsHexLiteral(offset) && |t| >= 4 + |offset| + 2 && t[..4] == "(**(" &&
    t[|t| - |offset| - 2..] == offset + "))"
  }

  lemma CallShapeText(s: string, k: nat, g: nat, h: nat)
    requires CallShape(s, k, g, h)
    ensures IsCallText(s[k..h + 2], s[g..h])
  {
    var t, off := s[k..h + 2], s[g..h];
    assert off[..2] == s[g..g + 2];
    assert t[..4] == s[k..k + 4];
    assert t[|t| - |off| - 2..] == s[g..h + 2];
    assert s[g..h + 2] == off + s[h..h + 2];
  }

  /** The match at every position of `s`, or None. */
  function CallTable(s: string): (ms: seq<Option<(nat, nat)>>)
    ensures |ms| == |s| + 1
    ensures forall j :: 0 <= j <= |s| ==> ms[j] == CallSpan(s, j)
  {
    seq(|s| + 1, j requires 0 <= j <= |s| => CallSpan(s, j))
  }

  /** A table with one entry per position whose matches lie ahead of it. */
  predicate Forward(s: string, ms: seq<Option<(nat, nat)>>) {
    |ms| == |s| + 1 &&
    forall j :: 0 <= j <= |s| && ms[j].Some? ==> j < ms[j].value.0 <= ms[j].value.1 && ms[j].value.1 + 2 <= |s|
  }

  /** A table of matches: each entry is a vtable call at its position. */
  predicate Matches(s: string, ms: seq<Option<(nat, nat)>>) {
    Forward(s, ms) &&
    forall j :: 0 <= j <= |s| && ms[j].Some? ==> CallShape(s, j, ms[j].value.0, ms[j].value.1)
  }

  lemma CallTableMatches(s: string)
    ensures Matches(s, CallTable(s))
  {
  }

  /** `re.sub` of the vtable-call pattern from position `k`, with the match at each
      position taken from the table: a match is kept and the note with its offset
      appended, the scan resuming after it; any other character is copied. */
  function SubCallsFrom(s: string, ms: seq<Option<(nat, nat)>>, k: nat): string
    requires Forward(s, ms) && k <= |s|
    decreases |s| - k
  {
    if k == |s| then []
    else match ms[k]
      case Some((g, h)) => s[k..h + 2] + Note(s[g..h]) + SubCallsFrom(s, ms, h + 2)
      case None => [s[k]] + SubCallsFrom(s, ms, k + 1)
  }

  /** The vtable-call substitution over a whole text. */
  function AnnotateCalls(s: string): string {
    CallTableMatches(s);
    SubCallsFrom(s, CallTable(s), 0)
  }

  /** The scan as a sequence of pieces: a copied character, or a matched call and
      its offset. */
  datatype Piece = Plain(c: char) | Call(text: string, offset: string)

  function PiecesFrom(s: string, ms: seq<Option<(nat, nat)>>, k: nat): seq<Piece>
    requires Forward(s, ms) && k <= |s|
    decreases |s| - k
  {
    if k == |s| then []
    else match ms[k]
      case Some((g, h)) => [Call(s[k..h + 2], s[g..h])] + PiecesFrom(s, ms, h + 2)
      case None => [Plain(s[k])] + PiecesFrom(s, ms, k + 1)
  }

  /** With a table of matches every call piece is the text of a vtable call. */
  lemma {:induction false} PiecesAreCalls(s: string, ms: seq<Option<(nat, nat)>>, k: nat)
    requires Matches(s, ms) && k <= |s|
    ensures forall p :: p in PiecesFrom(s, ms, k) && p.Call? ==> IsCallText(p.text, p.offset)
    decreases |s| - k
  {
    if k < |s| {
      match ms[k]
      case Some((g, h)) =>
        CallShapeText(s, k, g, h);
        PiecesAreCalls(s, ms, h + 2);
      case None =>
        PiecesAreCalls(s, ms, k + 1);
    }
  }

  /** The input text of the pieces. */
  function Source(ps: seq<Piece>): string {
    if ps == [] then [] else InText(ps[0]) + Source(ps[1..])
  }

  /** The output text of the pieces: each call followed by its note. */
  function Annotated(ps: seq<Piece>): string {
    if ps == [] then [] else OutText(ps[0]) + Annotated(ps[1..])
  }

  function InText(p: Piece): string {
    match p case Plain(c) => [c] case Call(t, _) => t
  }

  function OutText(p: Piece): string {
    match p case Plain(c) => [c] case Call(t, o) => t + Note(o)
  }

  lemma Cons(p: Piece, ps: seq<Piece>)
    ensures Source([p] + ps) == InText(p) + Source(ps)
    ensures Annotated([p] + ps) == OutText(p) + Annotated(ps)
  {
    assert ([p] + ps)[1..] == ps;
  }

  /** The first piece from `k`, and where the scan resumes after it. */
  function FirstPiece(s: string, ms: seq<Option<(nat, nat)>>, k: nat): (r: (Piece, nat))
    requires Forward(s, ms) && k < |s|
    ensures k < r.1 <= |s| && InText(r.0) == s[k..r.1]
  {
    match ms[k]
    case Some((g, h)) => (Call(s[k..h + 2], s[g..h]), h + 2)
    case None => (Plain(s[k]), k + 1)
  }

  /** One piece and the rest of the input after it make up the input from `k`. */
  lemma CoverStep(s: string, k: nat, e: nat, p: Piece, ps: seq<Piece>)
    requires k < e <= |s| && InText(p) == s[k..e] && Source(ps) == s[e..]
    ensures Source([p] + ps) == s[k..]
  {
    Cons(p, ps);
    SlicesJoin(s, k, e);
  }

  lemma SlicesJoin(s: string, k: nat, e: nat)
    requires k <= e <= |s|
    ensures s[k..e] + s[e..] == s[k..]
  {
  }

  /** The pieces cover the input exactly: no character is altered or lost. */
  lemma {:induction false} PiecesCoverInput(s: string, ms: seq<Option<(nat, nat)>>, k: nat)
    requires Forward(s, ms) && k <= |s|
    ensures Source(PiecesFrom(s, ms, k)) == s[k..]
    decreases |s| - k
  {
    if k < |s| {
      var (p, e) := FirstPiece(s, ms, k);
      PiecesStep(s, ms, k);
      PiecesCoverInput(s, ms, e);
      CoverStep(s, k, e, p, PiecesFrom(s, ms, e));
    }
  }

  lemma PiecesStep(s: string, ms: seq<Option<(nat, nat)>>, k: nat)
    requires Forward(s, ms) && k < |s|
    ensures var (p, e) := FirstPiece(s, ms, k);
            PiecesFrom(s, ms, k) == [p] + PiecesFrom(s, ms, e) &&
            SubCallsFrom(s, ms, k) == OutText(p) + SubCallsFrom(s, ms, e)
  {
  }

  /** The substitution is the pieces with a note after each call. */
  lemma {:induction false} SubIsPieces(s: string, ms: seq<Option<(nat, nat)>>, k: nat)
    requires Forward(s, ms) && k <= |s|
    ensures SubCallsFrom(s, ms, k) == Annotated(PiecesFrom(s, ms, k))
    decreases |s| - k
  {
    if k < |s| {
      var (p, e) := FirstPiece(s, ms, k);
      PiecesStep(s, ms, k);
      SubIsPieces(s, ms, e);
      Cons(p, PiecesFrom(s, ms, e));
    }
  }

  /** Without a match from `k` on, the text from `k` is copied. */
  lemma {:induction false} NoMatchCopied(s: string, ms: seq<Option<(nat, nat)>>, k: nat)
    requires Forward(s, ms) && k <= |s|
    requires forall j :: k <= j <= |s| ==> ms[j].None?
    ensures SubCallsFrom(s, ms, k) == s[k..]
    decreases |s| - k
  {
    if k < |s| {
      NoMatchCopied(s, ms, k + 1);
      assert [s[k]] + s[k + 1..] == s[k..];
    }
  }

  /** Every vtable call of `code` keeps its text and gets the note carrying its
      offset, every other character is copied, and nothing else is added. */
  lemma AnnotateCallsSpec(code: string)
    ensures var ms := CallTable(code);
            Matches(code, ms) &&
            var ps := PiecesFrom(code, ms, 0);
            Source(ps) == code && AnnotateCalls(code) == Annotated(ps) &&
            forall p :: p in ps && p.Call? ==> IsCallText(p.text, p.offset)
  {
    CallTableMatches(code);
    PiecesAreCalls(code, CallTable(code), 0);
    PiecesCoverInput(code, CallTable(code), 0);
    SubIsPieces(code, CallTable(code), 0);
  }

  /** Without a vtable call the text is unchanged. */
  lemma NoCallsUnchanged(s: string)
    requires forall j :: 0 <= j <= |s| ==> CallSpan(s, j).None?
    ensures AnnotateCalls(s) == s
  {
    CallTableMatches(s);
    NoMatchCopied(s, CallTable(s), 0);
  }

  // ---------------------------------------------------------------------
  // enhance_decompiled_code
  // ---------------------------------------------------------------------

  /** `enhance_decompiled_code` (the class and struct maps are unused by it):
      empty code is returned as it is; otherwise the field hint, then the vtable
      notes. */
  function EnhanceDecompiledCode(code: string): string {
    if code == [] then code else AnnotateCalls(AnnotateFields(code))
  }

  /** Code with few field tokens and no vtable call comes back unchanged. */
  lemma EnhancePlain(code: string)
    requires DistinctFields(code) <= 3
    requires forall j :: 0 <= j <= |code| ==> CallSpan(code, j).None?
    ensures EnhanceDecompiledCode(code) == code
  {
    NoCallsUnchanged(code);
  }
}
