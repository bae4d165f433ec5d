/** Character classes and string operations shared by the post-processing passes.
    They give the meaning the model assumes for the Python built-ins and the
    regular-expression building blocks the post-processing scripts rely on
    (`str.strip`, `str.split`, `str.replace`, `\w`, `\s`, `str(int)`). */
module Text {

  datatype Option<T> = None | Some(value: T)

  // ---------------------------------------------------------------------
  // Character classes
  // ---------------------------------------------------------------------

  /** The regular-expression class `\w`, restricted to ASCII. */
  predicate IsWordChar(c: char) {
    ('a' <= c <= 'z') || ('A' <= c <= 'Z') || ('0' <= c <= '9') || c == '_'
  }

  predicate IsUpper(c: char) { 'A' <= c <= 'Z' }
  predicate IsLower(c: char) { 'a' <= c <= 'z' }
  predicate IsDigit(c: char) { '0' <= c <= '9' }
  predicate IsAlpha(c: char) { IsUpper(c) || IsLower(c) }
  predicate IsAlnum(c: char) { IsAlpha(c) || IsDigit(c) }
  predicate IsHexDigit(c: char) { IsDigit(c) || ('a' <= c <= 'f') || ('A' <= c <= 'F') }

  /** Python's `str.isspace`, which is also what `\s` matches in a `str` pattern. */
  predicate IsSpace(c: char) {
    c == ' ' || ('\U{9}' <= c <= '\U{D}') || ('\U{1C}' <= c <= '\U{1F}') ||
    c == '\U{85}' || c == '\U{A0}' || c == '\U{1680}' || ('\U{2000}' <= c <= '\U{200A}') ||
    c == '\U{2028}' || c == '\U{2029}' || c == '\U{202F}' || c == '\U{205F}' || c == '\U{3000}'
  }

  function ToUpperChar(c: char): (u: char)
    ensures IsAlpha(c) ==> IsUpper(u)
    ensures !IsLower(c) ==> u == c
  {
    if IsLower(c) then (c as int - 32) as char else c
  }

  function ToLowerChar(c: char): (l: char)
    ensures IsAlpha(c) ==> IsLower(l)
    ensures !IsUpper(c) ==> l == c
  {
    if IsUpper(c) then (c as int + 32) as char else c
  }

  function ToLower(s: string): (r: string)
    ensures |r| == |s|
    ensures forall i :: 0 <= i < |s| ==> r[i] == ToLowerChar(s[i])
  {
    if s == [] then [] else [ToLowerChar(s[0])] + ToLower(s[1..])
  }

  // ---------------------------------------------------------------------
  // Spans, prefixes, occurrences
  // ---------------------------------------------------------------------

  /** Length of the longest prefix of `s` whose characters all satisfy `p`. */
  function Span(s: string, p: char -> bool): (n: nat)
    ensures n <= |s|
    ensures forall i :: 0 <= i < n ==> p(s[i])
    ensures n == |s| || !p(s[n])
  {
    if s != [] && p(s[0]) then 1 + Span(s[1..], p) else 0
  }

  /** The end of the run of characters satisfying `p` that starts at `k`. */
  function RunEnd(s: string, k: nat, p: char -> bool): (e: nat)
    requires k <= |s|
    ensures k <= e <= |s|
    ensures forall i :: k <= i < e ==> p(s[i])
    ensures e == |s| || !p(s[e])
    decreases |s| - k
  {
    if k < |s| && p(s[k]) then RunEnd(s, k + 1, p) else k
  }

  predicate StartsWith(s: string, pre: string) {
    |pre| <= |s| && s[..|pre|] == pre
  }

  predicate EndsWith(s: string, suf: string) {
    |suf| <= |s| && s[|s| - |suf|..] == suf
  }

  predicate OccursAt(s: string, pat: string, k: int) {
    0 <= k && k + |pat| <= |s| && s[k..k + |pat|] == pat
  }

  lemma OccursAtTail(s: string, pat: string, k: int)
    requires s != [] && 0 <= k
    ensures OccursAt(s[1..], pat, k) <==> OccursAt(s, pat, k + 1)
  {
    if 0 <= k && k + |pat| <= |s| - 1 {
      assert s[1..][k..k + |pat|] == s[k + 1..k + 1 + |pat|];
    }
  }

  /** The first index at or after `k` at which `pat` occurs, or -1. */
  function IndexFrom(s: string, pat: string, k: nat): (r: int)
    requires k <= |s|
    ensures r == -1 || k <= r <= |s|
    ensures r >= 0 ==> OccursAt(s, pat, r)
    ensures forall j :: k <= j && (r < 0 || j < r) ==> !OccursAt(s, pat, j)
    decreases |s| - k
  {
    if k + |pat| > |s| then -1
    else if s[k..k + |pat|] == pat then k
    else IndexFrom(s, pat, k + 1)
  }

  /** Python's `s.find(pat)`: the first index at which `pat` occurs, or -1. */
  function IndexOf(s: string, pat: string): (r: int)
    ensures -1 <= r <= |s|
    ensures r >= 0 ==> OccursAt(s, pat, r)
    ensures forall k :: 0 <= k && (r < 0 || k < r) ==> !OccursAt(s, pat, k)
  {
    IndexFrom(s, pat, 0)
  }

  /** Python's `pat in s`. */
  predicate Contains(s: string, pat: string) {
    IndexOf(s, pat) >= 0
  }

  lemma ContainsChar(s: string, c: char)
    ensures Contains(s, [c]) <==> c in s
  {
    if c in s {
      var k :| 0 <= k < |s| && s[k] == c;
      assert OccursAt(s, [c], k);
    }
    if Contains(s, [c]) {
      var k := IndexOf(s, [c]);
      assert s[k..k + 1] == [c];
      assert s[k] == c;
    }
  }

  // ---------------------------------------------------------------------
  // strip, split, join, replace
  // ---------------------------------------------------------------------

  /** `s.lstrip()`. */
  function LStrip(s: string): (r: string)
    ensures |r| <= |s| && r == s[|s| - |r|..]
    ensures r == [] || !IsSpace(r[0])
    ensures forall i :: 0 <= i < |s| - |r| ==> IsSpace(s[i])
  {
    if s != [] && IsSpace(s[0]) then LStrip(s[1..]) else s
  }

  /** `s.rstrip()`. */
  function RStrip(s: string): (r: string)
    ensures |r| <= |s| && r == s[..|r|]
    ensures r == [] || !IsSpace(r[|r| - 1])
    ensures forall i :: |r| <= i < |s| ==> IsSpace(s[i])
  {
    if s != [] && IsSpace(s[|s| - 1]) then RStrip(s[..|s| - 1]) else s
  }

  /** `s.strip()`: neither begins nor ends with whitespace, and removes only
      whitespace. */
  function Strip(s: string): (r: string)
    ensures |r| <= |s|
    ensures r == [] || (!IsSpace(r[0]) && !IsSpace(r[|r| - 1]))
    ensures forall x :: x in r ==> x in s
    ensures (s == [] || (!IsSpace(s[0]) && !IsSpace(s[|s| - 1]))) ==> r == s
  {
    RStrip(LStrip(s))
  }

  /** A text made only of whitespace strips to nothing. */
  lemma {:induction false} StripAllSpace(s: string)
    requires forall i :: 0 <= i < |s| ==> IsSpace(s[i])
    ensures Strip(s) == []
  {
    if s != [] {
      StripAllSpace(s[1..]);
      assert LStrip(s) == LStrip(s[1..]);
    }
  }

  /** `s.lstrip(c)` for a single character. */
  function LStripChar(s: string, c: char): (r: string)
    ensures |r| <= |s| && r == s[|s| - |r|..]
    ensures r == [] || r[0] != c
  {
    if s != [] && s[0] == c then LStripChar(s[1..], c) else s
  }

  /** `s.rstrip(c)` for a single character. */
  function RStripChar(s: string, c: char): (r: string)
    ensures |r| <= |s| && r == s[..|r|]
    ensures r == [] || r[|r| - 1] != c
  {
    if s != [] && s[|s| - 1] == c then RStripChar(s[..|s| - 1], c) else s
  }

  /** `s.strip(c)` for a single character. */
  function StripChar(s: string, c: char): (r: string)
    ensures |r| <= |s|
    ensures r == [] || (r[0] != c && r[|r| - 1] != c)
    ensures (s == [] || (s[0] != c && s[|s| - 1] != c)) ==> r == s
    ensures var k := |s| - |LStripChar(s, c)|; k + |r| <= |s| && r == s[k..][..|r|]
  {
    var l := LStripChar(s, c);
    var r := RStripChar(l, c);
    assert l == s[|s| - |l|..];
    r
  }

  /** The pieces of `s[k..]` cut at every occurrence of `sep`, scanning left to
      right without overlaps. */
  function SplitFrom(s: string, sep: string, k: nat): (parts: seq<string>)
    requires sep != [] && k <= |s|
    ensures |parts| >= 1
    decreases |s| - k
  {
    var i := IndexFrom(s, sep, k);
    if i < 0 then [s[k..]] else [s[k..i]] + SplitFrom(s, sep, i + |sep|)
  }

  /** Python's `s.split(sep)` for a non-empty separator. */
  function Split(s: string, sep: string): (parts: seq<string>)
    requires sep != []
    ensures |parts| >= 1
  {
    SplitFrom(s, sep, 0)
  }

  /** A text without the separator is one piece; otherwise the first piece is the
      text before the first separator, and there are more. */
  lemma SplitShape(s: string, sep: string)
    requires sep != []
    ensures |Split(s, sep)| == 1 <==> !Contains(s, sep)
    ensures !Contains(s, sep) ==> Split(s, sep) == [s]
    ensures Contains(s, sep) ==> Split(s, sep)[0] == s[..IndexOf(s, sep)]
  {
    assert s[0..] == s;
  }

  /** Python's `sep.join(parts)`. */
  function Join(parts: seq<string>, sep: string): string
  {
    if |parts| == 0 then []
    else if |parts| == 1 then parts[0]
    else parts[0] + sep + Join(parts[1..], sep)
  }

  /** Joining the pieces of a split with the same separator gives the text back. */
  lemma JoinSplit(s: string, sep: string)
    requires sep != []
    ensures Join(Split(s, sep), sep) == s
  {
    JoinSplitFrom(s, sep, 0);
    assert s[0..] == s;
  }

  lemma {:induction false} JoinSplitFrom(s: string, sep: string, k: nat)
    requires sep != [] && k <= |s|
    ensures Join(SplitFrom(s, sep, k), sep) == s[k..]
    decreases |s| - k
  {
    var i := IndexFrom(s, sep, k);
    if i >= 0 {
      JoinSplitFrom(s, sep, i + |sep|);
      SplitFromCut(s, sep, k);
      JoinCut(s[k..i], SplitFrom(s, sep, i + |sep|), SplitFrom(s, sep, k), sep, s[i + |sep|..]);
      CutAt(s, sep, k, i);
    }
  }

  /** A split at a found separator: the piece before it, then the split of the rest. */
  lemma SplitFromCut(s: string, sep: string, k: nat)
    requires sep != [] && k <= |s| && IndexFrom(s, sep, k) >= 0
    ensures var i := IndexFrom(s, sep, k);
            SplitFrom(s, sep, k) == [s[k..i]] + SplitFrom(s, sep, i + |sep|)
  {
  }

  lemma JoinCut(x: string, tail: seq<string>, parts: seq<string>, sep: string, t: string)
    requires tail != [] && parts == [x] + tail && Join(tail, sep) == t
    ensures Join(parts, sep) == x + sep + t
  {
    JoinCons(x, tail, sep);
  }

  /** The text from `k` around an occurrence of `sep` at `i`. */
  lemma CutAt(s: string, sep: string, k: nat, i: nat)
    requires k <= i && OccursAt(s, sep, i)
    ensures s[k..] == s[k..i] + sep + s[i + |sep|..]
  {
    assert s[i..i + |sep|] == sep;
    assert s[k..] == s[k..i] + s[i..i + |sep|] + s[i + |sep|..];
  }

  lemma JoinCons(x: string, tail: seq<string>, sep: string)
    requires tail != []
    ensures Join([x] + tail, sep) == x + sep + Join(tail, sep)
  {
    assert ([x] + tail)[1..] == tail;
  }

  /** The last piece of a split holds no separator. */
  lemma SplitLastLacksSep(s: string, sep: string)
    requires sep != []
    ensures var parts := Split(s, sep); !Contains(parts[|parts| - 1], sep)
  {
    SplitFromLastLacksSep(s, sep, 0);
  }

  lemma {:induction false} SplitFromLastLacksSep(s: string, sep: string, k: nat)
    requires sep != [] && k <= |s|
    ensures var parts := SplitFrom(s, sep, k); !Contains(parts[|parts| - 1], sep)
    decreases |s| - k
  {
    var i := IndexFrom(s, sep, k);
    if i < 0 {
      NotFoundFrom(s, sep, k);
    } else {
      SplitFromLastLacksSep(s, sep, i + |sep|);
      LastOfCons(s[k..i], SplitFrom(s, sep, i + |sep|), SplitFrom(s, sep, k));
    }
  }

  /** No occurrence from `k` on: the rest of the text does not contain the pattern. */
  lemma NotFoundFrom(s: string, pat: string, k: nat)
    requires k <= |s| && IndexFrom(s, pat, k) < 0
    ensures !Contains(s[k..], pat)
  {
    var t := IndexOf(s[k..], pat);
    if t >= 0 {
      assert s[k..][t..t + |pat|] == s[k + t..k + t + |pat|];
      assert OccursAt(s, pat, k + t);
    }
  }

  lemma LastOfCons<T>(x: T, xs: seq<T>, ys: seq<T>)
    requires xs != [] && ys == [x] + xs
    ensures ys[|ys| - 1] == xs[|xs| - 1]
  {
  }

  lemma InitLast<T>(p: seq<T>)
    requires p != []
    ensures p[..|p| - 1] + [p[|p| - 1]] == p
  {
  }

  /** Joining one more piece appends the separator and the piece. */
  lemma {:induction false} JoinSnoc(parts: seq<string>, x: string, sep: string)
    requires parts != []
    ensures Join(parts + [x], sep) == Join(parts, sep) + sep + x
    decreases |parts|
  {
    if |parts| == 1 {
      assert parts + [x] == [parts[0], x];
      assert Join([x], sep) == x;
    } else {
      assert (parts + [x])[1..] == parts[1..] + [x];
      JoinSnoc(parts[1..], x, sep);
    }
  }

  /** Everything before the last separator, the separator and the last piece make
      up the split text. */
  lemma SplitLastPiece(s: string, sep: string, parts: seq<string>)
    requires sep != [] && Contains(s, sep) && parts == Split(s, sep)
    ensures |parts| >= 2
    ensures Join(parts[..|parts| - 1], sep) + sep + parts[|parts| - 1] == s
    ensures !Contains(parts[|parts| - 1], sep)
  {
    var init := parts[..|parts| - 1];
    var last := parts[|parts| - 1];
    InitLast(parts);
    JoinSnoc(init, last, sep);
    JoinSplit(s, sep);
    SplitLastLacksSep(s, sep);
  }

  /** Length of the longest prefix of word characters (the span of `\w+`). */
  function WordSpan(s: string): (n: nat)
    ensures n <= |s|
    ensures forall i :: 0 <= i < n ==> IsWordChar(s[i])
    ensures n == |s| || !IsWordChar(s[n])
  {
    if s != [] && IsWordChar(s[0]) then 1 + WordSpan(s[1..]) else 0
  }

  lemma {:induction false} WordSpanAppend(a: string, b: string)
    requires forall i :: 0 <= i < |a| ==> IsWordChar(a[i])
    ensures WordSpan(a + b) == |a| + WordSpan(b)
    decreases |a|
  {
    if a == [] {
      assert a + b == b;
    } else {
      assert (a + b)[1..] == a[1..] + b;
      WordSpanAppend(a[1..], b);
    }
  }

  /** Appending a prefix whose characters all satisfy `p` lengthens the span by it. */
  lemma {:induction false} SpanAppend(a: string, b: string, p: char -> bool)
    requires forall i :: 0 <= i < |a| ==> p(a[i])
    ensures Span(a + b, p) == |a| + Span(b, p)
    decreases |a|
  {
    if a == [] {
      assert a + b == b;
    } else {
      assert (a + b)[1..] == a[1..] + b;
      SpanAppend(a[1..], b, p);
    }
  }

  /** Appending text that does not start with a `p` character leaves the span alone. */
  lemma {:induction false} SpanAppendStop(a: string, b: string, p: char -> bool)
    requires b == [] || !p(b[0])
    ensures Span(a + b, p) == Span(a, p)
    decreases |a|
  {
    if a == [] {
      assert a + b == b;
    } else {
      assert (a + b)[0] == a[0];
      if p(a[0]) {
        assert (a + b)[1..] == a[1..] + b;
        SpanAppendStop(a[1..], b, p);
      }
    }
  }

  /** From `k` up to `e` the text is free of the separator's first character, and
      at `e` the text ends or the separator occurs: the search from `k` stops at
      `e`. */
  lemma IndexFromFree(s: string, sep: string, k: nat, e: nat)
    requires sep != [] && k <= e <= |s|
    requires forall j :: k <= j < e ==> s[j] != sep[0]
    requires e == |s| || OccursAt(s, sep, e)
    ensures IndexFrom(s, sep, k) == (if e == |s| then -1 else e)
  {
    forall j | k <= j < e ensures !OccursAt(s, sep, j) {
      assert j + |sep| > |s| || s[j..j + |sep|][0] == s[j];
    }
  }

  /** A text starting at `k` with `p`, then `q`, then `rest`. */
  lemma Pieces3(s: string, k: nat, p: string, q: string, rest: string)
    requires k <= |s| && s[k..] == p + q + rest
    ensures k + |p| + |q| <= |s|
    ensures forall j :: k <= j < k + |p| ==> s[j] == p[j - k]
    ensures s[k + |p|..k + |p| + |q|] == q
    ensures s[k + |p| + |q|..] == rest
  {
    assert forall j :: k <= j < k + |p| ==> s[j] == s[k..][j - k];
    assert s[k + |p|..k + |p| + |q|] == s[k..][|p|..|p| + |q|];
    assert s[k + |p| + |q|..] == s[k..][|p| + |q|..];
  }

  /** No piece holds the character `c`. */
  predicate PiecesFree(parts: seq<string>, c: char) {
    forall i :: 0 <= i < |parts| ==> c !in parts[i]
  }

  /** Splitting a join of separator-free pieces gives the pieces back. */
  lemma SplitJoin(parts: seq<string>, sep: string)
    requires sep != [] && |parts| >= 1 && PiecesFree(parts, sep[0])
    ensures Split(Join(parts, sep), sep) == parts
  {
    var s := Join(parts, sep);
    assert s[0..] == s;
    SplitFromJoin(s, sep, 0, parts);
    assert SplitsInto(s, sep, 0, parts);
  }

  /** The split of `s` from `k` is `parts`. */
  predicate SplitsInto(s: string, sep: string, k: nat, parts: seq<string>)
    requires sep != [] && k <= |s|
  {
    SplitFrom(s, sep, k) == parts
  }

  lemma {:induction false} SplitFromJoin(s: string, sep: string, k: nat, parts: seq<string>)
    requires sep != [] && |parts| >= 1 && k <= |s| && s[k..] == Join(parts, sep)
    requires PiecesFree(parts, sep[0])
    ensures SplitsInto(s, sep, k, parts)
    decreases |parts|
  {
    if |parts| == 1 {
      JoinLast(s, sep, k, parts);
    } else {
      var e := k + |parts[0]|;
      var tail := parts[1..];
      PiecesFreeTail(parts, sep[0]);
      JoinFirst(s, sep, k, parts);
      var k' := e + |sep|;
      assert SplitsInto(s, sep, k', tail) by {
        SplitFromJoin(s, sep, k', tail);
      }
      SplitFromCons(s, sep, k, e, parts);
    }
  }

  /** A split whose first cut is at `e`, with the piece before it and the split of
      the rest as given. */
  lemma SplitFromCons(s: string, sep: string, k: nat, e: nat, parts: seq<string>)
    requires sep != [] && |parts| >= 2 && k <= e && e + |sep| <= |s|
    requires IndexFrom(s, sep, k) == e && s[k..e] == parts[0]
    requires SplitsInto(s, sep, e + |sep|, parts[1..])
    ensures SplitsInto(s, sep, k, parts)
  {
    SplitFromCut(s, sep, k);
    ConsEq(s[k..e], SplitFrom(s, sep, e + |sep|), parts);
  }

  lemma PiecesFreeTail(parts: seq<string>, c: char)
    requires parts != [] && PiecesFree(parts, c)
    ensures c !in parts[0] && PiecesFree(parts[1..], c)
  {
    assert forall i :: 0 <= i < |parts| - 1 ==> parts[1..][i] == parts[i + 1];
  }

  lemma ConsEq<T>(x: T, tail: seq<T>, xs: seq<T>)
    requires xs != [] && x == xs[0] && tail == xs[1..]
    ensures [x] + tail == xs
  {
  }

  /** The join of one separator-free piece holds no separator. */
  lemma JoinLast(s: string, sep: string, k: nat, parts: seq<string>)
    requires sep != [] && |parts| == 1 && k <= |s| && s[k..] == Join(parts, sep)
    requires sep[0] !in parts[0]
    ensures SplitsInto(s, sep, k, parts)
  {
    var p := parts[0];
    assert s[k..] == p + [] + [];
    Pieces3(s, k, p, [], []);
    IndexFromFree(s, sep, k, |s|);
    assert s[k..] == p;
  }

  /** The join of several separator-free pieces: the search stops after the first
      piece, and the rest is the join of the other pieces. */
  lemma JoinFirst(s: string, sep: string, k: nat, parts: seq<string>)
    requires sep != [] && |parts| >= 2 && k <= |s| && s[k..] == Join(parts, sep)
    requires sep[0] !in parts[0]
    ensures var e := k + |parts[0]|;
            e + |sep| <= |s| && IndexFrom(s, sep, k) == e && s[k..e] == parts[0]
            && s[e + |sep|..] == Join(parts[1..], sep)
  {
    var p := parts[0];
    var e := k + |p|;
    Pieces3(s, k, p, sep, Join(parts[1..], sep));
    IndexFromFree(s, sep, k, e);
    assert s[k..e] == p;
  }

  /** No piece of a split on a one-character separator contains that character. */
  lemma SplitPiecesLackSep(s: string, c: char)
    ensures forall p :: p in Split(s, [c]) ==> c !in p
  {
    SplitFromPiecesLack(s, c, 0);
  }

  lemma {:induction false} SplitFromPiecesLack(s: string, c: char, k: nat)
    requires k <= |s|
    ensures forall p :: p in SplitFrom(s, [c], k) ==> c !in p
    decreases |s| - k
  {
    var i := IndexFrom(s, [c], k);
    if i < 0 {
      PieceLacks(s, c, k, |s|);
      assert s[k..|s|] == s[k..];
    } else {
      SplitFromPiecesLack(s, c, i + 1);
      PieceLacks(s, c, k, i);
    }
  }

  /** A stretch with no occurrence of `[c]` holds no `c`. */
  lemma PieceLacks(s: string, c: char, k: nat, e: nat)
    requires k <= e <= |s|
    requires forall j :: k <= j < e ==> !OccursAt(s, [c], j)
    ensures c !in s[k..e]
  {
    if c in s[k..e] {
      var j :| 0 <= j < e - k && s[k..e][j] == c;
      assert s[k + j..k + j + 1] == [c];
      assert OccursAt(s, [c], k + j);
    }
  }

  function Concat(ss: seq<string>): string
  {
    if ss == [] then [] else ss[0] + Concat(ss[1..])
  }

  /** Python's `s.replace(pat, rep)`: every non-overlapping occurrence, left to
      right; an empty `pat` inserts `rep` around every character. */
  function ReplaceAll(s: string, pat: string, rep: string): string
    decreases |s|
  {
    if pat == [] then
      (if s == [] then rep else rep + [s[0]] + ReplaceAll(s[1..], pat, rep))
    else if |s| < |pat| then s
    else if s[..|pat|] == pat then rep + ReplaceAll(s[|pat|..], pat, rep)
    else [s[0]] + ReplaceAll(s[1..], pat, rep)
  }

  /** A text without the pattern is left as it is. */
  lemma {:induction false} ReplaceAllAbsent(s: string, pat: string, rep: string)
    requires pat != [] && !Contains(s, pat)
    ensures ReplaceAll(s, pat, rep) == s
    decreases |s|
  {
    if |s| >= |pat| {
      assert !OccursAt(s, pat, 0);
      var t := IndexOf(s[1..], pat);
      if t >= 0 {
        OccursAtTail(s, pat, t);
      }
      ReplaceAllAbsent(s[1..], pat, rep);
    }
  }

  /** Python's `s.replace(c, "")`. */
  function RemoveChar(s: string, c: char): (r: string)
    ensures c !in r
    ensures |r| <= |s|
    ensures forall x :: x in r ==> x in s
  {
    if s == [] then [] else (if s[0] == c then [] else [s[0]]) + RemoveChar(s[1..], c)
  }

  /** Python's `s.count(c)` for a single character. */
  function CountChar(s: string, c: char): nat
  {
    if s == [] then 0 else (if s[0] == c then 1 else 0) + CountChar(s[1..], c)
  }

  lemma {:induction false} CountCharAppend(a: string, b: string, c: char)
    ensures CountChar(a + b, c) == CountChar(a, c) + CountChar(b, c)
  {
    if a != [] {
      assert (a + b)[0] == a[0];
      assert (a + b)[1..] == a[1..] + b;
      CountCharAppend(a[1..], b, c);
    } else {
      assert a + b == b;
    }
  }

  lemma {:induction false} CountCharAbsent(s: string, c: char)
    requires c !in s
    ensures CountChar(s, c) == 0
  {
    if s != [] { CountCharAbsent(s[1..], c); }
  }

  /** `str * n`: `n` copies of one character, none when `n` is not positive. */
  function Repeat(c: char, n: int): (r: string)
    ensures |r| == if n > 0 then n else 0
    ensures forall i :: 0 <= i < |r| ==> r[i] == c
  {
    if n <= 0 then [] else [c] + Repeat(c, n - 1)
  }

  lemma {:induction false} CountRepeat(c: char, n: int)
    ensures CountChar(Repeat(c, n), c) == if n > 0 then n else 0
  {
    if n > 0 {
      assert Repeat(c, n)[1..] == Repeat(c, n - 1);
      CountRepeat(c, n - 1);
    }
  }

  /** `re.sub(P + "+", c, s)` for a one-character class `P`: every maximal run of
      characters satisfying `p` becomes the single character `c`. */
  function SubRuns(s: string, p: char -> bool, c: char): (r: string)
    ensures |r| <= |s|
    ensures r == [] <==> s == []
    ensures forall i :: 0 <= i < |r| ==> r[i] == c || (!p(r[i]) && r[i] in s)
    ensures p(c) ==> forall i :: 0 <= i < |r| - 1 ==> !(p(r[i]) && p(r[i + 1]))
    ensures r != [] ==> r[0] == (if p(s[0]) then c else s[0])
    ensures r != [] ==> r[|r| - 1] == (if p(s[|s| - 1]) then c else s[|s| - 1])
    decreases |s|
  {
    if s == [] then []
    else if p(s[0]) then
      var n := Span(s, p);
      var rest := SubRuns(s[n..], p, c);
      assert forall x :: x in s[n..] ==> x in s;
      assert rest != [] ==> !p(rest[0]);
      [c] + rest
    else
      var rest := SubRuns(s[1..], p, c);
      assert forall x :: x in s[1..] ==> x in s;
      [s[0]] + rest
  }

  /** A text whose `p`-characters are all `c` and never adjacent is left as it is. */
  lemma {:induction false} SubRunsIdentity(s: string, p: char -> bool, c: char)
    requires forall i :: 0 <= i < |s| && p(s[i]) ==> s[i] == c
    requires forall i :: 0 <= i < |s| - 1 ==> !(p(s[i]) && p(s[i + 1]))
    ensures SubRuns(s, p, c) == s
    decreases |s|
  {
    if s != [] {
      if p(s[0]) {
        if |s| > 1 {
          assert !p(s[1]);
          assert Span(s[1..], p) == 0;
        }
        assert Span(s, p) == 1;
        SubRunsIdentity(s[1..], p, c);
      } else {
        SubRunsIdentity(s[1..], p, c);
      }
    }
  }

  /** `re.sub(r"\s+", " ", s)`: every run of whitespace becomes one space. */
  function CollapseWhitespace(s: string): (r: string)
    ensures forall i :: 0 <= i < |r| && IsSpace(r[i]) ==> r[i] == ' '
    ensures forall i :: 0 <= i < |r| - 1 ==> !(IsSpace(r[i]) && IsSpace(r[i + 1]))
    ensures |r| <= |s|
    ensures r == [] <==> s == []
    ensures r != [] ==> (IsSpace(r[0]) <==> IsSpace(s[0]))
    ensures r != [] ==> (IsSpace(r[|r| - 1]) <==> IsSpace(s[|s| - 1]))
  {
    SubRuns(s, IsSpace, ' ')
  }

  /** Collapsing whitespace brings in no character other than a space. */
  lemma CollapseWhitespaceLacks(s: string, c: char)
    requires c !in s && !IsSpace(c)
    ensures c !in CollapseWhitespace(s)
  {
    var r := CollapseWhitespace(s);
    forall i | 0 <= i < |r| ensures r[i] != c {
    }
  }

  // ---------------------------------------------------------------------
  // Decimal numerals: `str(n)` and its inverse
  // ---------------------------------------------------------------------

  function DigitChar(d: nat): (c: char)
    requires d < 10
    ensures IsDigit(c)
  {
    ('0' as int + d) as char
  }

  /** `str(n)` for a natural number. */
  function NatToString(n: nat): (r: string)
    ensures |r| >= 1
    ensures forall i :: 0 <= i < |r| ==> IsDigit(r[i])
    ensures |r| == 1 <==> n < 10
  {
    if n < 10 then [DigitChar(n)] else NatToString(n / 10) + [DigitChar(n % 10)]
  }

  /** `str(i)` for any integer. */
  function IntToString(i: int): string
  {
    if i < 0 then "-" + NatToString(-i) else NatToString(i)
  }

  /** The value of a string of decimal digits. */
  function ParseNat(s: string): nat
    requires forall i :: 0 <= i < |s| ==> IsDigit(s[i])
  {
    if s == [] then 0
    else
      assert IsDigit(s[|s| - 1]);
      10 * ParseNat(s[..|s| - 1]) + (s[|s| - 1] as int - '0' as int)
  }

  lemma {:induction false} ParseNatToString(n: nat)
    ensures ParseNat(NatToString(n)) == n
  {
    if n >= 10 {
      var s := NatToString(n);
      assert s[..|s| - 1] == NatToString(n / 10);
      ParseNatToString(n / 10);
    }
  }

  /** Different numbers print differently. */
  lemma NatToStringInjective(a: nat, b: nat)
    requires NatToString(a) == NatToString(b)
    ensures a == b
  {
    ParseNatToString(a);
    ParseNatToString(b);
  }

  // ---------------------------------------------------------------------
  // Words: the maximal runs of word characters
  // ---------------------------------------------------------------------

  /** The maximal runs of word characters of `s`, in order. With a key made of word
      characters, `\bkey\b` matches exactly where one of these runs equals the key. */
  function Words(s: string): (ws: seq<string>)
    ensures forall w :: w in ws ==> w != []
    decreases |s|
  {
    if s == [] then []
    else if IsWordChar(s[0]) then
      var n := Span(s, IsWordChar);
      [s[..n]] + Words(s[n..])
    else Words(s[1..])
  }

  predicate AllWordChars(s: string) {
    forall i :: 0 <= i < |s| ==> IsWordChar(s[i])
  }

  lemma WordsOfWord(s: string)
    requires s != [] && AllWordChars(s)
    ensures Words(s) == [s]
  {
    var n := Span(s, IsWordChar);
    assert n == |s|;
    assert s[..n] == s;
    assert s[n..] == [];
  }

  /** Words of a concatenation split at a non-word boundary. */
  lemma {:induction false} WordsAppend(a: string, b: string)
    requires a == [] || b == [] || !IsWordChar(a[|a| - 1]) || !IsWordChar(b[0])
    ensures Words(a + b) == Words(a) + Words(b)
    decreases |a|
  {
    if a == [] {
      assert a + b == b;
    } else if b == [] {
      assert a + b == a;
    } else if !IsWordChar(a[0]) {
      assert (a + b)[1..] == a[1..] + b;
      WordsAppend(a[1..], b);
    } else {
      var n := Span(a, IsWordChar);
      var m := Span(a + b, IsWordChar);
      if n < |a| {
        assert (a + b)[n] == a[n];
        assert forall i :: 0 <= i < n ==> (a + b)[i] == a[i];
        assert m == n;
        assert (a + b)[..m] == a[..n];
        assert (a + b)[m..] == a[n..] + b;
        WordsAppend(a[n..], b);
      } else {
        // `a` is one word, so it ends with a word character and `b` cannot start with one
        assert IsWordChar(a[|a| - 1]);
        assert !IsWordChar(b[0]);
        assert (a + b)[|a|] == b[0];
        assert forall i :: 0 <= i < |a| ==> (a + b)[i] == a[i];
        assert m == |a|;
        assert (a + b)[..m] == a;
        assert (a + b)[m..] == b;
        assert a[..n] == a && a[n..] == [];
        assert Words(a) == [a];
        assert Words(a + b) == [a] + Words(b);
      }
    }
  }

  /** The word runs of a text without any word character: none. */
  lemma WordsOfSingleNonWord(c: char)
    requires !IsWordChar(c)
    ensures Words([c]) == []
  {
    assert [c][1..] == [];
  }
}
