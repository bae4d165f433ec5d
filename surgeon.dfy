/** The small helpers of the driver: the duration text, the progress bar and the
    extension-based file typing. */
module Surgeon {
  import opened Text

  // ---------------------------------------------------------------------
  // format_time
  // ---------------------------------------------------------------------

  /** `format_time`: `Ns` below a minute, `MmSs` below an hour, `HhMm` from an
      hour on (the seconds are dropped). Python's `divmod` on a non-negative number
      is Dafny's `/` and `%`. */
  function FormatTime(seconds: int): string {
    if seconds < 60 then IntToString(seconds) + "s"
    else if seconds < 3600 then NatToString(seconds / 60) + ("m" + (NatToString(seconds % 60) + "s"))
    else NatToString(seconds / 3600) + ("h" + (NatToString(seconds % 3600 / 60) + "m"))
  }

  /** The leading number of the text: seconds, minutes or hours. */
  function Lead(seconds: nat): nat {
    if seconds < 60 then seconds else if seconds < 3600 then seconds / 60 else seconds / 3600
  }

  /** The unit letter after the leading number. */
  function Unit(seconds: nat): char {
    if seconds < 60 then 's' else if seconds < 3600 then 'm' else 'h'
  }

  /** What follows the unit letter: nothing, the seconds or the minutes. */
  function Rest(seconds: nat): string {
    if seconds < 60 then [] else if seconds < 3600 then NatToString(seconds % 60) + "s"
    else NatToString(seconds % 3600 / 60) + "m"
  }

  /** The text is a numeral, a unit letter and the rest. */
  lemma FormatTimeParts(seconds: nat)
    ensures FormatTime(seconds) == NatToString(Lead(seconds)) + ([Unit(seconds)] + Rest(seconds))
  {
    if seconds < 60 {
      assert "s" == ['s'] + [];
    }
  }

  predicate Digits(d: string) {
    d != [] && forall i :: 0 <= i < |d| ==> IsDigit(d[i])
  }

  /** A run of digits followed by a non-digit splits only one way. */
  lemma DigitsSplitUnique(d1: string, r1: string, d2: string, r2: string)
    requires Digits(d1) && Digits(d2) && r1 != [] && r2 != []
    requires !IsDigit(r1[0]) && !IsDigit(r2[0])
    requires d1 + r1 == d2 + r2
    ensures d1 == d2 && r1 == r2
  {
    var t := d1 + r1;
    assert t[|d1|] == r1[0];
    assert t[|d2|] == r2[0];
    assert |d1| == |d2|;
    assert d1 == t[..|d1|] && r1 == t[|d1|..];
    assert d2 == t[..|d2|] && r2 == t[|d2|..];
  }

  /** A numeral followed by a unit letter is read back uniquely. */
  lemma NumeralUnitUnique(n1: nat, r1: string, n2: nat, r2: string)
    requires r1 != [] && r2 != [] && !IsDigit(r1[0]) && !IsDigit(r2[0])
    requires NatToString(n1) + r1 == NatToString(n2) + r2
    ensures n1 == n2 && r1 == r2
  {
    DigitsSplitUnique(NatToString(n1), r1, NatToString(n2), r2);
    NatToStringInjective(n1, n2);
  }

  /** Equal texts have equal parts. */
  lemma SameTextSameParts(a: nat, b: nat)
    requires FormatTime(a) == FormatTime(b)
    ensures Lead(a) == Lead(b) && Unit(a) == Unit(b) && Rest(a) == Rest(b)
  {
    FormatTimeParts(a);
    FormatTimeParts(b);
    NumeralUnitUnique(Lead(a), [Unit(a)] + Rest(a), Lead(b), [Unit(b)] + Rest(b));
    assert ([Unit(a)] + Rest(a))[1..] == Rest(a);
    assert ([Unit(b)] + Rest(b))[1..] == Rest(b);
  }

  /** The number in the rest of the text. */
  lemma RestNumber(a: nat, b: nat, u: char)
    requires !IsDigit(u)
    requires NatToString(a) + [u] == NatToString(b) + [u]
    ensures a == b
  {
    NumeralUnitUnique(a, [u], b, [u]);
  }

  /** Hours and minutes are the whole minutes split by 60. */
  lemma MinuteParts(s: nat)
    ensures s / 3600 == s / 60 / 60 && s % 3600 / 60 == s / 60 % 60
  {
    var m, y := s / 60, s % 60;
    var h, x := m / 60, m % 60;
    assert s == 3600 * h + (60 * x + y);
    assert s / 3600 == h && s % 3600 == 60 * x + y;
    assert (60 * x + y) / 60 == x;
  }

  /** Below an hour different durations print differently; from an hour on two
      durations print the same exactly when they agree to the minute. */
  lemma FormatTimeSame(a: nat, b: nat)
    ensures FormatTime(a) == FormatTime(b) <==>
            if a < 3600 || b < 3600 then a == b else a / 60 == b / 60
  {
    MinuteParts(a);
    MinuteParts(b);
    if FormatTime(a) == FormatTime(b) {
      SameTextSameParts(a, b);
      if 60 <= a < 3600 && 60 <= b < 3600 {
        RestNumber(a % 60, b % 60, 's');
      } else if a >= 3600 && b >= 3600 {
        RestNumber(a % 3600 / 60, b % 3600 / 60, 'm');
      }
    }
  }

  // ---------------------------------------------------------------------
  // draw_progress_bar
  // ---------------------------------------------------------------------

  /** `int(a / b)`: the quotient truncated toward zero (the float division is taken
      as exact). */
  function TruncDiv(a: int, b: int): int
    requires b != 0
  {
    if (a >= 0) == (b > 0) then Abs(a) / Abs(b) else -(Abs(a) / Abs(b))
  }

  function Abs(a: int): nat { if a < 0 then -a else a }

  /** The number of filled cells. */
  function Filled(current: int, total: int, width: int): int
    requires total != 0
  {
    TruncDiv(current * width, total)
  }

  /** `draw_progress_bar`: `width` empty cells when `total` is 0; otherwise the
      filled cells followed by the rest of the width in empty cells (a negative
      count repeats nothing). */
  function DrawProgressBar(current: int, total: int, width: int): string {
    if total == 0 then Repeat('░', width)
    else
      var filled := Filled(current, total, width);
      Repeat('█', filled) + Repeat('░', width - filled)
  }

  /** With nothing to count the bar is `width` empty cells. */
  lemma ProgressBarNoTotal(current: int, width: nat)
    ensures var r := DrawProgressBar(current, 0, width);
            |r| == width && forall i :: 0 <= i < |r| ==> r[i] == '░'
  {
  }

  /** For progress between 0 and the total the bar is exactly `width` long: the
      largest `f` with `f * total <= current * width` cells filled, then empty ones. */
  lemma ProgressBarShape(current: int, total: int, width: int)
    requires 0 <= current <= total && total > 0 && width >= 0
    ensures var r := DrawProgressBar(current, total, width);
            var f := Filled(current, total, width);
            0 <= f <= width && f * total <= current * width < f * total + total &&
            |r| == width &&
            (forall i :: 0 <= i < f ==> r[i] == '█') &&
            (forall i :: f <= i < width ==> r[i] == '░')
  {
    var f := Filled(current, total, width);
    FilledBounds(current, total, width);
    BarCells(f, width);
  }

  /** The filled count is the floor of `current * width / total`, within the width. */
  lemma FilledBounds(current: int, total: int, width: int)
    requires 0 <= current <= total && total > 0 && width >= 0
    ensures var f := Filled(current, total, width);
            0 <= f <= width && f * total <= current * width < f * total + total
  {
    var p := current * width;
    assert p >= 0 by { MulNonNeg(current, width); }
    assert Filled(current, total, width) == p / total;
    DivBounds(p, total);
    assert p <= total * width by { MulMono(current, total, width); }
    DivAtMost(p, total, width);
  }

  /** `f` full cells and then empty ones up to the width. */
  lemma BarCells(f: int, width: int)
    requires 0 <= f <= width
    ensures var r := Repeat('█', f) + Repeat('░', width - f);
            |r| == width &&
            (forall i :: 0 <= i < f ==> r[i] == '█') &&
            (forall i :: f <= i < width ==> r[i] == '░')
  {
    var a, b := Repeat('█', f), Repeat('░', width - f);
    assert forall i :: f <= i < width ==> (a + b)[i] == b[i - f];
  }

  lemma MulNonNeg(a: int, b: int)
    requires a >= 0 && b >= 0
    ensures a * b >= 0
  {
  }

  lemma MulMono(a: int, b: int, w: int)
    requires 0 <= a <= b && w >= 0
    ensures a * w <= b * w
  {
  }

  /** Floor division brackets its numerator. */
  lemma DivBounds(p: int, t: int)
    requires p >= 0 && t > 0
    ensures (p / t) * t <= p < (p / t) * t + t
  {
  }

  lemma DivAtMost(p: int, t: int, w: int)
    requires 0 <= p <= t * w && t > 0
    ensures p / t <= w
  {
    DivBounds(p, t);
    MulCancel(p / t, w, t);
  }

  /** Multiplying by a positive number keeps the order. */
  lemma MulCancel(a: int, b: int, t: int)
    requires t > 0
    ensures a * t <= b * t ==> a <= b
  {
    if a > b {
      assert (a - b) * t > 0;
    }
  }

  /** More progress never fills fewer cells. */
  lemma ProgressBarMonotone(c1: int, c2: int, total: int, width: int)
    requires 0 <= c1 <= c2 && total > 0 && width >= 0
    ensures Filled(c1, total, width) <= Filled(c2, total, width)
  {
    MulMono(c1, c2, width);
    MulNonNeg(c1, width);
    DivMono(c1 * width, c2 * width, total);
  }

  lemma DivMono(p: int, q: int, t: int)
    requires 0 <= p <= q && t > 0
    ensures p / t <= q / t
  {
    DivBounds(p, t);
    DivBounds(q, t);
    MulCancel(p / t, q / t, t);
    MulCancel(p / t, q / t + 1, t);
  }

  // ---------------------------------------------------------------------
  // get_file_type
  // ---------------------------------------------------------------------

  datatype FileType = Archive | Elf | Unknown

  /** `EXTENSION_MAP.get(ext)`. */
  function ExtensionType(ext: string): Option<FileType> {
    match ext
      case ".a" => Some(Archive)
      case ".lib" => Some(Archive)
      case ".so" => Some(Elf)
      case ".elf" => Some(Elf)
      case ".axf" => Some(Elf)
      case ".out" => Some(Elf)
      case ".o" => Some(Elf)
      case _ => None
  }

  /** `s.rfind(c)`: the last index holding `c`, or -1. */
  function LastIndexOfChar(s: string, c: char): (r: int)
    ensures -1 <= r < |s|
    ensures r >= 0 ==> s[r] == c
    ensures forall j :: r < j < |s| ==> s[j] != c
    decreases |s|
  {
    if s == [] then -1
    else if s[|s| - 1] == c then |s| - 1
    else LastIndexOfChar(s[..|s| - 1], c)
  }

  /** `os.path.basename`: the text after the last `/`. */
  function Basename(p: string): string {
    p[LastIndexOfChar(p, '/') + 1..]
  }

  /** The extension `os.path.splitext` gives: from the last `.` on, provided some
      character before that dot is not a dot (leading dots do not start an
      extension); otherwise empty. */
  function SplitExt(b: string): string {
    var d := LastIndexOfChar(b, '.');
    if d > 0 && exists i :: 0 <= i < d && b[i] != '.' then b[d..] else []
  }

  /** `get_file_type`: a base name holding `.so.` is ELF; otherwise the lower-cased
      extension is looked up in the table, and anything else is unknown. */
  function GetFileType(path: string): FileType {
    var b := Basename(path);
    if Contains(b, ".so.") then Elf
    else match ExtensionType(ToLower(SplitExt(b))) case Some(t) => t case None => Unknown
  }

  /** A directory part (empty or ending in `/`) followed by a name without `/`:
      the base name is the name. */
  lemma BasenameOf(dir: string, name: string)
    requires dir == [] || dir[|dir| - 1] == '/'
    requires '/' !in name
    ensures Basename(dir + name) == name
  {
    LastIndexAfter(dir, name, '/');
    assert (dir + name)[|dir|..] == name;
  }

  /** Appending text without `c` does not move the last `c`. */
  lemma {:induction false} LastIndexAfter(a: string, b: string, c: char)
    requires c !in b
    ensures LastIndexOfChar(a + b, c) == LastIndexOfChar(a, c)
    decreases |b|
  {
    if b == [] {
      assert a + b == a;
    } else {
      var ab := a + b;
      assert ab[..|ab| - 1] == a + b[..|b| - 1];
      assert ab[|ab| - 1] == b[|b| - 1];
      LastIndexAfter(a, b[..|b| - 1], c);
    }
  }

  /** A versioned shared object (`libfoo.so.1.2.3`) in any directory is ELF. */
  lemma VersionedSharedObject(dir: string, stem: string, version: string)
    requires dir == [] || dir[|dir| - 1] == '/'
    requires '/' !in stem && '/' !in version
    ensures GetFileType(dir + (stem + ".so." + version)) == Elf
  {
    var name := stem + ".so." + version;
    BasenameOf(dir, name);
    assert name[|stem|..|stem| + 4] == ".so.";
    assert OccursAt(name, ".so.", |stem|);
  }

  /** Away from `.so.`, a name `stem.ext` whose stem holds a character other than
      a dot, and no further dot, has the type its lower-cased extension has in the
      table, or unknown. */
  lemma ExtensionDecides(dir: string, stem: string, ext: string)
    requires dir == [] || dir[|dir| - 1] == '/'
    requires '/' !in stem && '/' !in ext && '.' !in ext
    requires exists i :: 0 <= i < |stem| && stem[i] != '.'
    requires !Contains(stem + "." + ext, ".so.")
    ensures GetFileType(dir + (stem + "." + ext)) ==
            match ExtensionType(ToLower("." + ext)) case Some(t) => t case None => Unknown
  {
    BasenameOf(dir, stem + "." + ext);
    SplitExtOf(stem, ext);
  }

  /** The extension of `stem.ext` is `.ext` when `ext` has no dot and the stem has
      a character other than a dot. */
  lemma SplitExtOf(stem: string, ext: string)
    requires '.' !in ext
    requires exists i :: 0 <= i < |stem| && stem[i] != '.'
    ensures SplitExt(stem + "." + ext) == "." + ext
  {
    var name := stem + "." + ext;
    LastIndexAfter(stem + ".", ext, '.');
    assert (stem + ".")[|stem|] == '.';
    assert name[|stem|..] == "." + ext;
    var i :| 0 <= i < |stem| && stem[i] != '.';
    assert name[i] == stem[i];
  }
}
