/** `TimeParser`: durations typed by the user (`30`, `90m`, `1h`, `1.5h`,
    `2,5h`) read as minutes, and minutes written back as `Nm`, `Hh` or
    `HhMm`.

    Kotlin's `Int` is 32 bits wide.  `String.toInt()` throws on a value above
    `Int.MAX_VALUE`, which sends the parser to its catch-all fallback;
    `hours * 60` wraps around silently; `Double.toInt()` saturates.  All
    three are written out here.  The decimal-hours branch multiplies a
    `Double` by 60; the model computes the exact rational product and takes
    its floor instead (see the README). */
module TimeParser {
  import opened Wrappers
  import opened Text
  import Patterns

  const MaxInt: int := 2147483647
  const MinInt: int := -2147483648

  /** A value of Kotlin's `Int`. */
  predicate IsInt(x: int) { MinInt <= x <= MaxInt }

  // ---------------------------------------------------------------------
  // Integer conversions

  /** `String.toInt()` (or `toIntOrNull()`) on a string of ASCII digits:
      `None` when the value does not fit in an `Int`. */
  function ToInt(d: string): (r: Option<int>)
    requires AllDigits(d)
    ensures r.Some? <==> DigitsValue(d) <= MaxInt
    ensures r.Some? ==> r.value == DigitsValue(d) && IsInt(r.value)
  {
    if DigitsValue(d) <= MaxInt then Some(DigitsValue(d)) else None
  }

  /** The 32-bit two's-complement result of an `Int` computation whose exact
      value is `x`. */
  function Wrap32(x: int): (r: int)
    ensures IsInt(r)
    ensures (x - r) % 0x1_0000_0000 == 0
    ensures IsInt(x) ==> r == x
  {
    (x - MinInt) % 0x1_0000_0000 + MinInt
  }

  /** `Double.toInt()` for a non-negative exact value: rounds toward zero and
      saturates at `Int.MAX_VALUE`. */
  function SaturatingFloor(num: nat, den: nat): (r: int)
    requires den > 0
    ensures IsInt(r) && 0 <= r
    ensures r < MaxInt ==> r * den <= num < (r + 1) * den
    ensures r == MaxInt ==> MaxInt * den <= num
  {
    var q := num / den;
    if q >= MaxInt then
      DivAbove(num, den, q);
      MaxInt
    else
      DivBounds(num, den, q);
      q
  }

  /** The quotient brackets the dividend. */
  lemma DivBounds(num: nat, den: nat, q: int)
    requires den > 0 && q == num / den
    ensures q * den <= num < (q + 1) * den
  {
    var m := num % den;
    assert num == q * den + m && 0 <= m < den;
    assert (q + 1) * den == q * den + den;
  }

  /** A quotient of at least `MaxInt` means a dividend of at least
      `MaxInt` times the divisor. */
  lemma DivAbove(num: nat, den: nat, q: int)
    requires den > 0 && q == num / den && q >= MaxInt
    ensures MaxInt * den <= num
  {
    DivBounds(num, den, q);
    assert q * den == MaxInt * den + (q - MaxInt) * den;
  }

  // ---------------------------------------------------------------------
  // The first run of digits: `Regex("(\\d+)").find(s)`

  /** The first position at or after `i` that holds a digit. */
  function FirstDigit(s: string, i: nat): (r: Option<nat>)
    requires i <= |s|
    ensures r.Some? ==> i <= r.value < |s| && IsDigit(s[r.value])
    ensures r.Some? ==> forall k :: i <= k < r.value ==> !IsDigit(s[k])
    ensures r.None? ==> forall k :: i <= k < |s| ==> !IsDigit(s[k])
    decreases |s| - i
  {
    if i == |s| then None
    else if IsDigit(s[i]) then Some(i)
    else FirstDigit(s, i + 1)
  }

  /** The text of the first maximal run of digits in `s`. */
  function FirstRun(s: string): (r: Option<string>)
    ensures r.Some? ==> IsDigitString(r.value)
  {
    match FirstDigit(s, 0)
    case None => None
    case Some(a) =>
      var e := Patterns.RunEnd(Patterns.Digit, s, a);
      assert forall k :: 0 <= k < e - a ==> s[a..e][k] == s[a + k];
      Some(s[a..e])
  }

  /** `Regex("(\\d+)").find(s)?.groupValues?.get(1)?.toIntOrNull()` */
  function FirstNumber(s: string): (r: Option<int>)
    ensures r.Some? ==> 0 <= r.value <= MaxInt
  {
    match FirstRun(s)
    case None => None
    case Some(d) => ToInt(d)
  }

  /** The regex `(\d+)` as a pattern with one group. */
  const DigitRun: Patterns.Grouped := Patterns.Grouped([], [Patterns.Plus(Patterns.Digit)], [])

  // ---------------------------------------------------------------------
  // Parsing

  predicate EndsWith(s: string, c: char) {
    |s| > 0 && s[|s| - 1] == c
  }

  /** `num` matches `^\d+<sep>\d+$`: the whole and the fractional digits. */
  function DecimalParts(num: string, sep: char): (r: Option<(string, string)>)
    requires !IsDigit(sep)
    ensures r.Some? ==> IsDigitString(r.value.0) && IsDigitString(r.value.1)
    ensures r.Some? ==> num == r.value.0 + [sep] + r.value.1
  {
    match IndexFrom(num, [sep], 0)
    case None => None
    case Some(k) =>
      OccursAtPointwise(num, [sep], k);
      if IsDigitString(num[..k]) && IsDigitString(num[k + 1..]) then
        assert num == num[..k] + [sep] + num[k + 1..];
        Some((num[..k], num[k + 1..]))
      else None
  }

  /** `(w.f.toDouble() * 60).toInt()`, computed exactly: the floor of
      `60 * (w + f / 10^|f|)`, saturated. */
  function DecimalMinutes(w: string, f: string): (r: int)
    requires IsDigitString(w) && IsDigitString(f)
    ensures IsInt(r) && 0 <= r
  {
    var scale := Pow10(|f|);
    SaturatingFloor((DigitsValue(w) * scale + DigitsValue(f)) * 60, scale)
  }

  /** The parse of the text before a trailing `h`. */
  function HoursBranch(num: string, c: string): (r: Option<int>)
    ensures r.Some? ==> IsInt(r.value)
  {
    if IsDigitString(num) then
      match ToInt(num)
      case None => FirstNumber(c)              // toInt threw: the catch block
      case Some(h) => Some(Wrap32(h * 60))
    else match DecimalParts(num, '.')
      case Some((w, f)) => Some(DecimalMinutes(w, f))
      case None =>
        match DecimalParts(num, ',')
        case Some((w, f)) => Some(DecimalMinutes(w, f))
        case None => FirstNumber(c)
  }

  /** The parse of an input that has already been trimmed and lower-cased. */
  function ParseClean(c: string): (r: Option<int>)
    ensures r.Some? ==> IsInt(r.value)
  {
    if EndsWith(c, 'm') then
      var num := c[..|c| - 1];
      if IsDigitString(num) then
        match ToInt(num)
        case None => FirstNumber(c)            // toInt threw: the catch block
        case Some(v) => Some(v)
      else FirstNumber(c)
    else if EndsWith(c, 'h') then
      HoursBranch(c[..|c| - 1], c)
    else if IsDigitString(c) then
      match ToInt(c)
      case None => FirstNumber(c)
      case Some(v) => Some(v)
    else FirstNumber(c)
  }

  /** `TimeParser.parseToMinutes`: `None` for null. */
  function ParseToMinutes(input: string): (r: Option<int>)
    ensures IsBlank(input) ==> r.None?
    ensures r.Some? ==> IsInt(r.value)
  {
    if IsBlank(input) then None else ParseClean(Lower(Trim(input)))
  }

  // ---------------------------------------------------------------------
  // Formatting

  /** `TimeParser.formatMinutes` */
  function FormatMinutes(minutes: int): (r: string)
    ensures EndsWith(r, 'm') || EndsWith(r, 'h')
    ensures EndsWith(r, 'h') <==> minutes >= 60 && minutes % 60 == 0
  {
    if minutes < 60 then IntToString(minutes) + "m"
    else if minutes % 60 == 0 then IntToString(minutes / 60) + "h"
    else IntToString(minutes / 60) + "h" + IntToString(minutes % 60) + "m"
  }

  /** `TimeParser.validateAndFormat`: the formatted duration of a positive
      parse, else `None`. */
  function ValidateAndFormat(input: string): (r: Option<string>)
    ensures r.Some? <==> ParseToMinutes(input).Some? && ParseToMinutes(input).value > 0
    ensures r.Some? ==> r.value == FormatMinutes(ParseToMinutes(input).value)
  {
    match ParseToMinutes(input)
    case Some(m) => if m > 0 then Some(FormatMinutes(m)) else None
    case None => None
  }

  /** `TimeParser.isValid` */
  predicate IsValid(input: string)
    ensures IsValid(input) ==> exists i :: 0 <= i < |input| && IsDigit(input[i])
  {
    DigitNeeded(input);
    ParseToMinutes(input).Some?
  }

  /** `ParseNeedsDigit` for any input. */
  lemma DigitNeeded(s: string)
    ensures ParseToMinutes(s).Some? ==> exists i :: 0 <= i < |s| && IsDigit(s[i])
  {
    if forall i :: 0 <= i < |s| ==> !IsDigit(s[i]) {
      ParseNeedsDigit(s);
    }
  }

  /** A strict reader of the three shapes `FormatMinutes` writes (`Nm`,
      `Hh`, `HhMm`), independent of `ParseToMinutes`. */
  function ReadDuration(s: string): (r: Option<nat>)
    ensures r.Some? ==> EndsWith(s, 'm') || EndsWith(s, 'h')
  {
    if EndsWith(s, 'm') then
      var body := s[..|s| - 1];
      if IsDigitString(body) then Some(DigitsValue(body))
      else match DecimalParts(body, 'h')
        case Some((h, m)) => Some(DigitsValue(h) * 60 + DigitsValue(m))
        case None => None
    else if EndsWith(s, 'h') && IsDigitString(s[..|s| - 1]) then
      Some(DigitsValue(s[..|s| - 1]) * 60)
    else None
  }

  // ---------------------------------------------------------------------
  // The first run of digits is the regex's group

  lemma {:induction false} FindDigitRunFrom(s: string, i: nat)
    requires i <= |s|
    ensures Patterns.FindFrom([Patterns.Plus(Patterns.Digit)], s, i) ==
      match FirstDigit(s, i)
      case None => None
      case Some(a) => Some((a, Patterns.RunEnd(Patterns.Digit, s, a)))
    decreases |s| - i
  {
    var p := [Patterns.Plus(Patterns.Digit)];
    assert p[1..] == [];
    if i < |s| && !IsDigit(s[i]) {
      FindDigitRunFrom(s, i + 1);
    }
  }

  /** `FirstRun` is what `Regex("(\\d+)").find(s)?.groupValues?.get(1)`
      reports. */
  lemma FirstRunIsRegexGroup(s: string)
    ensures FirstRun(s) == Patterns.FindGroup(DigitRun, s)
  {
    assert DigitRun.Whole() == [Patterns.Plus(Patterns.Digit)];
    FindDigitRunFrom(s, 0);
    match FirstDigit(s, 0)
    case None =>
    case Some(a) =>
      var e := Patterns.RunEnd(Patterns.Digit, s, a);
      assert DigitRun.grp[1..] == [];
      assert Patterns.ScanGroup(DigitRun, s, a) == Some((a, e, e));
  }

  /** The first run of `pre + d + post` is `d` when `pre` has no digit and
      `post` does not start with one. */
  lemma FirstRunOf(pre: string, d: string, post: string)
    requires forall k :: 0 <= k < |pre| ==> !IsDigit(pre[k])
    requires IsDigitString(d) && (|post| == 0 || !IsDigit(post[0]))
    ensures FirstRun(pre + d + post) == Some(d)
  {
    var s := pre + d + post;
    assert forall k :: 0 <= k < |pre| ==> s[k] == pre[k];
    assert forall k :: 0 <= k < |d| ==> s[|pre| + k] == d[k];
    assert |post| > 0 ==> s[|pre| + |d|] == post[0];
    assert s[|pre| + 0] == d[0] && IsDigit(d[0]);
    assert FirstDigit(s, 0) == Some(|pre|);
    var e := Patterns.RunEnd(Patterns.Digit, s, |pre|);
    assert e == |pre| + |d|;
    assert s[|pre|..e] == d;
  }

  // ---------------------------------------------------------------------
  // Parsing: the documented forms

  /** Only the trimmed, lower-cased input matters. */
  lemma ParseNormalized(s: string)
    ensures ParseToMinutes(s) == ParseToMinutes(Lower(Trim(s)))
  {
    LowerTrimTwice(s);
  }

  /** An input already trimmed and free of upper-case letters is parsed as
      it is. */
  lemma ParseCleanInput(c: string)
    requires |c| > 0 && !IsWhitespace(c[0]) && !IsWhitespace(c[|c| - 1])
    requires forall i :: 0 <= i < |c| ==> !IsUpper(c[i])
    ensures ParseToMinutes(c) == ParseClean(c)
  {
    TrimFixed(c);
    LowerFixed(c);
  }

  /** Digits alone are minutes; a value too large for an `Int` gives `None`
      (the fallback finds the same digits and `toIntOrNull` fails too). */
  lemma ParseDigits(d: string)
    requires IsDigitString(d)
    ensures ParseToMinutes(d) == ToInt(d)
  {
    ParseCleanInput(d);
    FirstRunOf("", d, "");
    assert "" + d + "" == d;
  }

  /** `Nm` is `N` minutes. */
  lemma ParseMinutesSuffix(d: string)
    requires IsDigitString(d)
    ensures ParseToMinutes(d + "m") == ToInt(d)
  {
    var c := d + "m";
    ParseCleanInput(c);
    assert c[..|c| - 1] == d;
    FirstRunOf("", d, "m");
    assert "" + d + "m" == c;
  }

  /** `Nh` is `60 * N` minutes, wrapped around to 32 bits. */
  lemma ParseHoursSuffix(d: string)
    requires IsDigitString(d)
    ensures ParseToMinutes(d + "h") ==
      if DigitsValue(d) <= MaxInt then Some(Wrap32(DigitsValue(d) * 60)) else None
  {
    var c := d + "h";
    ParseCleanInput(c);
    assert c[..|c| - 1] == d;
    assert ParseClean(c) == HoursBranch(d, c);
    FirstRunOf("", d, "h");
    assert "" + d + "h" == c;
    assert FirstNumber(c) == ToInt(d);
  }

  /** The only separator in `w + [sep] + f` is the one after `w`. */
  lemma DecimalPartsOf(w: string, sep: char, f: string, other: char)
    requires IsDigitString(w) && IsDigitString(f) && !IsDigit(sep) && !IsDigit(other) && other != sep
    ensures DecimalParts(w + [sep] + f, sep) == Some((w, f))
    ensures DecimalParts(w + [sep] + f, other).None?
  {
    var num := w + [sep] + f;
    assert IndexFrom(num, [sep], 0) == Some(|w|) by {
      OccursAtSlice(num, [sep], |w|);
      assert num[|w|..|w| + 1] == [sep];
      forall j: nat | j < |w| ensures !OccursAt(num, [sep], j) {
        OccursAtPointwise(num, [sep], j);
        assert num[j + 0] == w[j];
      }
    }
    assert num[..|w|] == w && num[|w| + 1..] == f;
    assert forall k :: 0 <= k < |w| ==> num[k] == w[k];
    assert forall k :: 0 <= k < |f| ==> num[|w| + 1 + k] == f[k];
    assert IndexFrom(num, [other], 0).None? by {
      forall j: nat | OccursAt(num, [other], j) ensures false {
        OccursAtPointwise(num, [other], j);
      }
    }
  }

  /** `W.Fh` and `W,Fh` are fractional hours, rounded down to whole minutes. */
  lemma ParseDecimalHours(w: string, sep: char, f: string)
    requires IsDigitString(w) && IsDigitString(f) && (sep == '.' || sep == ',')
    ensures ParseToMinutes(w + [sep] + f + "h") == Some(DecimalMinutes(w, f))
  {
    var num := w + [sep] + f;
    var c := num + "h";
    ParseCleanInput(c);
    assert c[..|c| - 1] == num;
    assert ParseClean(c) == HoursBranch(num, c);
    assert !IsDigitString(num) by {
      assert num[|w|] == sep;
    }
    DecimalPartsOf(w, sep, f, if sep == '.' then ',' else '.');
  }

  /** Whether `c` has one of the exact shapes `N`, `Nm`, `Nh`, `W.Fh`,
      `W,Fh`. */
  predicate ExactForm(c: string) {
    || IsDigitString(c)
    || (EndsWith(c, 'm') && IsDigitString(c[..|c| - 1]))
    || (EndsWith(c, 'h') && (IsDigitString(c[..|c| - 1])
                             || DecimalParts(c[..|c| - 1], '.').Some?
                             || DecimalParts(c[..|c| - 1], ',').Some?))
  }

  /** Anything else is read through the first run of digits. */
  lemma ParseFallback(c: string)
    requires !ExactForm(c)
    ensures ParseClean(c) == FirstNumber(c)
  {
  }

  /** A digit-free shape has no decimal parts. */
  lemma NoDigitNoDecimal(num: string, sep: char)
    requires !IsDigit(sep) && forall i :: 0 <= i < |num| ==> !IsDigit(num[i])
    ensures DecimalParts(num, sep).None?
  {
  }

  lemma ParseCleanNeedsDigit(c: string)
    requires forall i :: 0 <= i < |c| ==> !IsDigit(c[i])
    ensures ParseClean(c) == None
  {
    assert FirstDigit(c, 0).None?;
    assert !IsDigitString(c) by {
      if |c| > 0 { assert !IsDigit(c[0]); }
    }
    if |c| > 0 {
      var num := c[..|c| - 1];
      assert forall i :: 0 <= i < |num| ==> num[i] == c[i];
      assert !IsDigitString(num) by {
        if |num| > 0 { assert !IsDigit(num[0]); }
      }
      NoDigitNoDecimal(num, '.');
      NoDigitNoDecimal(num, ',');
    }
  }

  /** Without any digit there is nothing to read. */
  lemma ParseNeedsDigit(s: string)
    requires forall i :: 0 <= i < |s| ==> !IsDigit(s[i])
    ensures ParseToMinutes(s) == None
  {
    if !IsBlank(s) {
      var t := Trim(s);
      var c := Lower(t);
      TrimIsSlice(s, IsWhitespace);
      assert forall i :: 0 <= i < |t| ==> !IsDigit(t[i]);
      forall i | 0 <= i < |c| ensures !IsDigit(c[i]) {
        LowerCharKinds(t[i]);
      }
      ParseCleanNeedsDigit(c);
    }
  }

  lemma Example30()
    ensures ParseToMinutes("30") == Some(30)
  {
    ExampleDigits(30, "30");
  }
  lemma Example90m()
    ensures ParseToMinutes("90m") == Some(90)
  {
    ExampleMinutes(90, "90m");
  }
  lemma Example1h()
    ensures ParseToMinutes("1h") == Some(60)
  {
    ExampleHours(1, "1h");
  }
  lemma Example15h()
    ensures ParseToMinutes("1.5h") == Some(90)
  {
    ExampleDecimal(1, '.', 5, "1.5h", 90);
  }

  lemma ExampleDigits(n: nat, d: string)
    requires d == NatToString(n) && n <= MaxInt
    ensures ParseToMinutes(d) == Some(n)
  {
    ParseDigits(d);
  }

  lemma ExampleMinutes(n: nat, s: string)
    requires s == NatToString(n) + "m" && n <= MaxInt
    ensures ParseToMinutes(s) == Some(n)
  {
    ParseMinutesSuffix(NatToString(n));
  }

  lemma ExampleHours(n: nat, s: string)
    requires s == NatToString(n) + "h" && n * 60 <= MaxInt
    ensures ParseToMinutes(s) == Some(n * 60)
  {
    ParseHoursSuffix(NatToString(n));
  }

  lemma ExampleDecimal(w: nat, sep: char, f: nat, s: string, m: nat)
    requires sep == '.' || sep == ','
    requires s == NatToString(w) + [sep] + NatToString(f) + "h"
    requires m == DecimalMinutes(NatToString(w), NatToString(f))
    ensures ParseToMinutes(s) == Some(m)
  {
    ParseDecimalHours(NatToString(w), sep, NatToString(f));
  }

  /** Strings with no digit give `None`. */
  lemma ExampleNoDigits()
    ensures ParseToMinutes("h") == None
    ensures ParseToMinutes("m") == None
    ensures ParseToMinutes("abc") == None
  {
    ParseNeedsDigit("h");
    ParseNeedsDigit("m");
    ParseNeedsDigit("abc");
  }

  /** Strings of no exact form give their first run of digits. */
  lemma ExampleEmbedded()
    ensures ParseToMinutes("abc5def") == Some(5)
  {
    FallbackExample("abc", 5, "def", "abc5def");
  }

  /** `1.5m` is not a decimal form: only hours take a fraction. */
  lemma ExampleDecimalMinutes()
    ensures ParseToMinutes("1.5m") == Some(1)
  {
    var s := "1.5m";
    assert !IsDigitString(s[..3]) by { assert s[..3][1] == '.'; }
    assert !IsDigitString(s) by { assert s[1] == '.'; }
    assert "" + NatToString(1) + ".5m" == s;
    FallbackExample("", 1, ".5m", s);
  }

  lemma FallbackExample(pre: string, n: nat, post: string, s: string)
    requires s == pre + NatToString(n) + post && n <= MaxInt
    requires forall k :: 0 <= k < |pre| ==> !IsDigit(pre[k])
    requires |post| > 0 && !IsDigit(post[0])
    requires |s| > 0 && !IsWhitespace(s[0]) && !IsWhitespace(s[|s| - 1])
    requires forall i :: 0 <= i < |s| ==> !IsUpper(s[i])
    requires !ExactForm(s)
    ensures ParseToMinutes(s) == Some(n)
  {
    ParseCleanInput(s);
    FirstRunOf(pre, NatToString(n), post);
    ParseFallback(s);
  }

  // ---------------------------------------------------------------------
  // Formatting and reading back

  /** Every non-negative duration is written in a shape that names it. */
  lemma FormatReadBack(m: nat)
    ensures ReadDuration(FormatMinutes(m)) == Some(m)
  {
    var s := FormatMinutes(m);
    if m < 60 {
      var d := NatToString(m);
      assert s[..|s| - 1] == d;
    } else if m % 60 == 0 {
      var d := NatToString(m / 60);
      assert s[..|s| - 1] == d;
    } else {
      var h := NatToString(m / 60);
      var r := NatToString(m % 60);
      var body := h + "h" + r;
      assert s == body + "m";
      assert s[..|s| - 1] == body;
      assert !IsDigitString(body) by { assert body[|h|] == 'h'; }
      DecimalPartsOf(h, 'h', r, '.');
    }
  }

  /** Distinct non-negative durations are written differently. */
  lemma FormatInjective(a: nat, b: nat)
    ensures FormatMinutes(a) == FormatMinutes(b) <==> a == b
  {
    FormatReadBack(a);
    FormatReadBack(b);
  }

  lemma ParseFormattedMinutes(m: nat)
    requires m < 60
    ensures ParseToMinutes(FormatMinutes(m)) == Some(m)
  {
    ParseMinutesSuffix(NatToString(m));
  }

  lemma ParseFormattedHours(m: nat)
    requires 60 <= m <= MaxInt && m % 60 == 0
    ensures ParseToMinutes(FormatMinutes(m)) == Some(m)
  {
    var q := m / 60;
    var d := NatToString(q);
    assert q * 60 == m;
    assert FormatMinutes(m) == d + "h";
    ParseHoursSuffix(d);
    assert Wrap32(q * 60) == m;
  }

  /** No upper-case letter anywhere in `s`. */
  predicate NoUpper(s: string) {
    forall i :: 0 <= i < |s| ==> !IsUpper(s[i])
  }

  lemma NoUpperConcat(a: string, b: string)
    requires NoUpper(a) && NoUpper(b)
    ensures NoUpper(a + b)
  {
    assert forall i :: |a| <= i < |a + b| ==> (a + b)[i] == b[i - |a|];
  }

  /** A text already trimmed and free of upper-case letters whose only exact
      form is ruled out is read through its first run of digits. */
  lemma ParseEmbedded(pre: string, d: string, post: string)
    requires NoUpper(pre) && IsDigitString(d) && NoUpper(post)
    requires forall k :: 0 <= k < |pre| ==> !IsDigit(pre[k])
    requires |post| > 0 && !IsDigit(post[0]) && !IsWhitespace(post[|post| - 1])
    requires |pre| > 0 ==> !IsWhitespace(pre[0])
    requires !ExactForm(pre + d + post)
    ensures ParseToMinutes(pre + d + post) == ToInt(d)
  {
    var s := pre + d + post;
    NoUpperConcat(pre, d);
    NoUpperConcat(pre + d, post);
    assert s[|s| - 1] == post[|post| - 1];
    assert s[0] == if |pre| > 0 then pre[0] else d[0];
    ParseCleanInput(s);
    ParseFallback(s);
    FirstRunOf(pre, d, post);
  }

  lemma FormatMixedShape(m: nat, h: string, r: string)
    requires m >= 60 && m % 60 != 0 && h == NatToString(m / 60) && r == NatToString(m % 60)
    ensures FormatMinutes(m) == "" + h + ("h" + r + "m")
  {
  }

  /** `HhMm` is not one of the parser's exact forms: it falls back to its
      first run of digits, the hours. */
  lemma ParseFormattedMixed(m: nat)
    requires 60 <= m <= MaxInt && m % 60 != 0
    ensures ParseToMinutes(FormatMinutes(m)) == Some(m / 60)
  {
    var h := NatToString(m / 60);
    var r := NatToString(m % 60);
    var post := "h" + r + "m";
    FormatMixedShape(m, h, r);
    NoUpperConcat("h", r);
    NoUpperConcat("h" + r, "m");
    assert !ExactForm("" + h + post) by {
      var s := "" + h + post;
      assert s[|h|] == 'h';
      assert s[..|s| - 1][|h|] == 'h';
    }
    ParseEmbedded("", h, post);
  }

  /** A negative duration is written `-Nm`, read back through the fallback
      as `N` (or not at all when `N` does not fit in an `Int`). */
  lemma ParseFormattedNegative(m: int)
    requires MinInt <= m < 0
    ensures ParseToMinutes(FormatMinutes(m)) == ToInt(NatToString(-m))
  {
    var d := NatToString(-m);
    assert FormatMinutes(m) == "-" + d + "m";
    assert !ExactForm("-" + d + "m") by {
      var s := "-" + d + "m";
      assert s[0] == '-';
      assert s[..|s| - 1][0] == '-';
    }
    ParseEmbedded("-", d, "m");
  }

  /** Formatting then parsing gives the duration back exactly for `Nm` and
      `Hh`; a mixed `HhMm` or a negative duration does not survive. */
  lemma ParseFormatted(m: int)
    requires IsInt(m)
    ensures ParseToMinutes(FormatMinutes(m)) == Some(m) <==> 0 <= m && (m < 60 || m % 60 == 0)
  {
    if m < 0 {
      ParseFormattedNegative(m);
    } else if m < 60 {
      ParseFormattedMinutes(m);
    } else if m % 60 == 0 {
      ParseFormattedHours(m);
    } else {
      ParseFormattedMixed(m);
    }
  }

  /** The documented examples: each input and its display form. */
  lemma ExamplesDisplay()
    ensures ValidateAndFormat("30") == Some("30m")
    ensures ValidateAndFormat("90m") == Some("1h30m")
    ensures ValidateAndFormat("1h") == Some("1h")
    ensures ValidateAndFormat("1.5h") == Some("1h30m")
    ensures ValidateAndFormat("2,5h") == Some("2h30m")
  {
    Example30();
    Example90m();
    Example1h();
    Example15h();
    Example25h();
    FormatExamples();
  }

  lemma Example25h()
    ensures ParseToMinutes("2,5h") == Some(150)
  {
    ExampleDecimal(2, ',', 5, "2,5h", 150);
  }

  lemma FormatExamples()
    ensures FormatMinutes(30) == "30m"
    ensures FormatMinutes(60) == "1h"
    ensures FormatMinutes(90) == "1h30m"
    ensures FormatMinutes(150) == "2h30m"
  {
    Thirty();
    FormatAsMinutes(30, "30");
    FormatAsHours(60, 1, "1");
    FormatAsMixed(90, 1, 30, "1", "30");
    FormatAsMixed(150, 2, 30, "2", "30");
  }

  lemma Thirty()
    ensures NatToString(30) == "30"
  {
    assert NatToString(3) == "3";
  }

  lemma FormatAsMinutes(minutes: nat, d: string)
    requires minutes < 60 && NatToString(minutes) == d
    ensures FormatMinutes(minutes) == d + "m"
  {
  }

  lemma FormatAsHours(minutes: nat, h: nat, d: string)
    requires minutes == 60 * h && h > 0 && NatToString(h) == d
    ensures FormatMinutes(minutes) == d + "h"
  {
  }

  lemma FormatAsMixed(minutes: nat, h: nat, m: nat, dh: string, dm: string)
    requires minutes == 60 * h + m && h > 0 && 0 < m < 60 && NatToString(h) == dh && NatToString(m) == dm
    ensures FormatMinutes(minutes) == dh + "h" + dm + "m"
  {
    assert minutes / 60 == h && minutes % 60 == m;
  }

  /** `0` is a valid duration but has no display form. */
  lemma ZeroValidNotDisplayed()
    ensures IsValid("0") && ValidateAndFormat("0") == None
  {
    ExampleDigits(0, "0");
  }
}
