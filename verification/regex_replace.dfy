/** `Regex.replace(input, replacement)` on the JVM, for the regexes the
    pull-request renderer uses: `lit.*` and `(lit.*)`, where `lit` is plain
    text.  In java.util.regex, `.` stops at a line terminator, so every match
    runs from an occurrence of `lit` to the end of its line.

    The replacement string is itself a small language (`Matcher.appendReplacement`):
    `\x` stands for `x`, `$n` for group `n`, and a malformed reference throws
    `IllegalArgumentException` or `IndexOutOfBoundsException`.  A throw is
    `None` here. */
module RegexReplace {
  import opened Wrappers
  import opened Text

  // ---------------------------------------------------------------------
  // Replacement strings

  /** Characters that mean something in a replacement string. */
  predicate Plain(rep: string) {
    '$' !in rep && '\\' !in rep
  }

  /** The longest group number that `appendReplacement` reads after `$`:
      the first digit, then further digits while the number stays at most
      `groupCount`.  Returns the number and how many characters it took. */
  function GroupRef(d: string, groupCount: nat): (r: (nat, nat))
    requires |d| > 0 && IsDigit(d[0])
    ensures 1 <= r.1 <= |d| && AllDigits(d[..r.1])
    ensures r.0 == DigitsValue(d[..r.1])
    ensures r.1 > 1 ==> r.0 <= groupCount
    ensures r.1 < |d| && IsDigit(d[r.1]) ==> r.0 * 10 + DigitValue(d[r.1]) > groupCount
  {
    assert d[..1] == [d[0]];
    assert DigitsValue(d[..1]) == DigitValue(d[0]) by {
      assert d[..1][..0] == [];
    }
    ExtendRef(d, 1, DigitValue(d[0]), groupCount)
  }

  function ExtendRef(d: string, k: nat, ref: nat, groupCount: nat): (r: (nat, nat))
    requires 1 <= k <= |d| && AllDigits(d[..k]) && ref == DigitsValue(d[..k])
    requires k > 1 ==> ref <= groupCount
    ensures k <= r.1 <= |d| && AllDigits(d[..r.1])
    ensures r.0 == DigitsValue(d[..r.1])
    ensures r.1 > 1 ==> r.0 <= groupCount
    ensures r.1 < |d| && IsDigit(d[r.1]) ==> r.0 * 10 + DigitValue(d[r.1]) > groupCount
    decreases |d| - k
  {
    if k < |d| && IsDigit(d[k]) && ref * 10 + DigitValue(d[k]) <= groupCount then
      assert d[..k + 1][..k] == d[..k];
      ExtendRef(d, k + 1, ref * 10 + DigitValue(d[k]), groupCount)
    else (ref, k)
  }

  /** A parsed replacement string: literal text and group references. */
  datatype Piece = Text(t: string) | Ref(n: nat)

  /** Every group reference in `ps` is below `n`. */
  predicate RefsBelow(ps: seq<Piece>, n: nat) {
    forall k :: 0 <= k < |ps| && ps[k].Ref? ==> ps[k].n < n
  }

  function Cons(x: Piece, r: Option<seq<Piece>>): (q: Option<seq<Piece>>)
    ensures q.Some? <==> r.Some?
    ensures q.Some? ==> q.value == [x] + r.value
  {
    match r
    case None => None
    case Some(ps) => Some([x] + ps)
  }

  /** How `appendReplacement` reads `rep` for a regex with `groupCount`
      groups.  Whether it throws depends only on `rep` and `groupCount`,
      never on the text matched, so it is read once here. */
  function Parse(rep: string, groupCount: nat): (r: Option<seq<Piece>>)
    ensures r.Some? ==> RefsBelow(r.value, groupCount + 1)
    decreases |rep|
  {
    if |rep| == 0 then Some([])
    else if rep[0] == '\\' then
      if |rep| == 1 then None
      else Cons(Text([rep[1]]), Parse(rep[2..], groupCount))
    else if rep[0] == '$' then
      // `${name}` needs a named group, and none of these regexes has one
      if |rep| == 1 || !IsDigit(rep[1]) then None
      else
        var (g, n) := GroupRef(rep[1..], groupCount);
        if g > groupCount then None
        else Cons(Ref(g), Parse(rep[1 + n..], groupCount))
    else Cons(Text([rep[0]]), Parse(rep[1..], groupCount))
  }

  /** The text a parsed replacement stands for, given the groups of a match. */
  function Fill(ps: seq<Piece>, groups: seq<string>): string
    requires RefsBelow(ps, |groups|)
    decreases |ps|
  {
    if |ps| == 0 then ""
    else
      (match ps[0]
       case Text(t) => t
       case Ref(g) => groups[g])
      + Fill(ps[1..], groups)
  }

  /** `appendReplacement`'s expansion of `rep` for a match whose groups are
      `groups` (group 0 is the whole match); `None` when it throws. */
  function Expand(rep: string, groups: seq<string>): Option<string>
    requires |groups| >= 1
  {
    match Parse(rep, |groups| - 1)
    case None => None
    case Some(ps) => Some(Fill(ps, groups))
  }

  function Prepend(a: string, r: Option<string>): (q: Option<string>)
    ensures q.Some? <==> r.Some?
    ensures q.Some? ==> q.value == a + r.value
  {
    match r
    case None => None
    case Some(x) => Some(a + x)
  }

  /** One piece per character of plain text. */
  function Chars(a: string): (ps: seq<Piece>)
    ensures |ps| == |a| && RefsBelow(ps, 0)
  {
    seq(|a|, k requires 0 <= k < |a| => Text([a[k]]))
  }

  lemma {:induction false} FillChars(a: string, rest: seq<Piece>, groups: seq<string>)
    requires RefsBelow(rest, |groups|)
    ensures RefsBelow(Chars(a) + rest, |groups|)
    ensures Fill(Chars(a) + rest, groups) == a + Fill(rest, groups)
    decreases |a|
  {
    var ps := Chars(a) + rest;
    if |a| > 0 {
      assert ps[1..] == Chars(a[1..]) + rest;
      FillChars(a[1..], rest, groups);
      assert [a[0]] + a[1..] == a;
    } else {
      assert ps == rest;
    }
  }

  /** A plain prefix is read character by character. */
  lemma {:induction false} ParseAfterPlain(a: string, b: string, groupCount: nat)
    requires Plain(a)
    ensures Parse(a + b, groupCount).Some? <==> Parse(b, groupCount).Some?
    ensures Parse(b, groupCount).Some? ==>
      Parse(a + b, groupCount).value == Chars(a) + Parse(b, groupCount).value
    decreases |a|
  {
    if |a| == 0 {
      assert a + b == b;
    } else {
      assert (a + b)[0] == a[0] && a[0] != '$' && a[0] != '\\';
      assert (a + b)[1..] == a[1..] + b;
      ParseAfterPlain(a[1..], b, groupCount);
      assert Chars(a) == [Text([a[0]])] + Chars(a[1..]);
    }
  }

  /** A plain prefix is copied and the rest expanded after it. */
  lemma ExpandAfterPlain(a: string, b: string, groups: seq<string>)
    requires |groups| >= 1 && Plain(a)
    ensures Expand(a + b, groups) == Prepend(a, Expand(b, groups))
  {
    var n := |groups| - 1;
    ParseAfterPlain(a, b, n);
    match Parse(b, n)
    case None =>
    case Some(ps) =>
      FillChars(a, ps, groups);
      assert Parse(a + b, n) == Some(Chars(a) + ps);
      assert Expand(a + b, groups) == Some(Fill(Chars(a) + ps, groups));
  }

  /** Plain text stands for itself. */
  lemma ExpandPlain(rep: string, groups: seq<string>)
    requires |groups| >= 1 && Plain(rep)
    ensures Expand(rep, groups) == Some(rep)
  {
    ExpandAfterPlain(rep, "", groups);
    assert rep + "" == rep;
    assert Parse("", |groups| - 1) == Some([]);
  }

  /** `$1` for a regex with one group is a reference to that group. */
  lemma ParseGroupOne()
    ensures Parse("$1", 1) == Some([Ref(1)])
  {
    var rep := "$1";
    var d := rep[1..];
    assert rep[0] == '$' && IsDigit(rep[1]);
    assert d[..1] == d == ['1'];
    assert DigitsValue(d) == 1 by {
      assert d[..0] == [];
    }
    assert GroupRef(d, 1) == (1, 1);
    assert rep[2..] == [];
    assert Parse(rep[2..], 1) == Some([]);
    assert Parse(rep, 1) == Cons(Ref(1), Parse(rep[2..], 1));
    assert [Ref(1)] + [] == [Ref(1)];
  }

  /** The insertion replacement `x + "\n$1"` puts `x` and a line break before
      group 1. */
  lemma ExpandInsert(x: string, m: string)
    requires Plain(x)
    ensures Expand(x + "\n$1", [m, m]) == Some(x + "\n" + m)
  {
    assert Plain(x + "\n");
    ExpandAfterPlain(x + "\n", "$1", [m, m]);
    ParseGroupOne();
    assert Fill([Ref(1)], [m, m]) == m + "" == m;
    assert Expand("$1", [m, m]) == Some(m);
    assert x + "\n$1" == (x + "\n") + "$1";
  }

  /** A `$` that is not followed by a digit throws. */
  lemma DollarWithoutDigitThrows(a: string, b: string, groups: seq<string>)
    requires |groups| >= 1 && Plain(a) && (|b| == 0 || !IsDigit(b[0]))
    ensures Expand(a + "$" + b, groups) == None
  {
    ExpandAfterPlain(a, "$" + b, groups);
    assert a + "$" + b == a + ("$" + b);
  }

  /** A trailing backslash throws. */
  lemma TrailingBackslashThrows(a: string, groups: seq<string>)
    requires |groups| >= 1 && Plain(a)
    ensures Expand(a + "\\", groups) == None
  {
    ExpandAfterPlain(a, "\\", groups);
  }

  /** `Matcher.quoteReplacement`: a backslash before every `$` and `\`. */
  function Quote(s: string): (r: string)
    ensures |r| >= |s|
    decreases |s|
  {
    if |s| == 0 then ""
    else if s[0] == '$' || s[0] == '\\' then ['\\', s[0]] + Quote(s[1..])
    else [s[0]] + Quote(s[1..])
  }

  /** Quoting makes any text read as itself, character by character. */
  lemma {:induction false} ParseQuote(s: string, groupCount: nat)
    ensures Parse(Quote(s), groupCount) == Some(Chars(s))
    decreases |s|
  {
    if |s| > 0 {
      ParseQuote(s[1..], groupCount);
      var q := Quote(s);
      if s[0] == '$' || s[0] == '\\' {
        assert q[2..] == Quote(s[1..]);
      } else {
        assert q[1..] == Quote(s[1..]);
      }
      assert Chars(s) == [Text([s[0]])] + Chars(s[1..]);
    }
  }

  /** Quoting makes any text expand to itself. */
  lemma ExpandQuote(s: string, groups: seq<string>)
    requires |groups| >= 1
    ensures Expand(Quote(s), groups) == Some(s)
  {
    ParseQuote(s, |groups| - 1);
    FillChars(s, [], groups);
    assert Chars(s) + [] == Chars(s);
    assert s + "" == s;
  }

  // ---------------------------------------------------------------------
  // `lit.*` and `(lit.*)`

  /** The end of the line that contains position `i`: the first line
      terminator at or after `i`, or the end of the text. */
  function LineEnd(s: string, i: nat): (e: nat)
    requires i <= |s|
    ensures i <= e <= |s|
    decreases |s| - i
  {
    if i == |s| || IsLineTerminator(s[i]) then i else LineEnd(s, i + 1)
  }

  /** `LineEnd` stops at the first line terminator. */
  lemma {:induction false} LineEndSpec(s: string, i: nat)
    requires i <= |s|
    ensures forall t :: i <= t < LineEnd(s, i) ==> !IsLineTerminator(s[t])
    ensures LineEnd(s, i) == |s| || IsLineTerminator(s[LineEnd(s, i)])
    decreases |s| - i
  {
    if i < |s| && !IsLineTerminator(s[i]) {
      LineEndSpec(s, i + 1);
    }
  }

  /** The groups of a match `m`: group 0 only, or group 0 and group 1 when
      the whole regex is parenthesised. */
  function Groups(m: string, grouped: bool): (g: seq<string>)
    ensures |g| == GroupCount(grouped) + 1 && g[0] == m
    ensures grouped ==> g[1] == m
  {
    if grouped then [m, m] else [m]
  }

  predicate NoTerminator(s: string) {
    forall t :: 0 <= t < |s| ==> !IsLineTerminator(s[t])
  }

  /** The number of groups of `lit.*` (none) or `(lit.*)` (one). */
  function GroupCount(grouped: bool): nat {
    if grouped then 1 else 0
  }

  /** `s.replace(Regex(lit + ".*"), rep)`, or with the regex in a group.
      Without a match the text comes back as it is and the replacement is
      never read. */
  function ReplaceLines(s: string, lit: string, rep: string, grouped: bool): Option<string>
    requires |lit| > 0
  {
    if !Contains(s, lit) then Some(s)
    else
      match Parse(rep, GroupCount(grouped))
      case None => None
      case Some(ps) => Some(ReplaceFrom(s, lit, ps, grouped, 0))
  }

  /** The text from position `p` on, with every match replaced by `ps`.  A
      match starts where `lit` occurs and runs to the end of that line; the
      scan resumes where the match ended. */
  function ReplaceFrom(s: string, lit: string, ps: seq<Piece>, grouped: bool, p: nat): string
    requires |lit| > 0 && p <= |s| && RefsBelow(ps, GroupCount(grouped) + 1)
    decreases |s| - p
  {
    if p == |s| then []
    else if OccursAt(s, lit, p) then
      var e := LineEnd(s, p + |lit|);
      Fill(ps, Groups(s[p..e], grouped)) + ReplaceFrom(s, lit, ps, grouped, e)
    else [s[p]] + ReplaceFrom(s, lit, ps, grouped, p + 1)
  }

  /** The same replacement described line by line: on a line where `lit`
      occurs, everything from its first occurrence to the end of the line is
      the match. */
  function ReplaceInLine(line: string, lit: string, ps: seq<Piece>, grouped: bool): string
    requires RefsBelow(ps, GroupCount(grouped) + 1)
  {
    match IndexFrom(line, lit, 0)
    case None => line
    case Some(j) => line[..j] + Fill(ps, Groups(line[j..], grouped))
  }

  /** Every line of `s`, each replaced on its own. */
  function ByLines(s: string, lit: string, ps: seq<Piece>, grouped: bool): string
    requires RefsBelow(ps, GroupCount(grouped) + 1)
    decreases |s|
  {
    var t := LineEnd(s, 0);
    var l := ReplaceInLine(s[..t], lit, ps, grouped);
    if t == |s| then l
    else l + [s[t]] + ByLines(s[t + 1..], lit, ps, grouped)
  }

  /** A match at `p` that ends at `e` is replaced by `x`. */
  lemma ReplaceFromMatch(s: string, lit: string, ps: seq<Piece>, grouped: bool, p: nat, e: nat, x: string)
    requires |lit| > 0 && p <= |s| && RefsBelow(ps, GroupCount(grouped) + 1)
    requires OccursAt(s, lit, p) && e == LineEnd(s, p + |lit|)
    requires x == Fill(ps, Groups(s[p..e], grouped))
    ensures ReplaceFrom(s, lit, ps, grouped, p) == x + ReplaceFrom(s, lit, ps, grouped, e)
  {
  }

  /** Text in which no match starts is copied unchanged. */
  lemma {:induction false} ReplaceFromSkip(s: string, lit: string, ps: seq<Piece>, grouped: bool, p: nat, q: nat)
    requires |lit| > 0 && p <= q <= |s| && RefsBelow(ps, GroupCount(grouped) + 1)
    requires forall j: nat :: p <= j < q ==> !OccursAt(s, lit, j)
    ensures ReplaceFrom(s, lit, ps, grouped, p) == s[p..q] + ReplaceFrom(s, lit, ps, grouped, q)
    decreases q - p
  {
    if p < q {
      ReplaceFromSkip(s, lit, ps, grouped, p + 1, q);
      var r := ReplaceFrom(s, lit, ps, grouped, q);
      assert ReplaceFrom(s, lit, ps, grouped, p) == [s[p]] + ReplaceFrom(s, lit, ps, grouped, p + 1);
      Assoc3([s[p]], s[p + 1..q], r);
      assert s[p..q] == [s[p]] + s[p + 1..q];
    }
  }

  /** The scan agrees with `Matcher.find`: the next match starts at the first
      occurrence of `lit`, and the text before it is copied. */
  lemma ReplaceFromFind(s: string, lit: string, ps: seq<Piece>, grouped: bool, p: nat)
    requires |lit| > 0 && p <= |s| && RefsBelow(ps, GroupCount(grouped) + 1)
    ensures IndexFrom(s, lit, p).None? ==> ReplaceFrom(s, lit, ps, grouped, p) == s[p..]
    ensures IndexFrom(s, lit, p).Some? ==>
      var i := IndexFrom(s, lit, p).value;
      var e := LineEnd(s, i + |lit|);
      ReplaceFrom(s, lit, ps, grouped, p) ==
        s[p..i] + Fill(ps, Groups(s[i..e], grouped)) + ReplaceFrom(s, lit, ps, grouped, e)
  {
    match IndexFrom(s, lit, p)
    case None =>
      ReplaceFromSkip(s, lit, ps, grouped, p, |s|);
      assert s[p..|s|] + [] == s[p..];
    case Some(i) =>
      ReplaceFromFound(s, lit, ps, grouped, p, i, LineEnd(s, i + |lit|));
  }

  /** `ReplaceFromFind` when the next occurrence is at `i`. */
  lemma ReplaceFromFound(s: string, lit: string, ps: seq<Piece>, grouped: bool, p: nat, i: nat, e: nat)
    requires |lit| > 0 && p <= |s| && RefsBelow(ps, GroupCount(grouped) + 1)
    requires IndexFrom(s, lit, p) == Some(i) && e == LineEnd(s, i + |lit|)
    ensures i <= e <= |s|
    ensures ReplaceFrom(s, lit, ps, grouped, p) == s[p..i] + Fill(ps, Groups(s[i..e], grouped)) + ReplaceFrom(s, lit, ps, grouped, e)
  {
    var x := Fill(ps, Groups(s[i..e], grouped));
    ReplaceFromSkip(s, lit, ps, grouped, p, i);
    ReplaceFromMatch(s, lit, ps, grouped, i, e, x);
    PeelTwice(ReplaceFrom(s, lit, ps, grouped, p), s[p..i], ReplaceFrom(s, lit, ps, grouped, i),
              x, ReplaceFrom(s, lit, ps, grouped, e));
  }

  /** An occurrence of `lit` that starts on the line `[p, t)` ends on it. */
  lemma OccurrenceStaysOnLine(s: string, lit: string, p: nat, t: nat, j: nat)
    requires NoTerminator(lit) && p <= t <= |s| && t == LineEnd(s, p)
    requires p <= j <= t && OccursAt(s, lit, j)
    ensures j + |lit| <= t
  {
    if t < |s| && t < j + |lit| {
      OccurrenceHasNoTerminator(s, lit, j, t);
      LineEndSpec(s, p);
    }
  }

  /** An occurrence of a text without line terminators has none. */
  lemma OccurrenceHasNoTerminator(s: string, lit: string, j: nat, k: nat)
    requires NoTerminator(lit) && OccursAt(s, lit, j) && j <= k < j + |lit|
    ensures !IsLineTerminator(s[k])
  {
    OccursAtPointwise(s, lit, j);
    assert s[j + (k - j)] == lit[k - j];
  }

  /** Occurrences on the line `[p, t)` are the occurrences of the text that
      start on it. */
  lemma OccursOnLine(s: string, lit: string, p: nat, t: nat, j: nat)
    requires NoTerminator(lit) && p <= t <= |s| && t == LineEnd(s, p)
    requires p + j <= t
    ensures OccursAt(s[p..t], lit, j) <==> OccursAt(s, lit, p + j)
  {
    OccursInSlice(s, lit, p, t, j);
    if OccursAt(s, lit, p + j) {
      OccurrenceStaysOnLine(s, lit, p, t, p + j);
    }
  }

  /** A match that starts on the line `[p, t)` runs to `t`. */
  lemma MatchEndsAtLineEnd(s: string, lit: string, p: nat, t: nat, i: nat)
    requires NoTerminator(lit) && p <= i <= |s| && t == LineEnd(s, p)
    requires OccursAt(s, lit, i) && i <= t
    ensures i + |lit| <= t && LineEnd(s, i + |lit|) == t
  {
    OccurrenceStaysOnLine(s, lit, p, t, i);
    LineEndSpec(s, p);
    LineEndFrom(s, p, i + |lit|);
  }

  /** Starting later on the same line finds the same line end. */
  lemma {:induction false} LineEndFrom(s: string, p: nat, q: nat)
    requires p <= |s| && p <= q <= LineEnd(s, p)
    ensures LineEnd(s, q) == LineEnd(s, p)
    decreases q - p
  {
    if p < q {
      LineEndFrom(s, p + 1, q);
    }
  }

  /** A line without `lit` is copied. */
  lemma ReplaceFromPlainLine(s: string, lit: string, ps: seq<Piece>, grouped: bool, p: nat, t: nat)
    requires |lit| > 0 && NoTerminator(lit) && p <= |s| && RefsBelow(ps, GroupCount(grouped) + 1)
    requires t == LineEnd(s, p) && IndexFrom(s[p..t], lit, 0).None?
    ensures ReplaceFrom(s, lit, ps, grouped, p) == s[p..t] + ReplaceFrom(s, lit, ps, grouped, t)
  {
    forall j: nat | p <= j < t ensures !OccursAt(s, lit, j) {
      OccursOnLine(s, lit, p, t, j - p);
    }
    ReplaceFromSkip(s, lit, ps, grouped, p, t);
  }

  /** A line where `lit` first occurs at offset `j` is copied up to `j`, and
      the rest of the line is the match. */
  lemma ReplaceFromMatchLine(s: string, lit: string, ps: seq<Piece>, grouped: bool, p: nat, t: nat, j: nat)
    requires |lit| > 0 && NoTerminator(lit) && p <= |s| && RefsBelow(ps, GroupCount(grouped) + 1)
    requires t == LineEnd(s, p) && IndexFrom(s[p..t], lit, 0) == Some(j)
    ensures ReplaceFrom(s, lit, ps, grouped, p) ==
      s[p..p + j] + Fill(ps, Groups(s[p + j..t], grouped)) + ReplaceFrom(s, lit, ps, grouped, t)
  {
    FirstOnLine(s, lit, p, t, j);
    MatchEndsAtLineEnd(s, lit, p, t, p + j);
    var x := Fill(ps, Groups(s[p + j..t], grouped));
    ReplaceFromSkip(s, lit, ps, grouped, p, p + j);
    ReplaceFromMatch(s, lit, ps, grouped, p + j, t, x);
    PeelTwice(ReplaceFrom(s, lit, ps, grouped, p), s[p..p + j], ReplaceFrom(s, lit, ps, grouped, p + j),
              x, ReplaceFrom(s, lit, ps, grouped, t));
  }

  /** The first occurrence on the line is the first one from its start. */
  lemma FirstOnLine(s: string, lit: string, p: nat, t: nat, j: nat)
    requires |lit| > 0 && NoTerminator(lit) && p <= |s|
    requires t == LineEnd(s, p) && IndexFrom(s[p..t], lit, 0) == Some(j)
    ensures p + j <= t && OccursAt(s, lit, p + j)
    ensures forall k: nat :: p <= k < p + j ==> !OccursAt(s, lit, k)
  {
    OccursOnLine(s, lit, p, t, j);
    forall k: nat | p <= k < p + j ensures !OccursAt(s, lit, k) {
      OccursOnLine(s, lit, p, t, k - p);
    }
  }

  /** The line `[p, t)` is replaced on its own. */
  lemma ReplaceFromLine(s: string, lit: string, ps: seq<Piece>, grouped: bool, p: nat, t: nat)
    requires |lit| > 0 && NoTerminator(lit) && p <= |s| && RefsBelow(ps, GroupCount(grouped) + 1)
    requires t == LineEnd(s, p)
    ensures ReplaceFrom(s, lit, ps, grouped, p) ==
      ReplaceInLine(s[p..t], lit, ps, grouped) + ReplaceFrom(s, lit, ps, grouped, t)
  {
    var line := s[p..t];
    match IndexFrom(line, lit, 0)
    case None =>
      ReplaceFromPlainLine(s, lit, ps, grouped, p, t);
    case Some(j) =>
      ReplaceFromMatchLine(s, lit, ps, grouped, p, t, j);
      SliceOfSlice(s, p, t, j);
  }

  /** Replacing `lit.*` works line by line: the scan over the whole text and
      the line-by-line description agree on every text, provided `lit` lies
      within one line. */
  lemma {:induction false} ReplaceFromByLines(s: string, lit: string, ps: seq<Piece>, grouped: bool, p: nat)
    requires |lit| > 0 && NoTerminator(lit) && p <= |s| && RefsBelow(ps, GroupCount(grouped) + 1)
    ensures ReplaceFrom(s, lit, ps, grouped, p) == ByLines(s[p..], lit, ps, grouped)
    decreases |s| - p
  {
    var t := LineEnd(s, p);
    if t < |s| {
      ReplaceFromByLines(s, lit, ps, grouped, t + 1);
      ReplaceFromMidLine(s, lit, ps, grouped, p, t);
    } else {
      ReplaceFromLastLine(s, lit, ps, grouped, p);
    }
  }

  /** A line ended by a terminator is replaced on its own, and the text
      after the terminator line by line. */
  lemma ReplaceFromMidLine(s: string, lit: string, ps: seq<Piece>, grouped: bool, p: nat, t: nat)
    requires |lit| > 0 && NoTerminator(lit) && p <= |s| && RefsBelow(ps, GroupCount(grouped) + 1)
    requires t == LineEnd(s, p) && t < |s|
    requires ReplaceFrom(s, lit, ps, grouped, t + 1) == ByLines(s[t + 1..], lit, ps, grouped)
    ensures ReplaceFrom(s, lit, ps, grouped, p) == ByLines(s[p..], lit, ps, grouped)
  {
    ReplaceFromLine(s, lit, ps, grouped, p, t);
    ByLinesDrop(s, p, t, lit, ps, grouped);
    ReplaceFromTerminator(s, lit, ps, grouped, p, t);
    LineThenRest(ReplaceFrom(s, lit, ps, grouped, p), ReplaceInLine(s[p..t], lit, ps, grouped),
      ReplaceFrom(s, lit, ps, grouped, t), [s[t]], ReplaceFrom(s, lit, ps, grouped, t + 1), ByLines(s[p..], lit, ps, grouped));
  }

  /** The last line is replaced on its own. */
  lemma ReplaceFromLastLine(s: string, lit: string, ps: seq<Piece>, grouped: bool, p: nat)
    requires |lit| > 0 && NoTerminator(lit) && p <= |s| && RefsBelow(ps, GroupCount(grouped) + 1)
    requires LineEnd(s, p) == |s|
    ensures ReplaceFrom(s, lit, ps, grouped, p) == ByLines(s[p..], lit, ps, grouped)
  {
    var t := |s|;
    ReplaceFromLine(s, lit, ps, grouped, p, t);
    ByLinesDrop(s, p, t, lit, ps, grouped);
    LastLine(ReplaceFrom(s, lit, ps, grouped, p), ReplaceInLine(s[p..t], lit, ps, grouped),
      ReplaceFrom(s, lit, ps, grouped, t), ByLines(s[p..], lit, ps, grouped));
  }

  /** The lines of `s` from `p` on: the one ending at `t`, then the rest. */
  lemma ByLinesDrop(s: string, p: nat, t: nat, lit: string, ps: seq<Piece>, grouped: bool)
    requires p <= |s| && RefsBelow(ps, GroupCount(grouped) + 1) && t == LineEnd(s, p)
    ensures t < |s| ==>
      ByLines(s[p..], lit, ps, grouped) == ReplaceInLine(s[p..t], lit, ps, grouped) + [s[t]] + ByLines(s[t + 1..], lit, ps, grouped)
    ensures t == |s| ==> ByLines(s[p..], lit, ps, grouped) == ReplaceInLine(s[p..t], lit, ps, grouped)
  {
    LineEndDrop(s, p, 0);
    DropSlices(s, p, t);
    if t < |s| {
      ByLinesSplit(s[p..], t - p, s[p..t], s[t], s[t + 1..], lit, ps, grouped);
    } else {
      ByLinesWhole(s[p..], s[p..t], lit, ps, grouped);
    }
  }

  /** `ByLines` on a text whose first line `line` ends with `c`. */
  lemma ByLinesSplit(u: string, t: nat, line: string, c: char, rest: string, lit: string, ps: seq<Piece>, grouped: bool)
    requires RefsBelow(ps, GroupCount(grouped) + 1) && t == LineEnd(u, 0) && t < |u|
    requires line == u[..t] && c == u[t] && rest == u[t + 1..]
    ensures ByLines(u, lit, ps, grouped) == ReplaceInLine(line, lit, ps, grouped) + [c] + ByLines(rest, lit, ps, grouped)
  {
  }

  /** `ByLines` on a text of one line. */
  lemma ByLinesWhole(u: string, line: string, lit: string, ps: seq<Piece>, grouped: bool)
    requires RefsBelow(ps, GroupCount(grouped) + 1) && LineEnd(u, 0) == |u| && line == u[..|u|]
    ensures ByLines(u, lit, ps, grouped) == ReplaceInLine(line, lit, ps, grouped)
  {
  }

  /** Rejoining a line, its terminator and the rest. */
  lemma LineThenRest(a: string, l: string, b: string, c: string, r: string, x: string)
    requires a == l + b && b == c + r && x == l + c + r
    ensures a == x
  {
  }

  /** A last line with nothing after it. */
  lemma LastLine(a: string, l: string, b: string, x: string)
    requires a == l + b && b == [] && x == l
    ensures a == x
  {
    assert l + [] == l;
  }

  /** The slices of `s[p..]` around a position `t` of `s`. */
  lemma DropSlices(s: string, p: nat, t: nat)
    requires p <= t <= |s|
    ensures s[p..][..t - p] == s[p..t]
    ensures t < |s| ==> s[p..][t - p] == s[t] && s[p..][t - p + 1..] == s[t + 1..]
  {
  }

  /** A line terminator is copied as it is. */
  lemma ReplaceFromTerminator(s: string, lit: string, ps: seq<Piece>, grouped: bool, p: nat, t: nat)
    requires |lit| > 0 && NoTerminator(lit) && p <= t < |s| && RefsBelow(ps, GroupCount(grouped) + 1)
    requires t == LineEnd(s, p)
    ensures ReplaceFrom(s, lit, ps, grouped, t) == [s[t]] + ReplaceFrom(s, lit, ps, grouped, t + 1)
  {
    LineEndSpec(s, p);
    assert !OccursAt(s, lit, t) by {
      OccursAtPointwise(s, lit, t);
    }
  }

  /** `ReplaceLines` replaces every line containing `lit` on its own. */
  lemma ReplaceLinesByLines(s: string, lit: string, rep: string, grouped: bool)
    requires |lit| > 0 && NoTerminator(lit)
    ensures ReplaceLines(s, lit, rep, grouped) ==
      if !Contains(s, lit) then Some(s)
      else match Parse(rep, GroupCount(grouped))
        case None => None
        case Some(ps) => Some(ByLines(s, lit, ps, grouped))
  {
    if Contains(s, lit) {
      if Parse(rep, GroupCount(grouped)).Some? {
        ReplaceFromByLines(s, lit, Parse(rep, GroupCount(grouped)).value, grouped, 0);
        assert s[0..] == s;
      }
    }
  }

  // ---------------------------------------------------------------------
  // Texts written as lines joined by `\n`

  /** The line that starts at `p` ends at `t`. */
  lemma {:induction false} LineEndIs(s: string, p: nat, t: nat)
    requires p <= t <= |s| && (forall i :: p <= i < t ==> !IsLineTerminator(s[i]))
    requires t == |s| || IsLineTerminator(s[t])
    ensures LineEnd(s, p) == t
    decreases t - p
  {
    if p < t {
      LineEndIs(s, p + 1, t);
    }
  }

  /** Line ends do not depend on text in front. */
  lemma {:induction false} LineEndDrop(s: string, p: nat, i: nat)
    requires p + i <= |s|
    ensures LineEnd(s[p..], i) == LineEnd(s, p + i) - p
    decreases |s| - p - i
  {
    if p + i < |s| {
      assert s[p..][i] == s[p + i];
      if !IsLineTerminator(s[p + i]) {
        LineEndDrop(s, p, i + 1);
      }
    }
  }

  /** Each line replaced on its own. */
  function ReplaceEachLine(lines: seq<string>, lit: string, ps: seq<Piece>, grouped: bool): (r: seq<string>)
    requires RefsBelow(ps, GroupCount(grouped) + 1)
    ensures |r| == |lines|
  {
    seq(|lines|, k requires 0 <= k < |lines| => ReplaceInLine(lines[k], lit, ps, grouped))
  }

  /** A single line is replaced as a whole. */
  lemma ByLinesOne(l: string, lit: string, ps: seq<Piece>, grouped: bool)
    requires NoTerminator(l) && RefsBelow(ps, GroupCount(grouped) + 1)
    ensures ByLines(l, lit, ps, grouped) == ReplaceInLine(l, lit, ps, grouped)
  {
    LineEndIs(l, 0, |l|);
    assert l[..|l|] == l;
  }

  /** The first line, up to its `\n`, is replaced on its own. */
  lemma ByLinesCons(l: string, rest: string, lit: string, ps: seq<Piece>, grouped: bool)
    requires NoTerminator(l) && RefsBelow(ps, GroupCount(grouped) + 1)
    ensures ByLines(l + "\n" + rest, lit, ps, grouped) ==
      ReplaceInLine(l, lit, ps, grouped) + "\n" + ByLines(rest, lit, ps, grouped)
  {
    var s := (l + "\n") + rest;
    LineEndIs(s, 0, |l|);
    assert s[..|l|] == l && s[|l|] == '\n' && s[|l| + 1..] == rest;
    ByLinesSplit(s, |l|, l, '\n', rest, lit, ps, grouped);
  }

  /** On lines joined by `\n`, replacing line by line replaces each of the
      lines. */
  lemma {:induction false} ByLinesJoin(lines: seq<string>, lit: string, ps: seq<Piece>, grouped: bool)
    requires |lines| >= 1 && RefsBelow(ps, GroupCount(grouped) + 1)
    requires forall k :: 0 <= k < |lines| ==> NoTerminator(lines[k])
    ensures ByLines(Join(lines, "\n"), lit, ps, grouped) == Join(ReplaceEachLine(lines, lit, ps, grouped), "\n")
    decreases |lines|
  {
    var r := ReplaceEachLine(lines, lit, ps, grouped);
    if |lines| == 1 {
      ByLinesOne(lines[0], lit, ps, grouped);
    } else {
      ByLinesJoin(lines[1..], lit, ps, grouped);
      ByLinesCons(lines[0], Join(lines[1..], "\n"), lit, ps, grouped);
      assert r[1..] == ReplaceEachLine(lines[1..], lit, ps, grouped);
    }
  }

  /** An occurrence of text without line terminators cannot cross the
      line break at `|a|`. */
  lemma NoOccurrenceAcross(s: string, a: string, lit: string, t: nat)
    requires NoTerminator(lit) && |a| < |s| && s[|a|] == '\n' && t <= |a| < t + |lit|
    ensures !OccursAt(s, lit, t)
  {
    OccursAtPointwise(s, lit, t);
    assert !IsLineTerminator(lit[|a| - t]);
    assert t + (|a| - t) == |a|;
  }

  /** Text without line terminators occurs in `a + "\n" + b` exactly when it
      occurs in `a` or in `b`. */
  lemma ContainsAcrossBreak(a: string, b: string, lit: string)
    requires NoTerminator(lit)
    ensures Contains(a + "\n" + b, lit) <==> Contains(a, lit) || Contains(b, lit)
  {
    var s := a + "\n" + b;
    forall t: nat | t <= |s| && OccursAt(s, lit, t) ensures Contains(a, lit) || Contains(b, lit) {
      OccursAtPointwise(s, lit, t);
      if t + |lit| <= |a| {
        OccursAtPointwise(a, lit, t);
        assert OccursAt(a, lit, t);
      } else if t > |a| {
        var u := t - |a| - 1;
        OccursAtPointwise(b, lit, u);
        assert OccursAt(b, lit, u);
      } else {
        NoOccurrenceAcross(s, a, lit, t);
      }
    }
    forall t: nat | t <= |a| && OccursAt(a, lit, t) ensures Contains(s, lit) {
      OccursAtPointwise(a, lit, t);
      OccursAtPointwise(s, lit, t);
      assert OccursAt(s, lit, t);
    }
    forall t: nat | t <= |b| && OccursAt(b, lit, t) ensures Contains(s, lit) {
      OccursAtPointwise(b, lit, t);
      OccursAtPointwise(s, lit, |a| + 1 + t);
      assert OccursAt(s, lit, |a| + 1 + t);
    }
  }

  /** Text without line terminators occurs in lines joined by `\n` exactly
      when it occurs in one of the lines. */
  lemma {:induction false} ContainsLines(lines: seq<string>, lit: string)
    requires |lines| >= 1 && NoTerminator(lit)
    ensures Contains(Join(lines, "\n"), lit) <==> exists k :: 0 <= k < |lines| && Contains(lines[k], lit)
    decreases |lines|
  {
    if |lines| > 1 {
      ContainsLines(lines[1..], lit);
      ContainsAcrossBreak(lines[0], Join(lines[1..], "\n"), lit);
      if exists k :: 0 <= k < |lines| && Contains(lines[k], lit) {
        var k :| 0 <= k < |lines| && Contains(lines[k], lit);
        if k > 0 { assert lines[1..][k - 1] == lines[k]; }
      }
      if exists k :: 0 <= k < |lines| - 1 && Contains(lines[1..][k], lit) {
        var k :| 0 <= k < |lines| - 1 && Contains(lines[1..][k], lit);
        assert lines[k + 1] == lines[1..][k];
      }
    }
  }

  /** `ReplaceLines` on lines joined by `\n`: the lines are replaced one by
      one; without `lit` in any line the text comes back as it is. */
  lemma ReplaceLinesJoin(lines: seq<string>, lit: string, rep: string, grouped: bool)
    requires |lit| > 0 && NoTerminator(lit) && |lines| >= 1
    requires forall k :: 0 <= k < |lines| ==> NoTerminator(lines[k])
    ensures ReplaceLines(Join(lines, "\n"), lit, rep, grouped) ==
      if forall k :: 0 <= k < |lines| ==> !Contains(lines[k], lit) then Some(Join(lines, "\n"))
      else match Parse(rep, GroupCount(grouped))
        case None => None
        case Some(ps) => Some(Join(ReplaceEachLine(lines, lit, ps, grouped), "\n"))
  {
    ContainsLines(lines, lit);
    ReplaceLinesByLines(Join(lines, "\n"), lit, rep, grouped);
    match Parse(rep, GroupCount(grouped))
    case None =>
    case Some(ps) => ByLinesJoin(lines, lit, ps, grouped);
  }

  /** Lower-casing adds no line terminator. */
  lemma NoTerminatorLower(x: string)
    requires NoTerminator(x)
    ensures NoTerminator(Lower(x))
  {
    forall t | 0 <= t < |x| ensures !IsLineTerminator(Lower(x)[t]) {
      assert !IsLineTerminator(x[t]);
    }
  }

  /** Ignoring case, text without line terminators occurs in lines joined
      by `\n` exactly when it occurs in one of the lines. */
  lemma ContainsIgnoreCaseLines(lines: seq<string>, lit: string)
    requires |lines| >= 1 && NoTerminator(lit)
    ensures ContainsIgnoreCase(Join(lines, "\n"), lit) <==>
      exists k :: 0 <= k < |lines| && ContainsIgnoreCase(lines[k], lit)
  {
    NoTerminatorLower(lit);
    LowerJoin(lines);
    ContainsLines(LowerEach(lines), Lower(lit));
  }

  /** Plain replacement text parses, and every match becomes that text. */
  lemma ParsePlain(x: string) returns (ps: seq<Piece>)
    requires Plain(x)
    ensures Parse(x, 0) == Some(ps) && RefsBelow(ps, 1)
    ensures forall m :: Fill(ps, [m]) == x
  {
    ExpandPlain(x, [""]);
    ps := Parse(x, 0).value;
    forall m ensures Fill(ps, [m]) == x {
      ExpandPlain(x, [m]);
    }
  }

  /** The insertion replacement parses, and puts `x` and a line break in
      front of every match. */
  lemma ParseInsert(x: string) returns (ps: seq<Piece>)
    requires Plain(x)
    ensures Parse(x + "\n$1", 1) == Some(ps) && RefsBelow(ps, 2)
    ensures forall m :: Fill(ps, [m, m]) == x + "\n" + m
  {
    ExpandInsert(x, "");
    ps := Parse(x + "\n$1", 1).value;
    forall m ensures Fill(ps, [m, m]) == x + "\n" + m {
      ExpandInsert(x, m);
    }
  }

  /** Text that a line starts with is found at the start of that line. */
  lemma IndexAtStart(l: string, lit: string)
    requires OccursAt(l, lit, 0)
    ensures IndexFrom(l, lit, 0) == Some(0)
  {
  }

  /** Text that a line does not contain is not found in it. */
  lemma IndexAbsent(l: string, lit: string)
    requires !Contains(l, lit)
    ensures IndexFrom(l, lit, 0).None?
  {
  }

  /** `s.replace(Regex(lit + ".*"), x)` on lines joined by `\n`, when only
      line `k` holds `lit`, and at its start: line `k` becomes `x`. */
  lemma FillAtOne(lines: seq<string>, k: nat, lit: string, x: string)
    requires |lit| > 0 && NoTerminator(lit) && Plain(x) && k < |lines|
    requires forall i :: 0 <= i < |lines| ==> NoTerminator(lines[i])
    requires OccursAt(lines[k], lit, 0)
    requires forall i :: 0 <= i < |lines| && i != k ==> !Contains(lines[i], lit)
    ensures ReplaceLines(Join(lines, "\n"), lit, x, false) == Some(Join(lines[k := x], "\n"))
  {
    var ps := ParsePlain(x);
    ReplaceLinesJoin(lines, lit, x, false);
    assert Contains(lines[k], lit);
    var r := ReplaceEachLine(lines, lit, ps, false);
    forall i | 0 <= i < |lines| ensures r[i] == lines[k := x][i] {
      if i == k {
        IndexAtStart(lines[k], lit);
        assert Groups(lines[k][0..], false) == [lines[k][0..]];
      } else {
        IndexAbsent(lines[i], lit);
      }
    }
    assert r == lines[k := x];
  }

  /** The lines after the insertion replacement, when only line `k` holds
      `lit`, and at its start. */
  lemma InsertEachAtOne(lines: seq<string>, k: nat, lit: string, x: string, ps: seq<Piece>)
    requires k < |lines| && RefsBelow(ps, 2)
    requires forall m :: Fill(ps, [m, m]) == x + "\n" + m
    requires OccursAt(lines[k], lit, 0)
    requires forall i :: 0 <= i < |lines| && i != k ==> !Contains(lines[i], lit)
    ensures ReplaceEachLine(lines, lit, ps, true) == lines[..k] + [x + "\n" + lines[k]] + lines[k + 1..]
  {
    var r := ReplaceEachLine(lines, lit, ps, true);
    var v := x + "\n" + lines[k];
    forall i | 0 <= i < |lines| ensures r[i] == lines[k := v][i] {
      if i == k {
        IndexAtStart(lines[k], lit);
        assert Groups(lines[k][0..], true) == [lines[k], lines[k]];
      } else {
        IndexAbsent(lines[i], lit);
      }
    }
    assert r == lines[k := v];
  }

  /** `s.replace(Regex("(" + lit + ".*)"), x + "\n$1")` on lines joined by
      `\n`, when only line `k` holds `lit`, and at its start: `x` becomes a
      line of its own in front of line `k`. */
  lemma InsertAtOne(lines: seq<string>, k: nat, lit: string, x: string)
    requires |lit| > 0 && NoTerminator(lit) && Plain(x) && k < |lines|
    requires forall i :: 0 <= i < |lines| ==> NoTerminator(lines[i])
    requires OccursAt(lines[k], lit, 0)
    requires forall i :: 0 <= i < |lines| && i != k ==> !Contains(lines[i], lit)
    ensures ReplaceLines(Join(lines, "\n"), lit, x + "\n$1", true) == Some(Join(lines[..k] + [x] + lines[k..], "\n"))
  {
    var ps := ParseInsert(x);
    ReplaceLinesSome(lines, k, lit, x + "\n$1", true, ps);
    InsertEachAtOne(lines, k, lit, x, ps);
    JoinInserted(lines, k, x);
  }

  /** When some line holds `lit` and the replacement parses, each line is
      replaced on its own. */
  lemma ReplaceLinesSome(lines: seq<string>, k: nat, lit: string, rep: string, grouped: bool, ps: seq<Piece>)
    requires |lit| > 0 && NoTerminator(lit) && k < |lines|
    requires forall i :: 0 <= i < |lines| ==> NoTerminator(lines[i])
    requires Contains(lines[k], lit) && Parse(rep, GroupCount(grouped)) == Some(ps)
    ensures ReplaceLines(Join(lines, "\n"), lit, rep, grouped) == Some(Join(ReplaceEachLine(lines, lit, ps, grouped), "\n"))
  {
    ReplaceLinesJoin(lines, lit, rep, grouped);
  }

  /** Line `k` split in two at a line break is `x` put before it. */
  lemma JoinInserted(lines: seq<string>, k: nat, x: string)
    requires k < |lines|
    ensures Join(lines[..k] + [x + "\n" + lines[k]] + lines[k + 1..], "\n") == Join(lines[..k] + [x] + lines[k..], "\n")
  {
    JoinSplitElement(lines[..k], x, lines[k], lines[k + 1..], "\n");
    assert lines[..k] + [x, lines[k]] + lines[k + 1..] == lines[..k] + [x] + lines[k..];
  }
}
