/** `GitHubService.escapeJsonString` and the JSON string syntax of section 7
    of RFC 8259 it is meant to produce. */
module GitHubEscape {
  import opened Wrappers
  import opened Text

  const Backspace: char := '\U{8}'
  const FormFeed: char := '\U{C}'

  // ---------------------------------------------------------------------
  // The chained replacement, as written

  /** Kotlin's `replace` of a one-character string, as a character map. */
  function ReplaceChar(s: string, c: char, t: string): (r: string)
    decreases |s|
  {
    if |s| == 0 then [] else (if s[0] == c then t else [s[0]]) + ReplaceChar(s[1..], c, t)
  }

  /** `escapeJsonString`: the seven `replace` calls of `Rules`, applied in
      order, backslash first.  The chain equals the per-character map:
      replacing the backslash first means no escape written by a later step
      is escaped again. */
  function EscapeChain(input: string): (r: string)
    ensures r == Escape(input)
  {
    EscapeWithNone(input);
    assert Rules[..0] == [];
    ChainFromMap(input, 0);
    EscapeWithRules(input);
    ChainFrom(input, 0)
  }

  /** The `replace` calls from the `k`-th on. */
  function ChainFrom(s: string, k: nat): string
    requires k <= |Rules|
    decreases |Rules| - k
  {
    if k == |Rules| then s else ChainFrom(ReplaceAll(s, [Rules[k].c], Rules[k].esc), k + 1)
  }

  /** The per-character reading of the chain: each of the seven characters
      becomes its two-character escape, every other character stays. */
  function EscapeChar(x: char): (r: string)
    ensures |r| >= 1
  {
    if x == '\\' then "\\\\"
    else if x == '"' then "\\\""
    else if x == '\n' then "\\n"
    else if x == '\r' then "\\r"
    else if x == '\t' then "\\t"
    else if x == Backspace then "\\b"
    else if x == FormFeed then "\\f"
    else [x]
  }

  /** The characters the chain escapes. */
  predicate Escaped(x: char) {
    x == '\\' || x == '"' || x == '\n' || x == '\r' || x == '\t' || x == Backspace || x == FormFeed
  }

  /** Text holding no control character that the chain leaves raw. */
  predicate ChainSafe(s: string) {
    forall i :: 0 <= i < |s| ==> s[i] >= ' ' || Escaped(s[i])
  }

  /** The chain's output, character by character. */
  function Escape(s: string): (r: string)
    ensures |r| >= |s|
    decreases |s|
  {
    if |s| == 0 then [] else EscapeChar(s[0]) + Escape(s[1..])
  }

  // ---------------------------------------------------------------------
  // Composition of the chain

  /** One `replace` step: a character and the text that replaces it. */
  datatype Rule = Rule(c: char, esc: string)

  /** The steps of the chain, in order. */
  const Rules: seq<Rule> := [
    Rule('\\', "\\\\"), Rule('"', "\\\""), Rule('\n', "\\n"), Rule('\r', "\\r"),
    Rule('\t', "\\t"), Rule(Backspace, "\\b"), Rule(FormFeed, "\\f")]

  /** The text the first rule for `x` gives, or `x` itself. */
  function Apply(rules: seq<Rule>, x: char): string
    decreases |rules|
  {
    if |rules| == 0 then [x]
    else if rules[0].c == x then rules[0].esc
    else Apply(rules[1..], x)
  }

  /** Every character mapped through `Apply`. */
  function EscapeWith(rules: seq<Rule>, s: string): string
    decreases |s|
  {
    if |s| == 0 then [] else Apply(rules, s[0]) + EscapeWith(rules, s[1..])
  }

  /** No rule's text holds `c`. */
  predicate Avoids(rules: seq<Rule>, c: char) {
    forall k, i :: 0 <= k < |rules| && 0 <= i < |rules[k].esc| ==> rules[k].esc[i] != c
  }

  lemma {:induction false} ReplaceAllFromChar(s: string, c: char, t: string, p: nat)
    requires p <= |s|
    ensures ReplaceAllFrom(s, [c], t, p) == ReplaceChar(s[p..], c, t)
    decreases |s| - p
  {
    if p < |s| {
      OccursAtPointwise(s, [c], p);
      ReplaceAllFromChar(s, c, t, p + 1);
      assert s[p..][1..] == s[p + 1..];
    }
  }

  /** Replacing a one-character string is mapping that character. */
  lemma ReplaceAllChar(s: string, c: char, t: string)
    ensures ReplaceAll(s, [c], t) == ReplaceChar(s, c, t)
  {
    ReplaceAllFromChar(s, c, t, 0);
    assert s[0..] == s;
  }

  lemma {:induction false} ReplaceCharConcat(a: string, b: string, c: char, t: string)
    ensures ReplaceChar(a + b, c, t) == ReplaceChar(a, c, t) + ReplaceChar(b, c, t)
    decreases |a|
  {
    if |a| > 0 {
      ReplaceCharConcat(a[1..], b, c, t);
      assert (a + b)[1..] == a[1..] + b;
    } else {
      assert a + b == b;
    }
  }

  lemma {:induction false} ReplaceCharAbsent(a: string, c: char, t: string)
    requires forall i :: 0 <= i < |a| ==> a[i] != c
    ensures ReplaceChar(a, c, t) == a
    decreases |a|
  {
    if |a| > 0 {
      ReplaceCharAbsent(a[1..], c, t);
    }
  }

  lemma {:induction false} ApplyAppend(rules: seq<Rule>, c: char, t: string, x: char)
    requires Avoids(rules, c)
    ensures ReplaceChar(Apply(rules, x), c, t) == Apply(rules + [Rule(c, t)], x)
    decreases |rules|
  {
    if |rules| == 0 {
      assert rules + [Rule(c, t)] == [Rule(c, t)];
    } else if rules[0].c == x {
      assert forall i :: 0 <= i < |rules[0].esc| ==> rules[0].esc[i] != c;
      ReplaceCharAbsent(rules[0].esc, c, t);
    } else {
      assert Avoids(rules[1..], c) by {
        forall k, i | 0 <= k < |rules[1..]| && 0 <= i < |rules[1..][k].esc|
          ensures rules[1..][k].esc[i] != c
        {
          assert rules[1..][k] == rules[k + 1];
        }
      }
      ApplyAppend(rules[1..], c, t, x);
      assert (rules + [Rule(c, t)])[1..] == rules[1..] + [Rule(c, t)];
    }
  }

  /** A further step of the chain maps every character through the longer
      rule list, as long as no earlier escape contains the new character. */
  lemma {:induction false} EscapeWithStep(rules: seq<Rule>, c: char, t: string, s: string)
    requires Avoids(rules, c)
    ensures ReplaceChar(EscapeWith(rules, s), c, t) == EscapeWith(rules + [Rule(c, t)], s)
    decreases |s|
  {
    if |s| > 0 {
      ReplaceCharConcat(Apply(rules, s[0]), EscapeWith(rules, s[1..]), c, t);
      ApplyAppend(rules, c, t, s[0]);
      EscapeWithStep(rules, c, t, s[1..]);
    }
  }

  lemma {:induction false} EscapeWithNone(s: string)
    ensures EscapeWith([], s) == s
    decreases |s|
  {
    if |s| > 0 {
      EscapeWithNone(s[1..]);
    }
  }

  lemma {:induction false} EscapeWithRules(s: string)
    ensures EscapeWith(Rules, s) == Escape(s)
    decreases |s|
  {
    if |s| > 0 {
      ApplyRules(s[0]);
      EscapeWithRules(s[1..]);
    }
  }

  /** Each escape is a backslash followed by a printable character. */
  predicate EscapeText(t: string) {
    |t| == 2 && t[0] == '\\' && t[1] in "\\\"nrtbf"
  }

  lemma RulesShape(k: nat)
    requires k < |Rules|
    ensures EscapeText(Rules[k].esc)
    ensures k >= 1 ==> Rules[k].c != '\\'
    ensures k >= 2 ==> Rules[k].c < ' '
  {
  }

  lemma AvoidsBefore(k: nat)
    requires k < |Rules|
    ensures Avoids(Rules[..k], Rules[k].c)
  {
    var c := Rules[k].c;
    forall j, i | 0 <= j < |Rules[..k]| && 0 <= i < |Rules[..k][j].esc|
      ensures Rules[..k][j].esc[i] != c
    {
      assert Rules[..k][j] == Rules[j];
      RulesShape(j);
      RulesShape(k);
      if k == 1 {
        assert j == 0;
      }
    }
  }

  /** The chain from step `k` on, started from the first `k` steps' map,
      is the whole map. */
  lemma {:induction false} ChainFromMap(s: string, k: nat)
    requires k <= |Rules|
    ensures ChainFrom(EscapeWith(Rules[..k], s), k) == EscapeWith(Rules, s)
    decreases |Rules| - k
  {
    if k == |Rules| {
      assert Rules[..k] == Rules;
    } else {
      AvoidsBefore(k);
      ReplaceAllChar(EscapeWith(Rules[..k], s), Rules[k].c, Rules[k].esc);
      EscapeWithStep(Rules[..k], Rules[k].c, Rules[k].esc, s);
      assert Rules[..k] + [Rule(Rules[k].c, Rules[k].esc)] == Rules[..k + 1];
      ChainFromMap(s, k + 1);
    }
  }

  /** The rules give the escape table. */
  lemma ApplyRules(x: char)
    ensures Apply(Rules, x) == EscapeChar(x)
  {
    var r := Rules;
    if !Escaped(x) {
      ApplyMissing(r, x);
    } else {
      var k := if x == '\\' then 0 else if x == '"' then 1 else if x == '\n' then 2
        else if x == '\r' then 3 else if x == '\t' then 4 else if x == Backspace then 5 else 6;
      ApplyFirst(r, x, k);
    }
  }

  lemma {:induction false} ApplyMissing(rules: seq<Rule>, x: char)
    requires forall k :: 0 <= k < |rules| ==> rules[k].c != x
    ensures Apply(rules, x) == [x]
    decreases |rules|
  {
    if |rules| > 0 {
      ApplyMissing(rules[1..], x);
    }
  }

  lemma {:induction false} ApplyFirst(rules: seq<Rule>, x: char, k: nat)
    requires k < |rules| && rules[k].c == x
    requires forall j :: 0 <= j < k ==> rules[j].c != x
    ensures Apply(rules, x) == rules[k].esc
    decreases |rules|
  {
    if k > 0 {
      ApplyFirst(rules[1..], x, k - 1);
    }
  }

  // ---------------------------------------------------------------------
  // Reading a JSON string back (section 7 of RFC 8259)

  /** The character a two-character escape `\x` stands for. */
  function ShortEscape(x: char): (r: Option<char>)
    ensures r.Some? <==> x in "\"\\/bfnrt"
  {
    if x == '"' then Some('"') else if x == '\\' then Some('\\') else if x == '/' then Some('/')
    else if x == 'b' then Some(Backspace) else if x == 'f' then Some(FormFeed)
    else if x == 'n' then Some('\n') else if x == 'r' then Some('\r') else if x == 't' then Some('\t')
    else None
  }

  function HexValue(x: char): (r: Option<nat>)
    ensures r.Some? ==> r.value < 16
  {
    if '0' <= x <= '9' then Some(x as nat - '0' as nat)
    else if 'a' <= x <= 'f' then Some(x as nat - 'a' as nat + 10)
    else if 'A' <= x <= 'F' then Some(x as nat - 'A' as nat + 10)
    else None
  }

  /** The code unit four hex digits spell. */
  function Hex4(h: string): (r: Option<nat>)
    requires |h| == 4
    ensures r.Some? ==> r.value < 0x10000
  {
    match (HexValue(h[0]), HexValue(h[1]), HexValue(h[2]), HexValue(h[3]))
    case (Some(a), Some(b), Some(c), Some(d)) => Some(((a * 16 + b) * 16 + c) * 16 + d)
    case _ => None
  }

  function Prepend(x: char, r: Option<string>): (q: Option<string>)
    ensures q.Some? <==> r.Some?
    ensures q.Some? ==> q.value == [x] + r.value
  {
    match r
    case None => None
    case Some(t) => Some([x] + t)
  }

  /** The characters between the quotes of a JSON string, decoded: `None`
      when they hold a raw quote, a raw control character or a malformed
      escape.  A `\u` escape naming a surrogate is refused, as surrogate
      pairs are not modelled. */
  function Unescape(e: string): (r: Option<string>)
    ensures r.Some? ==> |r.value| <= |e|
    decreases |e|
  {
    if |e| == 0 then Some([])
    else if e[0] == '\\' then
      if |e| >= 2 && ShortEscape(e[1]).Some? then Prepend(ShortEscape(e[1]).value, Unescape(e[2..]))
      else if |e| >= 6 && e[1] == 'u' && Hex4(e[2..6]).Some? && !(0xD800 <= Hex4(e[2..6]).value < 0xE000)
      then Prepend(Hex4(e[2..6]).value as char, Unescape(e[6..]))
      else None
    else if e[0] == '"' || e[0] < ' ' then None
    else Prepend(e[0], Unescape(e[1..]))
  }

  /** `Unescape` on a two-character escape. */
  lemma UnescapeShort(e: string)
    requires |e| >= 2 && e[0] == '\\' && ShortEscape(e[1]).Some?
    ensures Unescape(e) == Prepend(ShortEscape(e[1]).value, Unescape(e[2..]))
  {
  }

  /** `Unescape` on a `\u` escape. */
  lemma UnescapeUnicode(e: string)
    requires |e| >= 6 && e[0] == '\\' && e[1] == 'u' && Hex4(e[2..6]).Some?
    requires !(0xD800 <= Hex4(e[2..6]).value < 0xE000)
    ensures Unescape(e) == Prepend(Hex4(e[2..6]).value as char, Unescape(e[6..]))
  {
  }

  /** `Unescape` on a character that stands for itself. */
  lemma UnescapePlain(e: string)
    requires |e| >= 1 && e[0] != '\\' && e[0] != '"' && e[0] >= ' '
    ensures Unescape(e) == Prepend(e[0], Unescape(e[1..]))
  {
  }

  /** One escape read back. */
  lemma UnescapeChar(x: char, rest: string)
    requires x >= ' ' || Escaped(x)
    ensures Unescape(EscapeChar(x) + rest) == Prepend(x, Unescape(rest))
  {
    var e := EscapeChar(x) + rest;
    if Escaped(x) {
      assert e[0] == '\\' && ShortEscape(e[1]) == Some(x);
      UnescapeShort(e);
      assert e[2..] == rest;
    } else {
      assert e[0] == x;
      UnescapePlain(e);
      assert e[1..] == rest;
    }
  }

  /** Reading back what the chain writes gives the input exactly when the
      input holds no control character other than the five it escapes. */
  lemma {:induction false} EscapeRoundTrip(s: string)
    ensures Unescape(Escape(s)).Some? <==> ChainSafe(s)
    ensures Unescape(Escape(s)).Some? ==> Unescape(Escape(s)).value == s
    decreases |s|
  {
    if |s| > 0 {
      EscapeRoundTrip(s[1..]);
      ChainSafeCons(s);
      if s[0] >= ' ' || Escaped(s[0]) {
        UnescapeChar(s[0], Escape(s[1..]));
        assert [s[0]] + s[1..] == s;
      } else {
        assert Escape(s) == [s[0]] + Escape(s[1..]);
      }
    }
  }

  /** `ChainSafe` one character at a time. */
  lemma ChainSafeCons(s: string)
    requires |s| > 0
    ensures ChainSafe(s) <==> (s[0] >= ' ' || Escaped(s[0])) && ChainSafe(s[1..])
  {
    if (s[0] >= ' ' || Escaped(s[0])) && ChainSafe(s[1..]) {
      forall i | 0 <= i < |s| ensures s[i] >= ' ' || Escaped(s[i]) {
        if i > 0 { assert s[i] == s[1..][i - 1]; }
      }
    }
  }

  /** The chain leaves none of the five control characters it handles. */
  lemma {:induction false} EscapeNoRawControl(s: string)
    ensures forall i :: 0 <= i < |Escape(s)| ==> Escape(s)[i] == '\\' || Escape(s)[i] == '"' || !Escaped(Escape(s)[i])
    decreases |s|
  {
    if |s| > 0 {
      EscapeNoRawControl(s[1..]);
      var h := EscapeChar(s[0]);
      var t := Escape(s[1..]);
      forall i | 0 <= i < |h + t|
        ensures (h + t)[i] == '\\' || (h + t)[i] == '"' || !Escaped((h + t)[i])
      {
        if i >= |h| {
          assert (h + t)[i] == t[i - |h|];
        }
      }
    }
  }

  // ---------------------------------------------------------------------
  // Escaping every control character

  const HexDigits: string := "0123456789abcdef"

  /** The escape table of section 7 of RFC 8259: the chain's seven escapes,
      and `\u00XX` for every other character below U+0020. */
  function EscapeCharJson(x: char): (r: string)
    ensures forall i :: 0 <= i < |r| ==> r[i] >= ' '
  {
    if x < ' ' && !Escaped(x) then "\\u00" + [HexDigits[x as int / 16], HexDigits[x as int % 16]]
    else EscapeChar(x)
  }

  /** `escapeJsonString` with every control character escaped. */
  function EscapeJson(s: string): (r: string)
    ensures forall i :: 0 <= i < |r| ==> r[i] >= ' '
    decreases |s|
  {
    if |s| == 0 then [] else
      var h := EscapeCharJson(s[0]);
      var t := EscapeJson(s[1..]);
      assert forall i :: |h| <= i < |h + t| ==> (h + t)[i] == t[i - |h|];
      h + t
  }

  lemma UnescapeCharJson(x: char, rest: string)
    ensures Unescape(EscapeCharJson(x) + rest) == Prepend(x, Unescape(rest))
  {
    if x < ' ' && !Escaped(x) {
      var e := EscapeCharJson(x) + rest;
      var n := x as int;
      assert e[2..6] == "00" + [HexDigits[n / 16], HexDigits[n % 16]];
      assert HexValue(HexDigits[n / 16]) == Some(n / 16);
      assert HexValue(HexDigits[n % 16]) == Some(n % 16);
      assert Hex4(e[2..6]) == Some(n);
      UnescapeUnicode(e);
      assert e[6..] == rest;
    } else {
      UnescapeChar(x, rest);
    }
  }

  /** Reading back the corrected escape always gives the input. */
  lemma {:induction false} EscapeJsonRoundTrip(s: string)
    ensures Unescape(EscapeJson(s)) == Some(s)
    decreases |s|
  {
    if |s| > 0 {
      EscapeJsonRoundTrip(s[1..]);
      UnescapeCharJson(s[0], EscapeJson(s[1..]));
      assert [s[0]] + s[1..] == s;
    }
  }

  /** The two escapes agree on every input the chain already handles. */
  lemma {:induction false} EscapeJsonExtends(s: string)
    requires forall i :: 0 <= i < |s| ==> s[i] >= ' ' || Escaped(s[i])
    ensures EscapeJson(s) == Escape(s)
    decreases |s|
  {
    if |s| > 0 {
      EscapeJsonExtends(s[1..]);
    }
  }

  /** U+0001 passes through the chain raw, and the result is not a valid
      JSON string. */
  lemma ControlCharLeftRaw()
    ensures Escape("\U{1}") == "\U{1}"
    ensures Unescape(Escape("\U{1}")) == None
    ensures Unescape(EscapeJson("\U{1}")) == Some("\U{1}")
  {
    EscapeJsonRoundTrip("\U{1}");
  }
}
