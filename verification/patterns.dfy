/** The plugin's regular expressions are small and fixed: a sequence of
    literal characters, optional characters (`-?`) and greedy runs of a
    character class (`[A-Z]+`, `\d*`, `[^"]+`, `\s*`).  This module models
    them as patterns with two readings:

    - `Matches(p, s, i, j)`: the declarative one, `s[i..j]` is a word of `p`;
    - `Scan(p, s, i)`: a greedy, deterministic left-to-right matcher.

    For a *separated* pattern, where no run or optional character can take a
    character the rest of the pattern could begin with, `Scan` finds exactly
    the longest word of `p` starting at `i`.  In a separated pattern
    java.util.regex never has to backtrack into a run, so the first match its
    backtracking search reports is this longest one.  `FindFrom` adds the
    leftmost-start rule of `Matcher.find`. */
module Patterns {
  import opened Wrappers
  import opened Text

  datatype Class = Upper | Digit | Space | Except(c: char)

  /** `\s` of java.util.regex: space, TAB, LF, VT, FF, CR. */
  predicate IsRegexSpace(c: char) { c == ' ' || '\t' <= c <= '\r' }

  predicate In(k: Class, c: char) {
    match k
    case Upper => IsUpper(c)
    case Digit => IsDigit(c)
    case Space => IsRegexSpace(c)
    case Except(d) => c != d
  }

  /** A literal `c`, an optional `c?`, `[k]+` or `[k]*`. */
  datatype Elem = Lit(c: char) | Opt(c: char) | Plus(k: Class) | Star(k: Class)

  type Pattern = seq<Elem>

  /** `s[i..j]` is a word of `p`. */
  predicate Matches(p: Pattern, s: string, i: nat, j: nat)
    requires i <= j <= |s|
    decreases j - i, |p|
  {
    if |p| == 0 then i == j
    else match p[0]
      case Lit(c) => i < j && s[i] == c && Matches(p[1..], s, i + 1, j)
      case Opt(c) => Matches(p[1..], s, i, j) || (i < j && s[i] == c && Matches(p[1..], s, i + 1, j))
      case Plus(k) => i < j && In(k, s[i]) && Matches([Star(k)] + p[1..], s, i + 1, j)
      case Star(k) => Matches(p[1..], s, i, j) || (i < j && In(k, s[i]) && Matches(p, s, i + 1, j))
  }

  /** Every character of `s[i..j]` is in `k`. */
  predicate AllIn(k: Class, s: string, i: nat, j: nat)
    requires i <= j <= |s|
  {
    forall t :: i <= t < j ==> In(k, s[t])
  }

  /** The end of the maximal run of class `k` starting at `i`. */
  function RunEnd(k: Class, s: string, i: nat): (e: nat)
    requires i <= |s|
    ensures i <= e <= |s|
    ensures AllIn(k, s, i, e)
    ensures e == |s| || !In(k, s[e])
    decreases |s| - i
  {
    if i < |s| && In(k, s[i]) then RunEnd(k, s, i + 1) else i
  }

  /** The end of the maximal run of `k` from `i` is the first position not
      in `k`. */
  lemma RunEndAt(k: Class, s: string, i: nat, j: nat)
    requires i <= j <= |s| && AllIn(k, s, i, j) && (j == |s| || !In(k, s[j]))
    ensures RunEnd(k, s, i) == j
  {
  }

  /** A run of class `c` in a word written at `m` ends where the word
      says it does. */
  lemma RunEndOfWord(c: Class, s: string, m: nat, k: string, lo: nat, hi: nat)
    requires OccursAt(s, k, m) && lo <= hi <= |k|
    requires forall t :: lo <= t < hi ==> In(c, k[t])
    requires m + hi == |s| || !In(c, s[m + hi])
    ensures RunEnd(c, s, m + lo) == m + hi
  {
    OccursAtPointwise(s, k, m);
    assert AllIn(c, s, m + lo, m + hi) by {
      forall x | m + lo <= x < m + hi ensures In(c, s[x]) { assert s[m + (x - m)] == k[x - m]; }
    }
    RunEndAt(c, s, m + lo, m + hi);
  }

  /** Greedy matching from `i`: the end of the match, if any. */
  function Scan(p: Pattern, s: string, i: nat): (r: Option<nat>)
    requires i <= |s|
    ensures r.Some? ==> i <= r.value <= |s|
    decreases |p|
  {
    if |p| == 0 then Some(i)
    else match p[0]
      case Lit(c) => if i < |s| && s[i] == c then Scan(p[1..], s, i + 1) else None
      case Opt(c) => if i < |s| && s[i] == c then Scan(p[1..], s, i + 1) else Scan(p[1..], s, i)
      case Plus(k) => if i < |s| && In(k, s[i]) then Scan(p[1..], s, RunEnd(k, s, i)) else None
      case Star(k) => Scan(p[1..], s, RunEnd(k, s, i))
  }

  // ---------------------------------------------------------------------
  // Separation

  /** The two classes share no character. */
  predicate Disjoint(k1: Class, k2: Class) {
    !k1.Except? && !k2.Except? && k1 != k2
  }

  /** `c` cannot begin a non-empty word of `p`. */
  predicate AvoidsChar(c: char, p: Pattern)
    decreases |p|
  {
    if |p| == 0 then true
    else match p[0]
      case Lit(d) => c != d
      case Opt(d) => c != d && AvoidsChar(c, p[1..])
      case Plus(k) => !In(k, c)
      case Star(k) => !In(k, c) && AvoidsChar(c, p[1..])
  }

  /** No character of `k` can begin a non-empty word of `p`. */
  predicate AvoidsClass(k: Class, p: Pattern)
    decreases |p|
  {
    if |p| == 0 then true
    else match p[0]
      case Lit(d) => !In(k, d)
      case Opt(d) => !In(k, d) && AvoidsClass(k, p[1..])
      case Plus(k2) => Disjoint(k, k2)
      case Star(k2) => Disjoint(k, k2) && AvoidsClass(k, p[1..])
  }

  /** No run or optional character of `p` can take a character that what
      follows it could begin with. */
  predicate Separated(p: Pattern)
    decreases |p|
  {
    if |p| == 0 then true
    else
      && (match p[0]
          case Lit(_) => true
          case Opt(c) => AvoidsChar(c, p[1..])
          case Plus(k) => AvoidsClass(k, p[1..])
          case Star(k) => AvoidsClass(k, p[1..]))
      && Separated(p[1..])
  }

  lemma {:induction false} AvoidsClassChar(k: Class, p: Pattern, c: char)
    requires AvoidsClass(k, p) && In(k, c)
    ensures AvoidsChar(c, p)
    decreases |p|
  {
    if |p| > 0 && (p[0].Opt? || p[0].Star?) {
      AvoidsClassChar(k, p[1..], c);
    }
  }

  /** A non-empty word of `p` begins with a character `p` does not avoid. */
  lemma {:induction false} FirstChar(p: Pattern, s: string, i: nat, j: nat)
    requires i < j <= |s| && Matches(p, s, i, j)
    ensures !AvoidsChar(s[i], p)
    decreases |p|
  {
    match p[0]
    case Lit(c) =>
    case Opt(c) =>
      if Matches(p[1..], s, i, j) {
        FirstChar(p[1..], s, i, j);
      }
    case Plus(k) =>
    case Star(k) =>
      if Matches(p[1..], s, i, j) {
        FirstChar(p[1..], s, i, j);
      }
  }

  /** Whether `p` has an empty word does not depend on the text or position. */
  lemma {:induction false} EmptyAnywhere(p: Pattern, s: string, i: nat, t: string, m: nat)
    requires i <= |s| && m <= |t| && Matches(p, s, i, i)
    ensures Matches(p, t, m, m)
    decreases |p|
  {
    if |p| > 0 {
      match p[0]
      case Opt(c) => EmptyAnywhere(p[1..], s, i, t, m);
      case Star(k) => EmptyAnywhere(p[1..], s, i, t, m);
    }
  }

  /** A word of `[k]* q` is a run of `k` followed by a word of `q`. */
  lemma {:induction false} StarSplit(k: Class, q: Pattern, s: string, i: nat, j: nat)
    requires i <= j <= |s| && Matches([Star(k)] + q, s, i, j)
    ensures exists m :: i <= m <= j && AllIn(k, s, i, m) && Matches(q, s, m, j)
    decreases j - i
  {
    var p := [Star(k)] + q;
    assert p[1..] == q;
    if !Matches(q, s, i, j) {
      StarSplit(k, q, s, i + 1, j);
      var m :| i + 1 <= m <= j && AllIn(k, s, i + 1, m) && Matches(q, s, m, j);
      assert AllIn(k, s, i, m);
    } else {
      assert AllIn(k, s, i, i);
    }
  }

  /** A run of `k` followed by a word of `q` is a word of `[k]* q`. */
  lemma {:induction false} StarJoin(k: Class, q: Pattern, s: string, i: nat, m: nat, j: nat)
    requires i <= m <= j <= |s| && AllIn(k, s, i, m) && Matches(q, s, m, j)
    ensures Matches([Star(k)] + q, s, i, j)
    decreases m - i
  {
    var p := [Star(k)] + q;
    assert p[1..] == q;
    if i < m {
      StarJoin(k, q, s, i + 1, m, j);
    }
  }

  /** Greedy scanning only reports words of the pattern. */
  lemma {:induction false} ScanSound(p: Pattern, s: string, i: nat)
    requires i <= |s| && Scan(p, s, i).Some?
    ensures Matches(p, s, i, Scan(p, s, i).value)
    decreases |p|
  {
    if |p| > 0 {
      var j := Scan(p, s, i).value;
      match p[0]
      case Lit(c) => ScanSound(p[1..], s, i + 1);
      case Opt(c) =>
        if i < |s| && s[i] == c {
          ScanSound(p[1..], s, i + 1);
        } else {
          ScanSound(p[1..], s, i);
        }
      case Plus(k) =>
        var e := RunEnd(k, s, i);
        ScanSound(p[1..], s, e);
        StarJoin(k, p[1..], s, i + 1, e, j);
      case Star(k) =>
        var e := RunEnd(k, s, i);
        ScanSound(p[1..], s, e);
        StarJoin(k, p[1..], s, i, e, j);
        assert [Star(k)] + p[1..] == p;
    }
  }

  /** After a run of class `k` that stops inside the maximal run, a
      separated rest can only match the empty word, so the scan, which
      continues at the end of the run, still finds a match at least as long. */
  lemma {:induction false} RunThenRest(k: Class, q: Pattern, s: string, i: nat, m: nat, j: nat)
    requires i <= m <= j <= |s| && AllIn(k, s, i, m) && Matches(q, s, m, j)
    requires AvoidsClass(k, q) && Separated(q)
    ensures Scan(q, s, RunEnd(k, s, i)).Some? && j <= Scan(q, s, RunEnd(k, s, i)).value
    decreases |q| + 1, 0
  {
    var e := RunEnd(k, s, i);
    assert m <= e;
    if m == e {
      ScanLongest(q, s, m, j);
    } else {
      if m < j {
        FirstChar(q, s, m, j);
        AvoidsClassChar(k, q, s[m]);
      }
      EmptyAnywhere(q, s, m, s, e);
      ScanLongest(q, s, e, e);
    }
  }

  /** For a separated pattern, greedy scanning finds a match whenever one
      exists, and it is the longest one. */
  lemma {:induction false} ScanLongest(p: Pattern, s: string, i: nat, j: nat)
    requires i <= j <= |s| && Matches(p, s, i, j) && Separated(p)
    ensures Scan(p, s, i).Some? && j <= Scan(p, s, i).value
    decreases |p|, 1
  {
    if |p| > 0 {
      var q := p[1..];
      match p[0]
      case Lit(c) =>
        ScanLongest(q, s, i + 1, j);
        assert Scan(p, s, i) == Scan(q, s, i + 1);
      case Opt(c) => ScanLongestOpt(c, p, s, i, j);
      case Plus(k) =>
        StarSplit(k, q, s, i + 1, j);
        var m :| i + 1 <= m <= j && AllIn(k, s, i + 1, m) && Matches(q, s, m, j);
        assert RunEnd(k, s, i) == RunEnd(k, s, i + 1);
        RunThenRest(k, q, s, i + 1, m, j);
        assert Scan(p, s, i) == Scan(q, s, RunEnd(k, s, i));
      case Star(k) =>
        assert [Star(k)] + q == p;
        StarSplit(k, q, s, i, j);
        var m :| i <= m <= j && AllIn(k, s, i, m) && Matches(q, s, m, j);
        RunThenRest(k, q, s, i, m, j);
        assert Scan(p, s, i) == Scan(q, s, RunEnd(k, s, i));
    }
  }

  /** `ScanLongest` for a pattern that begins with an optional character. */
  lemma {:induction false} ScanLongestOpt(c: char, p: Pattern, s: string, i: nat, j: nat)
    requires |p| > 0 && p[0] == Opt(c)
    requires i <= j <= |s| && Matches(p, s, i, j) && Separated(p)
    ensures Scan(p, s, i).Some? && j <= Scan(p, s, i).value
    decreases |p|, 0
  {
    var q := p[1..];
    if i < |s| && s[i] == c {
      assert Scan(p, s, i) == Scan(q, s, i + 1);
      if i < j && Matches(q, s, i + 1, j) {
        ScanLongest(q, s, i + 1, j);
      } else {
        if i < j {
          FirstChar(q, s, i, j);
        }
        EmptyAnywhere(q, s, i, s, i + 1);
        ScanLongest(q, s, i + 1, i + 1);
      }
    } else {
      ScanLongest(q, s, i, j);
      assert Scan(p, s, i) == Scan(q, s, i);
    }
  }

  /** Scanning a concatenation scans its parts one after the other. */
  lemma {:induction false} ScanAppend(p1: Pattern, p2: Pattern, s: string, i: nat)
    requires i <= |s|
    ensures Scan(p1 + p2, s, i) ==
      match Scan(p1, s, i)
      case None => None
      case Some(m) => Scan(p2, s, m)
    decreases |p1|
  {
    if |p1| == 0 {
      assert p1 + p2 == p2;
    } else {
      assert (p1 + p2)[0] == p1[0];
      assert (p1 + p2)[1..] == p1[1..] + p2;
      match p1[0]
      case Lit(c) =>
        if i < |s| && s[i] == c { ScanAppend(p1[1..], p2, s, i + 1); }
      case Opt(c) =>
        if i < |s| && s[i] == c { ScanAppend(p1[1..], p2, s, i + 1); }
        else { ScanAppend(p1[1..], p2, s, i); }
      case Plus(k) =>
        if i < |s| && In(k, s[i]) { ScanAppend(p1[1..], p2, s, RunEnd(k, s, i)); }
      case Star(k) => ScanAppend(p1[1..], p2, s, RunEnd(k, s, i));
    }
  }

  /** The pattern that matches the literal `w`. */
  function Lits(w: string): (p: Pattern)
    ensures |p| == |w|
    decreases |w|
  {
    if |w| == 0 then [] else [Lit(w[0])] + Lits(w[1..])
  }

  /** Literal characters never break separation. */
  lemma {:induction false} LitsSeparated(w: string, q: Pattern)
    requires Separated(q)
    ensures Separated(Lits(w) + q)
    decreases |w|
  {
    if |w| > 0 {
      LitsSeparated(w[1..], q);
      assert (Lits(w) + q)[1..] == Lits(w[1..]) + q;
    } else {
      assert Lits(w) + q == q;
    }
  }

  /** A group pattern that starts with a literal is separated when the rest
      of it is. */
  lemma GroupedLitsSeparated(w: string, rest: Pattern, grp: Pattern, post: Pattern)
    requires Separated(rest + grp + post)
    ensures Separated(Grouped(Lits(w) + rest, grp, post).Whole())
  {
    LitsSeparated(w, rest + grp + post);
    assert (Lits(w) + rest) + grp + post == Lits(w) + (rest + grp + post);
  }

  /** Scanning a literal that occurs at `i` moves past it. */
  lemma {:induction false} ScanLits(w: string, q: Pattern, s: string, i: nat)
    requires OccursAt(s, w, i)
    ensures Scan(Lits(w) + q, s, i) == Scan(q, s, i + |w|)
    decreases |w|
  {
    OccursAtPointwise(s, w, i);
    if |w| > 0 {
      assert s[i] == w[0];
      assert (Lits(w) + q)[1..] == Lits(w[1..]) + q;
      OccursAtPointwise(s, w[1..], i + 1);
      assert forall t :: 0 <= t < |w[1..]| ==> s[i + 1 + t] == w[1..][t] by {
        forall t | 0 <= t < |w[1..]| ensures s[i + 1 + t] == w[1..][t] {
          assert s[i + (t + 1)] == w[t + 1];
        }
      }
      ScanLits(w[1..], q, s, i + 1);
    } else {
      assert Lits(w) + q == q;
    }
  }

  /** A scan of `[k]+` alone is the maximal run of `k`. */
  lemma ScanPlus(k: Class, s: string, m: nat)
    requires m <= |s|
    ensures Scan([Plus(k)], s, m).Some? <==> m < |s| && In(k, s[m])
    ensures Scan([Plus(k)], s, m).Some? ==> Scan([Plus(k)], s, m).value == RunEnd(k, s, m)
  {
  }

  // ---------------------------------------------------------------------
  // Leftmost search (`Matcher.find`)

  /** The leftmost position at or after `i` where the scan succeeds, with the
      end of that match. */
  function FindFrom(p: Pattern, s: string, i: nat): (r: Option<(nat, nat)>)
    requires i <= |s|
    ensures r.Some? ==> i <= r.value.0 <= r.value.1 <= |s| && Scan(p, s, r.value.0) == Some(r.value.1)
    ensures r.Some? ==> forall a :: i <= a < r.value.0 ==> Scan(p, s, a).None?
    ensures r.None? ==> forall a :: i <= a <= |s| ==> Scan(p, s, a).None?
    decreases |s| - i
  {
    match Scan(p, s, i)
    case Some(j) => Some((i, j))
    case None => if i == |s| then None else FindFrom(p, s, i + 1)
  }

  /** `FindFrom` is `Matcher.find` for a separated pattern: the match starts
      at the leftmost position where the pattern has a word, and is the
      longest word there; no word starts anywhere when it reports nothing. */
  lemma FindSpec(p: Pattern, s: string, i: nat)
    requires i <= |s| && Separated(p)
    ensures FindFrom(p, s, i).Some? ==>
      var (a, b) := FindFrom(p, s, i).value;
      && Matches(p, s, a, b)
      && (forall j :: a <= j <= |s| && Matches(p, s, a, j) ==> j <= b)
      && (forall a', j :: i <= a' < a && a' <= j <= |s| ==> !Matches(p, s, a', j))
    ensures FindFrom(p, s, i).None? ==>
      forall a', j :: i <= a' <= j <= |s| ==> !Matches(p, s, a', j)
  {
    var r := FindFrom(p, s, i);
    if r.Some? {
      var (a, b) := r.value;
      ScanSound(p, s, a);
      forall j | a <= j <= |s| && Matches(p, s, a, j) ensures j <= b {
        ScanLongest(p, s, a, j);
      }
      forall a', j | i <= a' < a && a' <= j <= |s| ensures !Matches(p, s, a', j) {
        if Matches(p, s, a', j) { ScanLongest(p, s, a', j); }
      }
    } else {
      forall a', j | i <= a' <= j <= |s| ensures !Matches(p, s, a', j) {
        if Matches(p, s, a', j) { ScanLongest(p, s, a', j); }
      }
    }
  }

  // ---------------------------------------------------------------------
  // One capturing group

  /** The regex `pre (grp) post`. */
  datatype Grouped = Grouped(pre: Pattern, grp: Pattern, post: Pattern) {
    function Whole(): Pattern { pre + grp + post }
  }

  /** A one-character literal pattern reads that character. */
  lemma ScanOneLit(q: Pattern, c: char, s: string, n: nat)
    requires q == [Lit(c)] && n <= |s|
    ensures Scan(q, s, n) == if n < |s| && s[n] == c then Some(n + 1) else None
  {
    assert q[1..] == [];
  }

  /** A two-character literal pattern reads those characters. */
  lemma ScanTwoLits(q: Pattern, c: char, d: char, s: string, n: nat)
    requires q == [Lit(c), Lit(d)] && n <= |s|
    ensures Scan(q, s, n) == if n + 2 <= |s| && s[n] == c && s[n + 1] == d then Some(n + 2) else None
  {
    assert q[1..] == [Lit(d)];
    if n < |s| {
      ScanOneLit(q[1..], d, s, n + 1);
    }
  }

  /** A grouped match is a match of each part in turn. */
  lemma ScanGroupParts(g: Grouped, s: string, a: nat, m: nat, n: nat, b: nat)
    requires a <= |s| && ScanGroup(g, s, a) == Some((m, n, b))
    ensures Scan(g.pre, s, a) == Some(m) && Scan(g.grp, s, m) == Some(n) && Scan(g.post, s, n) == Some(b)
  {
  }

  /** The positions of a match of `g` at `a`: group start, group end, match end. */
  function ScanGroup(g: Grouped, s: string, a: nat): (r: Option<(nat, nat, nat)>)
    requires a <= |s|
    ensures r.Some? ==> a <= r.value.0 <= r.value.1 <= r.value.2 <= |s|
    ensures r.Some? <==> Scan(g.Whole(), s, a).Some?
    ensures r.Some? ==> Scan(g.Whole(), s, a).value == r.value.2
  {
    ScanAppend(g.pre + g.grp, g.post, s, a);
    ScanAppend(g.pre, g.grp, s, a);
    match Scan(g.pre, s, a)
    case None => None
    case Some(m) =>
      match Scan(g.grp, s, m)
      case None => None
      case Some(n) =>
        match Scan(g.post, s, n)
        case None => None
        case Some(b) => Some((m, n, b))
  }
  /** A group match whose fixed prefix ends at `m` and whose group does not
      match there. */
  lemma ScanGroupMiss(g: Grouped, s: string, a: nat, m: nat)
    requires a <= |s| && Scan(g.pre, s, a) == Some(m) && Scan(g.grp, s, m).None?
    ensures ScanGroup(g, s, a).None?
  {
  }

  /** A group match whose fixed prefix ends at `m` and whose group ends at
      `n`: the suffix decides. */
  lemma ScanGroupThen(g: Grouped, s: string, a: nat, m: nat, n: nat)
    requires a <= |s| && Scan(g.pre, s, a) == Some(m) && Scan(g.grp, s, m) == Some(n)
    ensures ScanGroup(g, s, a) == match Scan(g.post, s, n) case None => None case Some(b) => Some((m, n, b))
  {
  }

  /** `Regex.find(s)?.groupValues[1]`: the group of the leftmost match. */
  function FindGroup(g: Grouped, s: string): (r: Option<string>)
  {
    match FindFrom(g.Whole(), s, 0)
    case None => None
    case Some((a, _)) =>
      var (m, n, _) := ScanGroup(g, s, a).value;
      Some(s[m..n])
  }

  /** The group reported by `FindGroup` is a word of the group pattern,
      framed by words of `pre` and `post`, at the leftmost match. */
  lemma FindGroupSpec(g: Grouped, s: string)
    requires Separated(g.Whole())
    ensures FindGroup(g, s).Some? ==>
      exists a, m, n, b :: 0 <= a <= m <= n <= b <= |s|
        && Matches(g.pre, s, a, m) && Matches(g.grp, s, m, n) && Matches(g.post, s, n, b)
        && FindGroup(g, s).value == s[m..n]
        && (forall a', j :: 0 <= a' < a && a' <= j <= |s| ==> !Matches(g.Whole(), s, a', j))
    ensures FindGroup(g, s).None? ==>
      forall a', j :: 0 <= a' <= j <= |s| ==> !Matches(g.Whole(), s, a', j)
    ensures FindGroup(g, s).Some? ==>
      exists a', j :: 0 <= a' <= j <= |s| && Matches(g.Whole(), s, a', j)
  {
    FindSpec(g.Whole(), s, 0);
    match FindFrom(g.Whole(), s, 0)
    case None =>
    case Some((a, b0)) =>
      var (m, n, b) := ScanGroup(g, s, a).value;
      ScanGroupParts(g, s, a, m, n, b);
      FoundGroupMatches(g, s, a, m, n, b);
      assert FindGroup(g, s) == Some(s[m..n]);
  }

  /** The parts of a grouped match are words of their patterns. */
  lemma FoundGroupMatches(g: Grouped, s: string, a: nat, m: nat, n: nat, b: nat)
    requires a <= |s| && ScanGroup(g, s, a) == Some((m, n, b))
    requires Scan(g.pre, s, a) == Some(m) && Scan(g.grp, s, m) == Some(n) && Scan(g.post, s, n) == Some(b)
    ensures a <= m <= n <= b <= |s|
    ensures Matches(g.pre, s, a, m) && Matches(g.grp, s, m, n) && Matches(g.post, s, n, b)
    ensures Matches(g.Whole(), s, a, b)
  {
    ScanSound(g.pre, s, a);
    ScanSound(g.grp, s, m);
    ScanSound(g.post, s, n);
    ScanSound(g.Whole(), s, a);
  }

  /** When the pattern first matches at `a`, `FindGroup` reports the group
      of that match. */
  /** `p` matches nowhere in `s` before `a`. */
  predicate NoMatchBefore(p: Pattern, s: string, a: nat)
    requires a <= |s|
  {
    forall a' :: 0 <= a' < a ==> Scan(p, s, a').None?
  }

  lemma FindGroupAt(g: Grouped, s: string, a: nat, m: nat, n: nat, b: nat)
    requires a <= |s| && ScanGroup(g, s, a) == Some((m, n, b))
    requires NoMatchBefore(g.Whole(), s, a)
    ensures m <= n <= |s| && FindGroup(g, s) == Some(s[m..n])
  {
    assert FindFrom(g.Whole(), s, 0).Some?;
    assert FindFrom(g.Whole(), s, 0).value.0 == a;
  }

  /** `p` matches nowhere in `s` except perhaps at `a`. */
  predicate MatchesOnlyAt(p: Pattern, s: string, a: nat) {
    forall a' :: 0 <= a' <= |s| && a' != a ==> Scan(p, s, a').None?
  }

  /** The group of the only place where the whole pattern matches. */
  lemma FindGroupOnly(g: Grouped, s: string, a: nat, m: nat, n: nat, b: nat)
    requires a <= |s| && ScanGroup(g, s, a) == Some((m, n, b))
    requires MatchesOnlyAt(g.Whole(), s, a)
    ensures m <= n <= |s| && FindGroup(g, s) == Some(s[m..n])
  {
    FindGroupAt(g, s, a, m, n, b);
  }

  /** A pattern that begins with the literal `c` cannot match where `c` is
      not. */
  lemma ScanLitFirst(p: Pattern, c: char, s: string, a: nat)
    requires |p| > 0 && p[0] == Lit(c) && a <= |s| && (a == |s| || s[a] != c)
    ensures Scan(p, s, a).None?
  {
  }

  /** A group `[k]+` found by `FindGroup` is a non-empty run of `k`. */
  lemma FindGroupRun(g: Grouped, s: string, k: Class)
    requires g.grp == [Plus(k)]
    ensures FindGroup(g, s).Some? ==>
      |FindGroup(g, s).value| > 0 && forall i :: 0 <= i < |FindGroup(g, s).value| ==> In(k, FindGroup(g, s).value[i])
  {
    match FindFrom(g.Whole(), s, 0)
    case None =>
    case Some((a, _)) =>
      var (m, n, _) := ScanGroup(g, s, a).value;
      ScanPlus(k, s, m);
      assert forall i :: 0 <= i < n - m ==> s[m..n][i] == s[m + i];
  }

  /** Every character of a word of `[k]+` or `[k]*` alone is in `k`. */
  lemma {:induction false} RunWordChars(k: Class, s: string, i: nat, j: nat)
    requires i <= j <= |s| && Matches([Star(k)], s, i, j)
    ensures AllIn(k, s, i, j)
  {
    assert [Star(k)] + [] == [Star(k)];
    StarSplit(k, [], s, i, j);
  }
}
