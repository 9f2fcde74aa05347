/** Character classes and the string operations of Kotlin's and Java's
    standard library that the plugin relies on.  Case mapping and digits are
    ASCII; whitespace follows Kotlin's `Char.isWhitespace` on the JVM. */
module Text {
  import opened Wrappers

  // ---------------------------------------------------------------------
  // Character classes

  /** `\d` of java.util.regex: ASCII digits only. */
  predicate IsDigit(c: char) { '0' <= c <= '9' }

  /** `[A-Z]` */
  predicate IsUpper(c: char) { 'A' <= c <= 'Z' }

  /** `[a-z]` */
  predicate IsLower(c: char) { 'a' <= c <= 'z' }

  /** Kotlin's `Char.isWhitespace()` on the JVM: `Character.isWhitespace`
      (TAB..CR, FS..US, SPACE and the Unicode separators other than the
      no-break spaces) or `Character.isSpaceChar` (adds the no-break spaces). */
  predicate IsWhitespace(c: char) {
    || '\t' <= c <= '\r'
    || '\U{1C}' <= c <= ' '
    || c == '\U{A0}' || c == '\U{1680}'
    || '\U{2000}' <= c <= '\U{200A}'
    || c == '\U{2028}' || c == '\U{2029}' || c == '\U{202F}' || c == '\U{205F}' || c == '\U{3000}'
  }

  /** The characters java.util.regex treats as line terminators (`.` does not
      match them). */
  predicate IsLineTerminator(c: char) {
    c == '\n' || c == '\r' || c == '\U{85}' || c == '\U{2028}' || c == '\U{2029}'
  }

  function LowerChar(c: char): (r: char)
    ensures IsUpper(c) ==> IsLower(r)
    ensures !IsUpper(c) ==> r == c
  {
    if IsUpper(c) then (c as int + 32) as char else c
  }

  function UpperChar(c: char): (r: char)
    ensures IsLower(c) ==> IsUpper(r)
    ensures !IsLower(c) ==> r == c
  {
    if IsLower(c) then (c as int - 32) as char else c
  }

  // ---------------------------------------------------------------------
  // Case mapping, blankness, trimming

  /** `String.lowercase()`, restricted to ASCII letters. */
  function Lower(s: string): (r: string)
    ensures |r| == |s|
    ensures forall i :: 0 <= i < |s| ==> r[i] == LowerChar(s[i])
  {
    seq(|s|, i requires 0 <= i < |s| => LowerChar(s[i]))
  }

  /** `String.uppercase()`, restricted to ASCII letters. */
  function Upper(s: string): (r: string)
    ensures |r| == |s|
    ensures forall i :: 0 <= i < |s| ==> r[i] == UpperChar(s[i])
  {
    seq(|s|, i requires 0 <= i < |s| => UpperChar(s[i]))
  }

  /** `CharSequence.isBlank()`: empty or whitespace only. */
  predicate IsBlank(s: string) {
    forall i :: 0 <= i < |s| ==> IsWhitespace(s[i])
  }

  /** Drops the leading characters satisfying `drop`. */
  function TrimStartBy(s: string, drop: char -> bool): (r: string)
    ensures |r| <= |s| && r == s[|s| - |r|..]
    ensures r == [] || !drop(r[0])
    ensures forall i :: 0 <= i < |s| - |r| ==> drop(s[i])
    decreases |s|
  {
    if |s| > 0 && drop(s[0]) then TrimStartBy(s[1..], drop) else s
  }

  /** Drops the trailing characters satisfying `drop`. */
  function TrimEndBy(s: string, drop: char -> bool): (r: string)
    ensures |r| <= |s| && r == s[..|r|]
    ensures r == [] || !drop(r[|r| - 1])
    ensures forall i :: |r| <= i < |s| ==> drop(s[i])
    decreases |s|
  {
    if |s| > 0 && drop(s[|s| - 1]) then TrimEndBy(s[..|s| - 1], drop) else s
  }

  /** Kotlin's `trim(predicate)`: both ends. */
  function TrimBy(s: string, drop: char -> bool): string {
    TrimEndBy(TrimStartBy(s, drop), drop)
  }

  /** Kotlin's `String.trim()`. */
  function Trim(s: string): string {
    TrimBy(s, IsWhitespace)
  }

  lemma TrimEmptyIffBlank(s: string)
    ensures Trim(s) == [] <==> IsBlank(s)
  {
    var t := TrimStartBy(s, IsWhitespace);
    if !IsBlank(s) {
      var k :| 0 <= k < |s| && !IsWhitespace(s[k]);
      assert k >= |s| - |t|;
      assert t[k - (|s| - |t|)] == s[k];
      assert |t| > 0 && !IsWhitespace(t[0]);
    }
  }

  /** A trimmed string starts and ends with a non-whitespace character. */
  lemma TrimEnds(s: string)
    ensures Trim(s) == [] || (!IsWhitespace(Trim(s)[0]) && !IsWhitespace(Trim(s)[|Trim(s)| - 1]))
  {
    var t := TrimStartBy(s, IsWhitespace);
    var r := TrimEndBy(t, IsWhitespace);
    if |r| > 0 {
      assert r[0] == t[0];
    }
  }

  /** A string that neither starts nor ends with whitespace is its own trim. */
  lemma TrimFixed(s: string)
    requires |s| == 0 || (!IsWhitespace(s[0]) && !IsWhitespace(s[|s| - 1]))
    ensures Trim(s) == s
  {
  }

  /** The trimmed start is where the first kept character is. */
  lemma TrimStartAt(s: string, drop: char -> bool, k: nat)
    requires k <= |s| && (forall i :: 0 <= i < k ==> drop(s[i])) && (k == |s| || !drop(s[k]))
    ensures TrimStartBy(s, drop) == s[k..]
  {
  }

  /** The trimmed end is after the last kept character. */
  lemma TrimEndAt(s: string, drop: char -> bool, k: nat)
    requires k <= |s| && (forall i :: k <= i < |s| ==> drop(s[i])) && (k == 0 || !drop(s[k - 1]))
    ensures TrimEndBy(s, drop) == s[..k]
  {
  }

  /** Trimming is idempotent. */
  lemma TrimTwice(s: string)
    ensures Trim(Trim(s)) == Trim(s)
  {
    TrimEnds(s);
    TrimFixed(Trim(s));
  }

  /** Lower-casing changes no character outside `A`-`Z`. */
  lemma LowerFixed(s: string)
    requires forall i :: 0 <= i < |s| ==> !IsUpper(s[i])
    ensures Lower(s) == s
  {
  }

  lemma LowerTwice(s: string)
    ensures Lower(Lower(s)) == Lower(s)
  {
  }

  /** Lower-casing keeps whitespace and digits what they were. */
  lemma LowerCharKinds(c: char)
    ensures IsWhitespace(LowerChar(c)) <==> IsWhitespace(c)
    ensures IsDigit(LowerChar(c)) <==> IsDigit(c)
  {
  }

  /** Trimming and lower-casing a second time changes nothing. */
  lemma LowerTrimTwice(s: string)
    ensures Lower(Trim(Lower(Trim(s)))) == Lower(Trim(s))
    ensures Lower(Trim(s)) == [] <==> IsBlank(s)
  {
    var c := Lower(Trim(s));
    TrimEnds(s);
    TrimEmptyIffBlank(s);
    if |c| > 0 {
      LowerCharKinds(Trim(s)[0]);
      LowerCharKinds(Trim(s)[|c| - 1]);
    }
    TrimFixed(c);
    LowerTwice(Trim(s));
  }

  /** Trimming keeps a contiguous piece of the input. */
  lemma TrimIsSlice(s: string, drop: char -> bool)
    ensures exists a, b :: 0 <= a <= b <= |s| && TrimBy(s, drop) == s[a..b]
  {
    var t := TrimStartBy(s, drop);
    var r := TrimEndBy(t, drop);
    var a := |s| - |t|;
    assert r == s[a..a + |r|];
  }

  // ---------------------------------------------------------------------
  // Occurrences and replacement

  /** The characters of `a` from offset `k` on sit in `s` from `i + k` on. */
  predicate AgreesFrom(s: string, a: string, i: nat, k: nat)
    requires i + |a| <= |s|
    decreases |a| - k
  {
    k >= |a| || (s[i + k] == a[k] && AgreesFrom(s, a, i, k + 1))
  }

  /** The two parts of a slice cut at `j`. */
  lemma SliceOfSlice(s: string, p: nat, t: nat, j: nat)
    requires p <= t <= |s| && j <= t - p
    ensures s[p..t][..j] == s[p..p + j] && s[p..t][j..] == s[p + j..t]
  {
  }

  /** The only `c` of `s`, if any, is at index `p`. */
  predicate OnlyCharAt(s: string, c: char, p: nat) {
    forall t :: 0 <= t < |s| && t != p ==> s[t] != c
  }

  /** `a` occurs in `s` starting at index `i`. */
  predicate OccursAt(s: string, a: string, i: nat) {
    i + |a| <= |s| && AgreesFrom(s, a, i, 0)
  }

  lemma {:induction false} AgreesFromPointwise(s: string, a: string, i: nat, k: nat)
    requires i + |a| <= |s| && k <= |a|
    ensures AgreesFrom(s, a, i, k) <==> forall t :: k <= t < |a| ==> s[i + t] == a[t]
    decreases |a| - k
  {
    if k < |a| {
      AgreesFromPointwise(s, a, i, k + 1);
    }
  }

  /** An occurrence, character by character. */
  lemma OccursAtPointwise(s: string, a: string, i: nat)
    ensures OccursAt(s, a, i) <==> i + |a| <= |s| && forall t :: 0 <= t < |a| ==> s[i + t] == a[t]
  {
    if i + |a| <= |s| {
      AgreesFromPointwise(s, a, i, 0);
    }
  }

  /** One character of an occurrence. */
  lemma OccursAtChar(s: string, a: string, i: nat, t: nat)
    requires OccursAt(s, a, i) && t < |a|
    ensures i + t < |s| && s[i + t] == a[t]
  {
    OccursAtPointwise(s, a, i);
  }

  /** An occurrence, as a slice. */
  lemma OccursAtSlice(s: string, a: string, i: nat)
    ensures OccursAt(s, a, i) <==> i + |a| <= |s| && s[i..i + |a|] == a
  {
    OccursAtPointwise(s, a, i);
    if i + |a| <= |s| && s[i..i + |a|] == a {
      assert forall t :: 0 <= t < |a| ==> a[t] == s[i + t];
    }
  }

  /** Occurrences inside a slice are the occurrences of the whole string that
      fit inside the slice. */
  lemma OccursInSlice(s: string, a: string, p: nat, q: nat, j: nat)
    requires p <= q <= |s|
    ensures OccursAt(s[p..q], a, j) <==> OccursAt(s, a, p + j) && p + j + |a| <= q
  {
    OccursAtPointwise(s[p..q], a, j);
    OccursAtPointwise(s, a, p + j);
  }

  predicate Contains(s: string, a: string) {
    exists i: nat :: i <= |s| && OccursAt(s, a, i)
  }

  /** Kotlin's `contains(other, ignoreCase = true)`, for ASCII case. */
  predicate ContainsIgnoreCase(s: string, a: string) {
    Contains(Lower(s), Lower(a))
  }

  /** Index of the first occurrence of `a` at or after `i` (`indexOf`). */
  function IndexFrom(s: string, a: string, i: nat): (r: Option<nat>)
    requires i <= |s|
    ensures r.Some? ==> i <= r.value && OccursAt(s, a, r.value)
    ensures r.Some? ==> forall j: nat :: i <= j < r.value ==> !OccursAt(s, a, j)
    ensures r.None? ==> forall j: nat :: i <= j ==> !OccursAt(s, a, j)
    decreases |s| - i
  {
    if OccursAt(s, a, i) then Some(i)
    else if i == |s| then None
    else IndexFrom(s, a, i + 1)
  }

  /** Kotlin's `substringBefore(delimiter)`: the whole string when absent. */
  function SubstringBefore(s: string, d: string): (r: string)
    ensures r <= s
    ensures !Contains(s, d) ==> r == s
    ensures Contains(s, d) ==> OccursAt(s, d, |r|) && forall j: nat :: j < |r| ==> !OccursAt(s, d, j)
  {
    match IndexFrom(s, d, 0)
    case None => s
    case Some(k) => s[..k]
  }

  /** Kotlin's `substringAfter(delimiter)`: the whole string when absent. */
  function SubstringAfter(s: string, d: string): (r: string)
    ensures !Contains(s, d) ==> r == s
    ensures Contains(s, d) ==> exists k: nat :: OccursAt(s, d, k) && r == s[k + |d|..]
  {
    match IndexFrom(s, d, 0)
    case None => s
    case Some(k) => s[k + |d|..]
  }

  /** Kotlin's `startsWith(prefix)`. */
  predicate StartsWith(s: string, p: string) {
    OccursAt(s, p, 0)
  }

  /** When `pre` cannot hold the first character of `d`, the first `d` of
      `pre + d + rest` is the one after `pre`. */
  lemma SubstringAfterFirst(pre: string, d: string, rest: string)
    requires |d| > 0 && forall j :: 0 <= j < |pre| ==> pre[j] != d[0]
    ensures SubstringAfter(pre + d + rest, d) == rest
  {
    var s := pre + d + rest;
    FirstAt(pre, d, rest);
    assert s[|pre| + |d|..] == rest;
  }

  lemma SubstringBeforeFirst(pre: string, d: string, rest: string)
    requires |d| > 0 && forall j :: 0 <= j < |pre| ==> pre[j] != d[0]
    ensures SubstringBefore(pre + d + rest, d) == pre
  {
    var s := pre + d + rest;
    FirstAt(pre, d, rest);
    assert s[..|pre|] == pre;
  }

  /** A delimiter whose first character `pre` lacks first occurs after
      `pre`. */
  lemma FirstAt(pre: string, d: string, rest: string)
    requires |d| > 0 && forall j :: 0 <= j < |pre| ==> pre[j] != d[0]
    ensures IndexFrom(pre + d + rest, d, 0) == Some(|pre|)
  {
    var s := pre + d + rest;
    OccursAtSlice(s, d, |pre|);
    assert s[|pre|..|pre| + |d|] == d;
    forall j: nat | j < |pre| ensures !OccursAt(s, d, j) {
      OccursAtPointwise(s, d, j);
      assert s[j + 0] == pre[j];
    }
  }

  /** A string contains each of its middle pieces. */
  lemma ContainsMiddle(a: string, x: string, b: string)
    ensures Contains(a + x + b, x)
  {
    var s := a + x + b;
    assert s[|a|..|a| + |x|] == x;
    OccursAtSlice(s, x, |a|);
  }

  lemma Assoc3(a: string, b: string, c: string)
    ensures a + (b + c) == (a + b) + c
  {
  }

  /** Two steps that each peel off a prefix, taken together. */
  lemma PeelTwice(r0: string, a: string, r1: string, b: string, r2: string)
    requires r0 == a + r1 && r1 == b + r2
    ensures r0 == a + b + r2
  {
  }

  lemma Assoc4(a: string, b: string, c: string, d: string)
    ensures a + b + c + d == a + ((b + c) + d)
  {
  }

  /** Kotlin's `String.replace(old, new)`: scanning left to right, every
      non-overlapping occurrence of `a` is replaced by `b`. */
  function ReplaceAll(s: string, a: string, b: string): string
    requires |a| > 0
  {
    ReplaceAllFrom(s, a, b, 0)
  }

  /** The replacement of the suffix of `s` that starts at `p`. */
  function ReplaceAllFrom(s: string, a: string, b: string, p: nat): string
    requires |a| > 0 && p <= |s|
    decreases |s| - p
  {
    if p == |s| then []
    else if OccursAt(s, a, p) then b + ReplaceAllFrom(s, a, b, p + |a|)
    else [s[p]] + ReplaceAllFrom(s, a, b, p + 1)
  }

  /** The stretches of `s` that a left-to-right scan for `a` leaves between
      the occurrences it finds; the current stretch began at `start`. */
  function PiecesFrom(s: string, a: string, start: nat, p: nat): (ps: seq<string>)
    requires |a| > 0 && start <= p <= |s|
    ensures |ps| >= 1
    decreases |s| - p
  {
    if p == |s| then [s[start..]]
    else if OccursAt(s, a, p) then [s[start..p]] + PiecesFrom(s, a, p + |a|, p + |a|)
    else PiecesFrom(s, a, start, p + 1)
  }

  /** The pieces of `s` around the occurrences of `a`. */
  function Pieces(s: string, a: string): seq<string>
    requires |a| > 0
  {
    PiecesFrom(s, a, 0, 0)
  }

  lemma {:induction false} ReplaceAllFromPieces(s: string, a: string, b: string, start: nat, p: nat)
    requires |a| > 0 && start <= p <= |s|
    ensures s[start..p] + ReplaceAllFrom(s, a, b, p) == Join(PiecesFrom(s, a, start, p), b)
    decreases |s| - p
  {
    if p == |s| {
      assert s[start..p] + [] == s[start..];
    } else if OccursAt(s, a, p) {
      OccursAtSlice(s, a, p);
      ReplaceAllFromPieces(s, a, b, p + |a|, p + |a|);
      assert s[p + |a|..p + |a|] == [];
      ReplacePiecesFound(s, a, b, start, p);
    } else {
      ReplaceAllFromPieces(s, a, b, start, p + 1);
      ReplacePiecesSkip(s, a, b, start, p);
    }
  }

  /** The step of `ReplaceAllFromPieces` at an occurrence. */
  lemma ReplacePiecesFound(s: string, a: string, b: string, start: nat, p: nat)
    requires |a| > 0 && start <= p && p + |a| <= |s| && OccursAt(s, a, p)
    requires ReplaceAllFrom(s, a, b, p + |a|) == Join(PiecesFrom(s, a, p + |a|, p + |a|), b)
    ensures s[start..p] + ReplaceAllFrom(s, a, b, p) == Join(PiecesFrom(s, a, start, p), b)
  {
    var rest := PiecesFrom(s, a, p + |a|, p + |a|);
    assert ReplaceAllFrom(s, a, b, p) == b + ReplaceAllFrom(s, a, b, p + |a|);
    assert PiecesFrom(s, a, start, p) == [s[start..p]] + rest;
    JoinCons(s[start..p], rest, b);
  }

  /** The step of `ReplaceAllFromPieces` past a character. */
  lemma ReplacePiecesSkip(s: string, a: string, b: string, start: nat, p: nat)
    requires |a| > 0 && start <= p < |s| && !OccursAt(s, a, p)
    requires s[start..p + 1] + ReplaceAllFrom(s, a, b, p + 1) == Join(PiecesFrom(s, a, start, p + 1), b)
    ensures s[start..p] + ReplaceAllFrom(s, a, b, p) == Join(PiecesFrom(s, a, start, p), b)
  {
    assert ReplaceAllFrom(s, a, b, p) == [s[p]] + ReplaceAllFrom(s, a, b, p + 1);
    assert PiecesFrom(s, a, start, p) == PiecesFrom(s, a, start, p + 1);
    SliceExtend(s, start, p);
  }

  /** Joining a first part onto at least one more. */
  lemma JoinCons(x: string, rest: seq<string>, sep: string)
    requires |rest| >= 1
    ensures Join([x] + rest, sep) == x + sep + Join(rest, sep)
  {
    assert ([x] + rest)[1..] == rest;
  }

  /** A slice extended by the next character to a slice of it. */
  lemma SliceExtend(s: string, i: nat, j: nat)
    requires i <= j < |s|
    ensures s[i..j + 1] == s[i..j] + [s[j]]
  {
  }

  lemma {:induction false} JoinPiecesFrom(s: string, a: string, start: nat, p: nat)
    requires |a| > 0 && start <= p <= |s|
    ensures Join(PiecesFrom(s, a, start, p), a) == s[start..]
    decreases |s| - p
  {
    if p < |s| {
      if OccursAt(s, a, p) {
        OccursAtSlice(s, a, p);
        JoinPiecesFrom(s, a, p + |a|, p + |a|);
        var rest := PiecesFrom(s, a, p + |a|, p + |a|);
        assert ([s[start..p]] + rest)[1..] == rest;
        assert s[start..] == s[start..p] + s[p..p + |a|] + s[p + |a|..];
      } else {
        JoinPiecesFrom(s, a, start, p + 1);
      }
    }
  }

  lemma {:induction false} PiecesFromAvoid(s: string, a: string, start: nat, p: nat)
    requires |a| > 0 && start <= p <= |s|
    requires forall j: nat :: start <= j < p ==> !OccursAt(s, a, j)
    ensures forall k :: 0 <= k < |PiecesFrom(s, a, start, p)| ==> !Contains(PiecesFrom(s, a, start, p)[k], a)
    decreases |s| - p
  {
    var ps := PiecesFrom(s, a, start, p);
    if p == |s| || OccursAt(s, a, p) {
      var q := if p == |s| then |s| else p;
      assert ps[0] == s[start..q];
      assert !Contains(s[start..q], a) by {
        forall j: nat | OccursAt(s[start..q], a, j) ensures false {
          OccursInSlice(s, a, start, q, j);
        }
      }
      if p < |s| {
        PiecesFromAvoid(s, a, p + |a|, p + |a|);
        assert ps[1..] == PiecesFrom(s, a, p + |a|, p + |a|);
      }
    } else {
      PiecesFromAvoid(s, a, start, p + 1);
    }
  }

  /** Replacing every occurrence is splitting at the occurrences and joining
      with the replacement; splitting and joining with `a` itself gives the
      input back, and no piece contains `a`. */
  lemma ReplaceAllByPieces(s: string, a: string, b: string)
    requires |a| > 0
    ensures ReplaceAll(s, a, b) == Join(Pieces(s, a), b)
    ensures Join(Pieces(s, a), a) == s
    ensures forall k :: 0 <= k < |Pieces(s, a)| ==> !Contains(Pieces(s, a)[k], a)
  {
    ReplaceAllFromPieces(s, a, b, 0, 0);
    JoinPiecesFrom(s, a, 0, 0);
    PiecesFromAvoid(s, a, 0, 0);
  }

  /** A stretch where `a` cannot begin is copied as it is. */
  lemma {:induction false} ReplaceFromPlain(s: string, a: string, b: string, p: nat, q: nat)
    requires |a| > 0 && p <= q <= |s|
    requires forall t :: p <= t < q ==> s[t] != a[0]
    ensures ReplaceAllFrom(s, a, b, p) == s[p..q] + ReplaceAllFrom(s, a, b, q)
    decreases q - p
  {
    if p < q {
      OccursAtPointwise(s, a, p);
      var rest := ReplaceAllFrom(s, a, b, q);
      ReplaceFromPlain(s, a, b, p + 1, q);
      calc {
        ReplaceAllFrom(s, a, b, p);
        [s[p]] + ReplaceAllFrom(s, a, b, p + 1);
        [s[p]] + (s[p + 1..q] + rest);
        { Assoc3([s[p]], s[p + 1..q], rest); }
        ([s[p]] + s[p + 1..q]) + rest;
        { assert [s[p]] + s[p + 1..q] == s[p..q]; }
        s[p..q] + rest;
      }
    }
  }

  /** Replacing in a string without `a`'s first character changes nothing. */
  lemma ReplaceWithoutFirst(s: string, a: string, b: string)
    requires |a| > 0 && a[0] !in s
    ensures ReplaceAll(s, a, b) == s
  {
    ReplaceFromPlain(s, a, b, 0, |s|);
    assert s[0..|s|] == s;
  }

  /** Where `a`'s first character occurs only at the start of the one copy
      of `a`, that copy is what gets replaced. */
  lemma ReplaceUnique(pre: string, a: string, post: string, b: string)
    requires |a| > 0 && a[0] !in pre && a[0] !in post
    ensures ReplaceAll(pre + a + post, a, b) == pre + b + post
  {
    var s := pre + a + post;
    var e := |pre| + |a|;
    assert forall t :: 0 <= t < |pre| ==> s[t] == pre[t];
    ReplaceFromPlain(s, a, b, 0, |pre|);
    OccursAtSlice(s, a, |pre|);
    assert s[|pre|..e] == a;
    assert forall t :: e <= t < |s| ==> s[t] == post[t - e];
    ReplaceFromPlain(s, a, b, e, |s|);
    assert s[0..|pre|] == pre && s[e..|s|] == post;
  }

  /** Replacing `a` by itself changes nothing. */
  lemma ReplaceSame(s: string, a: string)
    requires |a| > 0
    ensures ReplaceAll(s, a, a) == s
  {
    ReplaceAllByPieces(s, a, a);
  }

  /** Text without the first character of `a` does not contain `a`. */
  lemma AbsentByFirst(s: string, a: string)
    requires |a| > 0 && a[0] !in s
    ensures !Contains(s, a)
  {
    forall i: nat | i <= |s| ensures !OccursAt(s, a, i) {
      OccursAtPointwise(s, a, i);
    }
  }

  /** Replacing something absent changes nothing. */
  lemma ReplaceAbsent(s: string, a: string, b: string)
    requires |a| > 0 && !Contains(s, a)
    ensures ReplaceAll(s, a, b) == s
  {
    ReplaceAllByPieces(s, a, b);
    assert Pieces(s, a) == [s] by {
      PiecesSingle(s, a, 0, 0);
    }
  }

  lemma {:induction false} PiecesSingle(s: string, a: string, start: nat, p: nat)
    requires |a| > 0 && start <= p <= |s| && !Contains(s, a)
    ensures PiecesFrom(s, a, start, p) == [s[start..]]
    decreases |s| - p
  {
    if p < |s| {
      PiecesSingle(s, a, start, p + 1);
    }
  }

  // ---------------------------------------------------------------------
  // Decimal numbers

  predicate AllDigits(s: string) {
    forall i :: 0 <= i < |s| ==> IsDigit(s[i])
  }

  /** Matches `^\d+$`. */
  predicate IsDigitString(s: string) {
    |s| > 0 && AllDigits(s)
  }

  function DigitValue(c: char): nat
    requires IsDigit(c)
  {
    c as int - '0' as int
  }

  function DigitChar(d: nat): (c: char)
    requires d < 10
    ensures IsDigit(c) && DigitValue(c) == d
  {
    ('0' as int + d) as char
  }

  /** The value of a decimal digit string. */
  function DigitsValue(s: string): nat
    requires AllDigits(s)
    decreases |s|
  {
    if |s| == 0 then 0 else DigitsValue(s[..|s| - 1]) * 10 + DigitValue(s[|s| - 1])
  }

  function Pow10(n: nat): (r: nat)
    ensures r >= 1
  {
    if n == 0 then 1 else 10 * Pow10(n - 1)
  }

  /** Decimal rendering of a natural number, without leading zeros. */
  function NatToString(n: nat): (r: string)
    ensures IsDigitString(r)
    ensures DigitsValue(r) == n
    ensures |r| > 1 ==> r[0] != '0'
    decreases n
  {
    if n < 10 then [DigitChar(n)]
    else
      var r := NatToString(n / 10) + [DigitChar(n % 10)];
      assert r[..|r| - 1] == NatToString(n / 10);
      r
  }

  /** Kotlin's `Int.toString()`. */
  function IntToString(i: int): string {
    if i < 0 then "-" + NatToString(-i) else NatToString(i)
  }

  // ---------------------------------------------------------------------
  // Ordering

  /** Kotlin's `String.compareTo(other) < 0`: the first differing character
      decides, and a proper prefix comes first. */
  predicate Less(a: string, b: string)
    decreases |a|
  {
    if |b| == 0 then false
    else if |a| == 0 then true
    else a[0] < b[0] || (a[0] == b[0] && Less(a[1..], b[1..]))
  }

  predicate LessEq(a: string, b: string) {
    a == b || Less(a, b)
  }

  lemma {:induction false} LessIrreflexive(a: string)
    ensures !Less(a, a)
    decreases |a|
  {
    if |a| > 0 { LessIrreflexive(a[1..]); }
  }

  lemma {:induction false} LessTransitive(a: string, b: string, c: string)
    requires Less(a, b) && Less(b, c)
    ensures Less(a, c)
    decreases |a|
  {
    if |a| > 0 && a[0] == b[0] && b[0] == c[0] {
      LessTransitive(a[1..], b[1..], c[1..]);
    }
  }

  /** Two different strings are ordered one way or the other. */
  lemma {:induction false} LessTotal(a: string, b: string)
    requires a != b
    ensures Less(a, b) || Less(b, a)
    decreases |a|
  {
    if |a| > 0 && |b| > 0 && a[0] == b[0] {
      assert a == [a[0]] + a[1..] && b == [b[0]] + b[1..];
      LessTotal(a[1..], b[1..]);
    }
  }

  lemma LessAsymmetric(a: string, b: string)
    requires Less(a, b)
    ensures !Less(b, a)
  {
    if Less(b, a) {
      LessTransitive(a, b, a);
      LessIrreflexive(a);
    }
  }

  // ---------------------------------------------------------------------
  // Splitting, joining, line breaks

  /** Kotlin's `split(sep)` for a one-character separator: the pieces between
      separators, empty pieces included. */
  function Split(s: string, sep: char): (parts: seq<string>)
    ensures |parts| >= 1
    ensures forall k :: 0 <= k < |parts| ==> sep !in parts[k]
    decreases |s|
  {
    if |s| == 0 then [""]
    else
      var rest := Split(s[1..], sep);
      if s[0] == sep then [""] + rest
      else [[s[0]] + rest[0]] + rest[1..]
  }

  /** Kotlin's `joinToString(sep)`. */
  function Join(parts: seq<string>, sep: string): string
    decreases |parts|
  {
    if |parts| == 0 then ""
    else if |parts| == 1 then parts[0]
    else parts[0] + sep + Join(parts[1..], sep)
  }

  /** Splitting and joining again with the same separator gives the input back. */
  lemma {:induction false} JoinSplit(s: string, sep: char)
    ensures Join(Split(s, sep), [sep]) == s
    decreases |s|
  {
    if |s| > 0 {
      var rest := Split(s[1..], sep);
      JoinSplit(s[1..], sep);
      if s[0] == sep {
        assert Split(s, sep) == [""] + rest;
        assert Join([""] + rest, [sep]) == "" + [sep] + Join(rest, [sep]);
      } else {
        var parts := [[s[0]] + rest[0]] + rest[1..];
        if |rest| == 1 {
          assert Join(parts, [sep]) == [s[0]] + rest[0];
        } else {
          assert parts[1..] == rest[1..];
          assert Join(rest, [sep]) == rest[0] + [sep] + Join(rest[1..], [sep]);
        }
      }
    }
  }

  /** A string without the separator is a single piece. */
  lemma {:induction false} SplitNone(x: string, c: char)
    requires c !in x
    ensures Split(x, c) == [x]
    decreases |x|
  {
    if |x| > 0 {
      SplitNone(x[1..], c);
      assert x == [x[0]] + x[1..];
    }
  }

  /** The first piece ends at the first separator. */
  lemma {:induction false} SplitPrefix(x: string, y: string, c: char)
    requires c !in x
    ensures Split(x + [c] + y, c) == [x] + Split(y, c)
    decreases |x|
  {
    var s := x + [c] + y;
    if |x| == 0 {
      assert s[1..] == y;
    } else {
      assert s[1..] == x[1..] + [c] + y;
      SplitPrefix(x[1..], y, c);
      assert x == [x[0]] + x[1..];
    }
  }

  /** Joining pieces that avoid the separator and splitting again gives the
      pieces back. */
  lemma {:induction false} SplitJoin(parts: seq<string>, c: char)
    requires |parts| >= 1 && forall k :: 0 <= k < |parts| ==> c !in parts[k]
    ensures Split(Join(parts, [c]), c) == parts
    decreases |parts|
  {
    if |parts| == 1 {
      SplitNone(parts[0], c);
    } else {
      SplitJoin(parts[1..], c);
      SplitPrefix(parts[0], Join(parts[1..], [c]), c);
      assert parts == [parts[0]] + parts[1..];
    }
  }

  /** There is one more piece than there are separators. */
  lemma {:induction false} SplitCount(s: string, c: char)
    ensures |Split(s, c)| == multiset(s)[c] + 1
    decreases |s|
  {
    if |s| > 0 {
      SplitCount(s[1..], c);
      assert s == [s[0]] + s[1..];
      assert multiset(s) == multiset{s[0]} + multiset(s[1..]);
    }
  }

  /** A character in neither the pieces nor the separator is not in their
      join. */
  lemma {:induction false} JoinAvoids(parts: seq<string>, sep: string, c: char)
    requires c !in sep && forall k :: 0 <= k < |parts| ==> c !in parts[k]
    ensures c !in Join(parts, sep)
    decreases |parts|
  {
    if |parts| > 1 {
      JoinAvoids(parts[1..], sep, c);
    }
  }

  /** Lower-casing works character by character. */
  lemma LowerAppend(a: string, b: string)
    ensures Lower(a + b) == Lower(a) + Lower(b)
  {
  }

  /** Kotlin's `lines().joinToString("\n")`: CRLF, LF and CR all become LF. */
  function NormalizeLineBreaks(s: string): (r: string)
    ensures '\r' !in r
    decreases |s|
  {
    if |s| == 0 then ""
    else if s[0] == '\r' then
      if |s| > 1 && s[1] == '\n' then "\n" + NormalizeLineBreaks(s[2..])
      else "\n" + NormalizeLineBreaks(s[1..])
    else [s[0]] + NormalizeLineBreaks(s[1..])
  }

  /** Text without a carriage return keeps its line breaks. */
  lemma {:induction false} NormalizeWithoutCr(s: string)
    requires '\r' !in s
    ensures NormalizeLineBreaks(s) == s
    decreases |s|
  {
    if |s| > 0 {
      NormalizeWithoutCr(s[1..]);
      assert s == [s[0]] + s[1..];
    }
  }

  // ---------------------------------------------------------------------
  // Joined lines

  /** Joining two non-empty lists puts one separator between them. */
  lemma {:induction false} JoinAppend(a: seq<string>, b: seq<string>, sep: string)
    requires |a| >= 1 && |b| >= 1
    ensures Join(a + b, sep) == Join(a, sep) + sep + Join(b, sep)
    decreases |a|
  {
    assert (a + b)[1..] == a[1..] + b;
    if |a| > 1 {
      JoinAppend(a[1..], b, sep);
      Assoc3(a[0] + sep, Join(a[1..], sep) + sep, Join(b, sep));
      Assoc3(a[0] + sep, Join(a[1..], sep), sep);
      Assoc3(a[0], sep, Join(a[1..], sep));
      Assoc3(a[0], sep, Join(a[1..] + b, sep));
    } else {
      assert a[1..] + b == b;
    }
  }

  /** An element holding the separator joins like two elements. */
  lemma JoinSplitElement(a: seq<string>, x: string, y: string, b: seq<string>, sep: string)
    ensures Join(a + [x + sep + y] + b, sep) == Join(a + [x, y] + b, sep)
  {
    var m1, m2 := [x + sep + y], [x, y];
    assert Join(m1, sep) == Join(m2, sep) by {
      assert m2[1..] == [y];
    }
    if |b| > 0 {
      JoinAppend(m1, b, sep);
      JoinAppend(m2, b, sep);
    } else {
      assert m1 + b == m1 && m2 + b == m2;
    }
    if |a| > 0 {
      JoinAppend(a, m1 + b, sep);
      JoinAppend(a, m2 + b, sep);
    }
    assert a + [x + sep + y] + b == a + (m1 + b);
    assert a + [x, y] + b == a + (m2 + b);
  }

  /** Every element lower-cased. */
  function LowerEach(lines: seq<string>): (r: seq<string>)
    ensures |r| == |lines| && forall k :: 0 <= k < |lines| ==> r[k] == Lower(lines[k])
  {
    seq(|lines|, k requires 0 <= k < |lines| => Lower(lines[k]))
  }

  /** Lower-casing lines joined by `\n` lower-cases each line. */
  lemma {:induction false} LowerJoin(lines: seq<string>)
    ensures Lower(Join(lines, "\n")) == Join(LowerEach(lines), "\n")
    decreases |lines|
  {
    if |lines| > 1 {
      LowerJoin(lines[1..]);
      assert LowerEach(lines)[1..] == LowerEach(lines[1..]);
      LowerAppend(lines[0] + "\n", Join(lines[1..], "\n"));
      LowerAppend(lines[0], "\n");
    }
  }

  /** A case-sensitive occurrence is also one ignoring case. */
  lemma ContainsIgnoringCase(s: string, a: string)
    requires Contains(s, a)
    ensures ContainsIgnoreCase(s, a)
  {
    var i: nat :| i <= |s| && OccursAt(s, a, i);
    OccursAtPointwise(s, a, i);
    OccursAtPointwise(Lower(s), Lower(a), i);
    assert OccursAt(Lower(s), Lower(a), i);
  }

  /** Lower-casing neither adds nor removes a `#`. */
  lemma LowerKeepsHash(x: string)
    ensures '#' in Lower(x) <==> '#' in x
  {
    if '#' in x {
      var i :| 0 <= i < |x| && x[i] == '#';
      assert Lower(x)[i] == '#';
    }
  }
}
