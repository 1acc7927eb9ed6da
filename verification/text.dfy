/**
 * Strings as JavaScript sees them: the `\s` character class (which is also
 * the set `String.prototype.trim` removes), word characters, literal search,
 * trimming, `split` on a literal separator and decimal rendering of integers.
 */
module Text {

  datatype Option<T> = None | Some(value: T) {
    predicate IsFailure() {
      None?
    }

    function PropagateFailure<U>(): Option<U>
      requires None?
    {
      None
    }

    function Extract(): T
      requires Some?
    {
      value
    }

    function GetOr(default: T): T {
      match this
      case Some(v) => v
      case None => default
    }
  }

  /** Line terminators: the characters `.` does not match. */
  predicate IsLineTerminator(c: char) {
    c == '\n' || c == '\r' || c == '\U{2028}' || c == '\U{2029}'
  }

  /** JavaScript's `\s`: WhiteSpace plus LineTerminator. */
  predicate IsWhitespace(c: char) {
    || IsLineTerminator(c)
    || c == ' ' || c == '\t' || c == '\U{000B}' || c == '\U{000C}'
    || c == '\U{00A0}' || c == '\U{1680}' || ('\U{2000}' <= c <= '\U{200A}')
    || c == '\U{202F}' || c == '\U{205F}' || c == '\U{3000}' || c == '\U{FEFF}'
  }

  /** JavaScript's `\w` (without the `u` flag). */
  predicate IsWordChar(c: char) {
    ('A' <= c <= 'Z') || ('a' <= c <= 'z') || ('0' <= c <= '9') || c == '_'
  }

  predicate IsDigit(c: char) {
    '0' <= c <= '9'
  }

  predicate AllWhitespace(s: string) {
    forall k :: 0 <= k < |s| ==> IsWhitespace(s[k])
  }

  predicate AllDigits(s: string) {
    forall k :: 0 <= k < |s| ==> IsDigit(s[k])
  }

  /** ASCII upper-casing: what a case-insensitive match of an ASCII pattern folds to. */
  function UpperChar(c: char): (u: char)
    ensures !('a' <= u <= 'z')
  {
    if 'a' <= c <= 'z' then (c as int - 32) as char else c
  }

  /** Upper-casing keeps a character's class: whitespace stays whitespace, word characters stay word characters. */
  lemma UpperCharClass(c: char)
    ensures IsWhitespace(UpperChar(c)) <==> IsWhitespace(c)
    ensures IsWordChar(UpperChar(c)) <==> IsWordChar(c)
  {
  }

  lemma UpperBlank(s: string)
    requires AllWhitespace(s)
    ensures AllWhitespace(Upper(s))
  {
    forall k | 0 <= k < |s| ensures IsWhitespace(Upper(s)[k]) {
      UpperCharClass(s[k]);
    }
  }

  function Upper(s: string): (r: string)
    ensures |r| == |s|
    ensures forall k :: 0 <= k < |s| ==> r[k] == UpperChar(s[k])
  {
    seq(|s|, k requires 0 <= k < |s| => UpperChar(s[k]))
  }

  lemma UpperAppend(a: string, b: string)
    ensures Upper(a + b) == Upper(a) + Upper(b)
  {
  }

  // ---------------------------------------------------------------------
  // Literal search
  // ---------------------------------------------------------------------

  /** `pat` occurs in `s` starting at index `i`. */
  predicate OccursAt(s: string, pat: string, i: nat) {
    i + |pat| <= |s| && s[i..i + |pat|] == pat
  }

  predicate Contains(s: string, pat: string) {
    exists i: nat | i <= |s| :: OccursAt(s, pat, i)
  }

  /** `s.indexOf(pat, from)`: the leftmost occurrence at or after `from`. */
  function Find(s: string, pat: string, from: nat): (r: Option<nat>)
    ensures r.Some? ==> from <= r.value && OccursAt(s, pat, r.value)
    ensures r.Some? ==> forall k: nat :: from <= k < r.value ==> !OccursAt(s, pat, k)
    ensures r.None? <==> forall k: nat :: from <= k ==> !OccursAt(s, pat, k)
    decreases |s| - from
  {
    if from + |pat| > |s| then None
    else if s[from..from + |pat|] == pat then assert OccursAt(s, pat, from); Some(from)
    else Find(s, pat, from + 1)
  }

  /** An occurrence inside a slice is an occurrence in the whole text. */
  lemma SliceContains(s: string, i: nat, j: nat, pat: string)
    requires i <= j <= |s| && Contains(s[i..j], pat)
    ensures Contains(s, pat)
  {
    var u := s[i..j];
    var k: nat :| k <= |u| && OccursAt(u, pat, k);
    forall t | 0 <= t < |pat| ensures s[i + k + t] == pat[t] {
      assert u[k + t] == s[i + k + t];
      assert u[k..k + |pat|][t] == u[k + t];
    }
    assert OccursAt(s, pat, i + k);
  }

  lemma OccursAtTail(x: string, pat: string, k: nat)
    requires x != []
    ensures OccursAt(x, pat, k + 1) <==> OccursAt(x[1..], pat, k)
  {
    if k + 1 + |pat| <= |x| {
      assert x[k + 1..k + 1 + |pat|] == x[1..][k..k + |pat|];
    }
  }

  /** Searching past a first character that starts no occurrence is searching the rest, one position further on. */
  lemma FindShift(x: string, pat: string)
    requires x != [] && !OccursAt(x, pat, 0)
    ensures Find(x, pat, 0) == match Find(x[1..], pat, 0) case None => None case Some(j) => Some(j + 1)
  {
    forall k: nat ensures OccursAt(x, pat, k + 1) <==> OccursAt(x[1..], pat, k) {
      OccursAtTail(x, pat, k);
    }
    var f := Find(x, pat, 0);
    var g := Find(x[1..], pat, 0);
    if g.None? {
      forall k: nat ensures !OccursAt(x, pat, k) {
        if k > 0 {
          assert !OccursAt(x[1..], pat, k - 1);
        }
      }
    } else {
      var j := g.value;
      assert OccursAt(x, pat, j + 1);
      forall k: nat | k < j + 1 ensures !OccursAt(x, pat, k) {
        if k > 0 {
          assert !OccursAt(x[1..], pat, k - 1);
        }
      }
    }
  }

  // ---------------------------------------------------------------------
  // Trimming
  // ---------------------------------------------------------------------

  predicate IsTrimmed(s: string) {
    s == [] || (!IsWhitespace(s[0]) && !IsWhitespace(s[|s| - 1]))
  }

  /** `r` is `s` with the whitespace margins `s[..i]` and `s[i + |r|..]` cut off. */
  predicate CoreAt(s: string, r: string, i: nat) {
    && i + |r| <= |s|
    && s[i..i + |r|] == r
    && AllWhitespace(s[..i])
    && AllWhitespace(s[i + |r|..])
  }

  /** Length of the whitespace run that starts `s`. */
  function LeadingSpace(s: string): (n: nat)
    ensures n <= |s|
    ensures forall k :: 0 <= k < n <= |s| ==> IsWhitespace(s[k])
    ensures n < |s| ==> !IsWhitespace(s[n])
  {
    if s != [] && IsWhitespace(s[0]) then 1 + LeadingSpace(s[1..]) else 0
  }

  /**
   * End of the text once the whitespace run that ends it is cut off, never
   * going below `a`.
   */
  function CoreEnd(s: string, a: nat, j: nat): (e: nat)
    requires a <= j <= |s|
    ensures a <= e <= j
    ensures forall k :: e <= k < j ==> IsWhitespace(s[k])
    ensures e == a || !IsWhitespace(s[e - 1])
    decreases j
  {
    if j > a && IsWhitespace(s[j - 1]) then CoreEnd(s, a, j - 1) else j
  }

  /** `String.prototype.trim`. */
  function Trim(s: string): (r: string)
    ensures IsTrimmed(r)
    ensures CoreAt(s, r, LeadingSpace(s))
  {
    var a := LeadingSpace(s);
    var e := CoreEnd(s, a, |s|);
    CutIsTrimmed(s, a, e);
    CutIsCore(s, a, e);
    s[a..e]
  }

  lemma CutIsTrimmed(s: string, a: nat, e: nat)
    requires a <= e <= |s|
    requires a == |s| || !IsWhitespace(s[a])
    requires e == a || !IsWhitespace(s[e - 1])
    ensures IsTrimmed(s[a..e])
  {
  }

  lemma CutIsCore(s: string, a: nat, e: nat)
    requires a <= e <= |s|
    requires AllWhitespace(s[..a])
    requires forall k :: e <= k < |s| ==> IsWhitespace(s[k])
    ensures CoreAt(s, s[a..e], a)
  {
  }

  /** Outside its core, a string is whitespace. */
  lemma Margin(s: string, r: string, i: nat, k: nat)
    requires CoreAt(s, r, i) && k < |s| && (k < i || i + |r| <= k)
    ensures IsWhitespace(s[k])
  {
    if k < i {
      assert s[..i][k] == s[k];
    } else {
      assert s[i + |r|..][k - i - |r|] == s[k];
    }
  }

  /** A string has one trimmed core: two ways of cutting whitespace margins off that leave trimmed text agree. */
  lemma CoreUnique(s: string, r1: string, i1: nat, r2: string, i2: nat)
    requires IsTrimmed(r1) && CoreAt(s, r1, i1)
    requires IsTrimmed(r2) && CoreAt(s, r2, i2)
    ensures r1 == r2
  {
    if r1 != [] && r2 != [] {
      assert s[i1] == r1[0] && s[i2] == r2[0];
      assert s[i1 + |r1| - 1] == r1[|r1| - 1] && s[i2 + |r2| - 1] == r2[|r2| - 1];
      if i1 < i2 {
        Margin(s, r2, i2, i1);
      } else if i2 < i1 {
        Margin(s, r1, i1, i2);
      }
    } else if r1 != [] {
      assert s[i1] == r1[0];
      Margin(s, r2, i2, i1);
    } else if r2 != [] {
      assert s[i2] == r2[0];
      Margin(s, r1, i1, i2);
    }
  }

  /** The trimmed core of a string is unique: Trim is the only way to cut margins off. */
  lemma CoreIsTrim(s: string, r: string, i: nat)
    requires IsTrimmed(r) && CoreAt(s, r, i)
    ensures r == Trim(s)
  {
    CoreUnique(s, r, i, Trim(s), LeadingSpace(s));
  }

  lemma TrimOfTrimmed(s: string)
    requires IsTrimmed(s)
    ensures Trim(s) == s
  {
    assert CoreAt(s, s, 0);
    CoreIsTrim(s, s, 0);
  }

  /** `s` with the literal prefix `lit` removed, if `s` starts with it. */
  function Expect(s: string, lit: string): (r: Option<string>)
    ensures r.Some? <==> |lit| <= |s| && s[..|lit|] == lit
    ensures r.Some? ==> s == lit + r.value
  {
    if |lit| <= |s| && s[..|lit|] == lit then Some(s[|lit|..]) else None
  }

  predicate EndsWith(s: string, c: char) {
    |s| > 0 && s[|s| - 1] == c
  }

  // ---------------------------------------------------------------------
  // `split` on a literal separator
  // ---------------------------------------------------------------------

  /** `s.split(sep)` for a non-empty literal separator: cut at every occurrence, left to right. */
  function Split(s: string, sep: string): (parts: seq<string>)
    requires sep != []
    ensures |parts| >= 1
    ensures forall k :: 0 <= k < |parts| ==> !Contains(parts[k], sep)
    ensures forall k :: 0 <= k < |parts| - 1 ==>
      Find(parts[k] + sep, sep, 0).Some? && Find(parts[k] + sep, sep, 0).value == |parts[k]|
    decreases |s|
  {
    match Find(s, sep, 0)
    case None => [s]
    case Some(i) =>
      var head := s[..i];
      HeadHasNone(s, sep, i);
      FirstCut(s, sep, i);
      [head] + Split(s[i + |sep|..], sep)
  }

  /** Cutting the text just after its leftmost occurrence keeps that occurrence leftmost. */
  lemma FirstCut(s: string, sep: string, i: nat)
    requires Find(s, sep, 0).Some? && Find(s, sep, 0).value == i
    ensures Find(s[..i] + sep, sep, 0).Some? && Find(s[..i] + sep, sep, 0).value == i
  {
    var n := i + |sep|;
    assert s[..i] + sep == s[..n] by {
      assert s[i..n] == sep;
      assert s[..i] + s[i..n] == s[..n];
    }
    PrefixKeepsLeftmost(s, sep, i, n);
    FindIsLeftmost(s[..n], sep, i);
  }

  /** The text ahead of the leftmost occurrence contains none. */
  lemma HeadHasNone(s: string, pat: string, i: nat)
    requires pat != [] && i <= |s| && forall k: nat :: k < i ==> !OccursAt(s, pat, k)
    ensures !Contains(s[..i], pat)
  {
    var head := s[..i];
    forall k: nat | k + |pat| <= |head| ensures !OccursAt(head, pat, k) {
      assert head[k..k + |pat|] == s[k..k + |pat|];
      assert !OccursAt(s, pat, k);
    }
  }

  /** The leftmost occurrence stays leftmost in the prefix that ends with it. */
  lemma PrefixKeepsLeftmost(s: string, pat: string, i: nat, n: nat)
    requires n == i + |pat|
    requires OccursAt(s, pat, i) && forall k: nat :: k < i ==> !OccursAt(s, pat, k)
    ensures OccursAt(s[..n], pat, i)
    ensures forall k: nat :: k < i ==> !OccursAt(s[..n], pat, k)
  {
    var u := s[..n];
    assert u[i..n] == s[i..n];
    forall k: nat | k < i ensures !OccursAt(u, pat, k) {
      assert u[k..k + |pat|] == s[k..k + |pat|];
      assert !OccursAt(s, pat, k);
    }
  }

  /** `Find` from the start returns exactly the leftmost occurrence. */
  lemma FindIsLeftmost(s: string, pat: string, i: nat)
    requires OccursAt(s, pat, i) && forall k: nat :: k < i ==> !OccursAt(s, pat, k)
    ensures Find(s, pat, 0).Some? && Find(s, pat, 0).value == i
  {
  }

  function Join(parts: seq<string>, sep: string): string {
    if |parts| == 0 then []
    else if |parts| == 1 then parts[0]
    else parts[0] + sep + Join(parts[1..], sep)
  }

  /** Splitting loses nothing: joining the pieces with the separator restores the input. */
  lemma {:induction false} JoinSplit(s: string, sep: string)
    requires sep != []
    ensures Join(Split(s, sep), sep) == s
    decreases |s|
  {
    var f := Find(s, sep, 0);
    if f.Some? {
      var i := f.value;
      var rest := s[i + |sep|..];
      var tail := Split(rest, sep);
      JoinSplit(rest, sep);
      assert Split(s, sep) == [s[..i]] + tail;
      calc {
        Join(Split(s, sep), sep);
        { JoinCons(s[..i], tail, sep); }
        s[..i] + sep + Join(tail, sep);
        s[..i] + sep + rest;
        { CutAround(s, sep, i); }
        s;
      }
    }
  }

  /** An occurrence splits the text into what precedes it, the pattern and what follows. */
  lemma CutAround(s: string, pat: string, i: nat)
    requires OccursAt(s, pat, i)
    ensures s == s[..i] + pat + s[i + |pat|..]
  {
    CutThree(s, i, i + |pat|);
  }

  /** Two cut points split a text into three pieces that concatenate back to it. */
  lemma CutThree(s: string, a: nat, b: nat)
    requires a <= b <= |s|
    ensures s == s[..a] + s[a..b] + s[b..]
  {
  }

  lemma JoinCons(head: string, tail: seq<string>, sep: string)
    requires tail != []
    ensures Join([head] + tail, sep) == head + sep + Join(tail, sep)
  {
    assert ([head] + tail)[1..] == tail;
  }

  // ---------------------------------------------------------------------
  // Decimal numbers, as template literals render integers
  // ---------------------------------------------------------------------

  function DigitChar(d: nat): (c: char)
    requires d < 10
    ensures IsDigit(c)
  {
    "0123456789"[d]
  }

  function DigitValue(c: char): (d: nat)
    requires IsDigit(c)
    ensures d < 10
  {
    (c as int - '0' as int) as nat
  }

  function NatToString(n: nat): (r: string)
    ensures |r| >= 1 && AllDigits(r)
    decreases n
  {
    if n < 10 then [DigitChar(n)] else NatToString(n / 10) + [DigitChar(n % 10)]
  }

  function IntToString(i: int): (r: string)
    ensures |r| >= 1
  {
    if i < 0 then "-" + NatToString(-i) else NatToString(i)
  }

  function ParseDigits(s: string): nat
    requires AllDigits(s)
  {
    if s == [] then 0 else ParseDigits(s[..|s| - 1]) * 10 + DigitValue(s[|s| - 1])
  }

  /** Rendering a natural number in decimal loses no information. */
  lemma {:induction false} ParseNatToString(n: nat)
    ensures ParseDigits(NatToString(n)) == n
    decreases n
  {
    if n >= 10 {
      var s := NatToString(n);
      assert s[..|s| - 1] == NatToString(n / 10);
      ParseNatToString(n / 10);
    }
  }

  /** Different numbers render differently. */
  lemma NatToStringInjective(m: nat, n: nat)
    requires m != n
    ensures NatToString(m) != NatToString(n)
  {
    ParseNatToString(m);
    ParseNatToString(n);
  }

  /** Equal texts with the same prefix have equal remainders. */
  lemma PrefixCancel(p: string, a: string, b: string)
    requires p + a == p + b
    ensures a == b
  {
    assert a == (p + a)[|p|..];
    assert b == (p + b)[|p|..];
  }

  /** Length of the run of decimal digits that starts `s`. */
  function DigitRun(s: string): (n: nat)
    ensures n <= |s|
    ensures forall k :: 0 <= k < n <= |s| ==> IsDigit(s[k])
    ensures n < |s| ==> !IsDigit(s[n])
  {
    if s != [] && IsDigit(s[0]) then 1 + DigitRun(s[1..]) else 0
  }

  lemma DigitRunOfDigits(d: string, rest: string)
    requires AllDigits(d)
    requires rest == [] || !IsDigit(rest[0])
    ensures DigitRun(d + rest) == |d|
    decreases |d|
  {
    if d != [] {
      assert (d + rest)[1..] == d[1..] + rest;
      DigitRunOfDigits(d[1..], rest);
    }
  }
}
