/**
 * The "Fix SQL" button: five case-insensitive typo rewrites applied in
 * order, a semicolon appended when the trimmed text lacks one, and a
 * formatting pass that runs only when neither of those changed anything.
 * Every regular expression involved is a global replace, modelled here as a
 * left-to-right scan that, at each position, either rewrites the match that
 * starts there and jumps past it or keeps one character.
 */
module SqlFix {
  import opened Text

  /**
   * The patterns the button uses: an ASCII upper-case literal matched
   * case-insensitively (`/SELCT/gi`), the same between word boundaries
   * (`/\bFROM\b/gi`), a whitespace run (`/\s+/g`) and a comma with the
   * whitespace after it (`/,\s*\/g`).
   */
  datatype Pattern = Literal(text: string) | Word(text: string) | Spaces | CommaSpaces

  /** `s` starts with `lit` when both are upper-cased, as the `i` flag compares ASCII letters. */
  predicate StartsWithCI(s: string, lit: string) {
    |lit| <= |s| && Upper(s[..|lit|]) == lit
  }

  /**
   * Length of the match of `p` at the start of `s`, 0 when there is none.
   * `before` says whether the character in front of `s` is a word character,
   * which is what `\b` looks at; at the start of the input it is false.
   */
  function MatchLength(before: bool, s: string, p: Pattern): (n: nat)
    ensures n <= |s|
  {
    match p
    case Literal(lit) => if lit != [] && StartsWithCI(s, lit) then |lit| else 0
    case Word(w) =>
      if && w != [] && StartsWithCI(s, w)
         && before != IsWordChar(s[0])
         && IsWordChar(s[|w| - 1]) != (|w| < |s| && IsWordChar(s[|w|]))
      then |w| else 0
    case Spaces => LeadingSpace(s)
    case CommaSpaces => if s != [] && s[0] == ',' then 1 + LeadingSpace(s[1..]) else 0
  }

  /** `s.replace(p, repl)` for a global pattern that never matches the empty string. */
  function ReplaceAll(s: string, p: Pattern, repl: string, before: bool): (r: string)
    ensures forall c :: c in r ==> c in s || c in repl
    decreases |s|
  {
    if s == [] then []
    else
      var n := MatchLength(before, s, p);
      if n > 0 then repl + ReplaceAll(s[n..], p, repl, IsWordChar(s[n - 1]))
      else [s[0]] + ReplaceAll(s[1..], p, repl, IsWordChar(s[0]))
  }

  // ---------------------------------------------------------------------
  // Literal rewrites as "find the leftmost occurrence, replace, go on"
  // ---------------------------------------------------------------------

  /** A literal matches at index `i` exactly where it occurs in the upper-cased text. */
  lemma LiteralMatchIsOccurrence(s: string, lit: string, i: nat, before: bool)
    requires lit != [] && i <= |s|
    ensures MatchLength(before, s[i..], Literal(lit)) > 0 <==> OccursAt(Upper(s), lit, i)
  {
    if i + |lit| <= |s| {
      assert Upper(s[i..][..|lit|]) == Upper(s)[i..i + |lit|];
    }
  }

  /** Occurrences in the text without its first character are those of the whole text, one position earlier. */
  lemma OccursShift(s: string, lit: string, k: nat)
    requires s != []
    ensures OccursAt(Upper(s), lit, k + 1) <==> OccursAt(Upper(s[1..]), lit, k)
  {
    assert Upper(s)[1..] == Upper(s[1..]);
    OccursAtTail(Upper(s), lit, k);
  }

  /** A global rewrite of a literal that does not occur, in any letter case, leaves the text as it is. */
  lemma {:induction false} NoOccurrenceUnchanged(s: string, lit: string, repl: string, before: bool)
    requires lit != [] && !Contains(Upper(s), lit)
    ensures ReplaceAll(s, Literal(lit), repl, before) == s
    decreases |s|
  {
    if s != [] {
      LiteralMatchIsOccurrence(s, lit, 0, before);
      assert s[0..] == s;
      assert !OccursAt(Upper(s), lit, 0);
      assert !Contains(Upper(s[1..]), lit) by {
        forall i: nat | i <= |Upper(s[1..])| ensures !OccursAt(Upper(s[1..]), lit, i) {
          OccursShift(s, lit, i);
          assert !OccursAt(Upper(s), lit, i + 1);
        }
      }
      NoOccurrenceUnchanged(s[1..], lit, repl, IsWordChar(s[0]));
      assert [s[0]] + s[1..] == s;
    }
  }

  /**
   * At the leftmost occurrence, index `i`, the replacement goes in and the
   * scan carries on after it: together with `NoOccurrenceUnchanged` this is
   * the usual description of a global replace (cut at the leftmost
   * occurrence, put the replacement there, continue with the rest).
   */
  lemma {:induction false} ReplaceAtFirstOccurrence(s: string, i: nat, lit: string, repl: string, before: bool)
    requires lit != [] && OccursAt(Upper(s), lit, i)
    requires forall k: nat :: k < i ==> !OccursAt(Upper(s), lit, k)
    ensures ReplaceAll(s, Literal(lit), repl, before) == s[..i] + repl + ReplaceAll(s[i + |lit|..], Literal(lit), repl, false)
    decreases i
  {
    if i == 0 {
      assert Upper(s)[..|lit|] == Upper(s[..|lit|]);
      ReplaceAtOccurrence(s, lit, repl, before);
    } else {
      var j := i - 1;
      FirstOccurrenceShifts(s, i, lit);
      ReplaceSkip(s, lit, repl, before);
      ReplaceAtFirstOccurrence(s[1..], j, lit, repl, IsWordChar(s[0]));
      Recombine(s, i, j, lit, repl, ReplaceAll(s[1..], Literal(lit), repl, IsWordChar(s[0])));
    }
  }

  /** Dropping the first character moves the leftmost occurrence one place to the left. */
  lemma FirstOccurrenceShifts(s: string, i: nat, lit: string)
    requires 0 < i && OccursAt(Upper(s), lit, i)
    requires forall k: nat :: k < i ==> !OccursAt(Upper(s), lit, k)
    ensures s != [] && !OccursAt(Upper(s), lit, 0)
    ensures OccursAt(Upper(s[1..]), lit, i - 1)
    ensures forall k: nat :: k < i - 1 ==> !OccursAt(Upper(s[1..]), lit, k)
  {
    OccursShift(s, lit, i - 1);
    forall k: nat | k < i - 1 ensures !OccursAt(Upper(s[1..]), lit, k) {
      OccursShift(s, lit, k);
    }
  }

  lemma ReplaceAtOccurrence(s: string, lit: string, repl: string, before: bool)
    requires lit != [] && |lit| <= |s| && Upper(s[..|lit|]) == lit
    ensures ReplaceAll(s, Literal(lit), repl, before) == s[..0] + repl + ReplaceAll(s[0 + |lit|..], Literal(lit), repl, false)
  {
    assert s[..|lit|] + s[|lit|..] == s;
    ReplaceAtStart(s[..|lit|], s[|lit|..], lit, repl, before);
    assert s[..0] + repl == repl;
  }

  /** Putting the first character back in front of a cut made one place further on. */
  lemma Recombine(s: string, i: nat, j: nat, lit: string, repl: string, r: string)
    requires i == j + 1 && i + |lit| <= |s|
    requires r == s[1..][..j] + repl + ReplaceAll(s[1..][j + |lit|..], Literal(lit), repl, false)
    ensures [s[0]] + r == s[..i] + repl + ReplaceAll(s[i + |lit|..], Literal(lit), repl, false)
  {
    DropAfterHead(s, j + |lit|, i + |lit|);
    TakeAfterHead(s, i, j);
    ConsAssoc(s[0], s[1..][..j], repl, ReplaceAll(s[i + |lit|..], Literal(lit), repl, false));
  }

  lemma DropAfterHead(s: string, j: nat, i: nat)
    requires i == j + 1 && i <= |s|
    ensures s[1..][j..] == s[i..]
  {
  }

  lemma ConsAssoc(c: char, a: string, b: string, d: string)
    ensures [c] + (a + b + d) == [c] + a + b + d
  {
  }

  lemma TakeAfterHead(s: string, i: nat, j: nat)
    requires i == j + 1 && i <= |s|
    ensures [s[0]] + s[1..][..j] == s[..i]
  {
  }

  lemma ReplaceAtStart(m: string, y: string, lit: string, repl: string, before: bool)
    requires lit != [] && Upper(m) == lit
    ensures ReplaceAll(m + y, Literal(lit), repl, before) == repl + ReplaceAll(y, Literal(lit), repl, false)
  {
    var s := m + y;
    assert s[..|lit|] == m;
    assert MatchLength(before, s, Literal(lit)) == |lit|;
    assert s[|lit|..] == y;
    LiteralIgnoresBoundary(y, lit, repl, IsWordChar(s[|lit| - 1]));
  }

  lemma ReplaceSkip(s: string, lit: string, repl: string, before: bool)
    requires lit != [] && s != [] && !OccursAt(Upper(s), lit, 0)
    ensures ReplaceAll(s, Literal(lit), repl, before) == [s[0]] + ReplaceAll(s[1..], Literal(lit), repl, IsWordChar(s[0]))
  {
    LiteralMatchIsOccurrence(s, lit, 0, before);
    assert s[0..] == s;
  }

  /** Literal patterns have no `\b`, so what precedes the text does not matter. */
  lemma {:induction false} LiteralIgnoresBoundary(s: string, lit: string, repl: string, before: bool)
    ensures ReplaceAll(s, Literal(lit), repl, before) == ReplaceAll(s, Literal(lit), repl, false)
    decreases |s|
  {
    if s != [] {
      var n := MatchLength(before, s, Literal(lit));
      if n > 0 {
        LiteralIgnoresBoundary(s[n..], lit, repl, IsWordChar(s[n - 1]));
      } else {
        LiteralIgnoresBoundary(s[1..], lit, repl, IsWordChar(s[0]));
      }
    }
  }

  // ---------------------------------------------------------------------
  // The typo rules
  // ---------------------------------------------------------------------

  /** One entry of the rule table: an upper-case pattern and its replacement. */
  datatype Rule = Rule(pattern: string, replacement: string)

  const CommonFixes: seq<Rule> := [
    Rule("SELCT", "SELECT"),
    Rule("FORM", "FROM"),
    Rule("WEHERE", "WHERE"),
    Rule("GROPU BY", "GROUP BY"),
    Rule("ORDR BY", "ORDER BY")
  ]

  /** `/pattern/gi.test(s)` on a freshly built expression: does the pattern occur anywhere, ignoring case. */
  predicate Fires(s: string, rule: Rule) {
    Contains(Upper(s), rule.pattern)
  }

  /**
   * The `forEach` over the rule table: each rule that fires rewrites every
   * occurrence and raises the change flag. Returns the text and the flag.
   */
  function ApplyRules(s: string, rules: seq<Rule>): (r: (string, bool))
    requires forall k :: 0 <= k < |rules| ==> rules[k].pattern != []
    ensures r.1 <==> exists k :: 0 <= k < |rules| && Fires(s, rules[k])
    ensures !r.1 ==> r.0 == s
    ensures r.0 == RewriteEach(s, rules)
    decreases |rules|
  {
    if rules == [] then (s, false)
    else
      var rule := rules[0];
      var fired := Fires(s, rule);
      var t := if fired then ReplaceAll(s, Literal(rule.pattern), rule.replacement, false) else s;
      assert t == ReplaceAll(s, Literal(rule.pattern), rule.replacement, false) by {
        if !fired {
          NoOccurrenceUnchanged(s, rule.pattern, rule.replacement, false);
        }
      }
      var rest := ApplyRules(t, rules[1..]);
      assert forall k :: 1 <= k < |rules| ==> rules[k] == rules[1..][k - 1];
      (rest.0, fired || rest.1)
  }

  /**
   * The table without the `test` guards: every rule rewrites in turn,
   * whether or not its pattern occurs.
   */
  function RewriteEach(s: string, rules: seq<Rule>): string
    decreases |rules|
  {
    if rules == [] then s
    else RewriteEach(ReplaceAll(s, Literal(rules[0].pattern), rules[0].replacement, false), rules[1..])
  }

  // ---------------------------------------------------------------------
  // Why the table leaves no typo behind
  // ---------------------------------------------------------------------

  /** `q[i..i + n] == b[j..j + n]`, compared one character at a time. */
  predicate SameRun(q: string, i: nat, b: string, j: nat, n: nat)
    requires i + n <= |q| && j + n <= |b|
    decreases n
  {
    n == 0 || (q[i] == b[j] && SameRun(q, i + 1, b, j + 1, n - 1))
  }

  lemma {:induction false} SameRunIsSlice(q: string, i: nat, b: string, j: nat, n: nat)
    requires i + n <= |q| && j + n <= |b|
    ensures SameRun(q, i, b, j, n) <==> q[i..i + n] == b[j..j + n]
    decreases n
  {
    if n > 0 {
      SameRunIsSlice(q, i + 1, b, j + 1, n - 1);
      assert q[i..i + n] == [q[i]] + q[i + 1..i + n];
      assert b[j..j + n] == [b[j]] + b[j + 1..j + n];
    }
  }

  /** `q` does not occur in `b` at `i` or after. */
  predicate NotWithin(q: string, b: string, i: nat)
    decreases |b| - i
  {
    i + |q| > |b| || (!SameRun(q, 0, b, i, |q|) && NotWithin(q, b, i + 1))
  }

  /** No tail `q[m..]`, from `m` on, is a head of `b`: `q` cannot end inside `b`. */
  predicate TailNotAtStart(q: string, b: string, m: nat)
    decreases |q| - m
  {
    m >= |q| || ((|q| - m > |b| || !SameRun(q, m, b, 0, |q| - m)) && TailNotAtStart(q, b, m + 1))
  }

  /** No head `q[..m]`, from `m` on, is a tail of `b`: `q` cannot start inside `b`. */
  predicate HeadNotAtEnd(q: string, b: string, m: nat)
    decreases |q| - m
  {
    m >= |q| || ((m > |b| || !SameRun(q, 0, b, |b| - m, m)) && HeadNotAtEnd(q, b, m + 1))
  }

  /** `b` does not sit strictly inside `q` at `m` or after. */
  predicate NotInside(q: string, b: string, m: nat)
    decreases |q| - m
  {
    m >= |q| || ((m + |b| >= |q| || !SameRun(q, m, b, 0, |b|)) && NotInside(q, b, m + 1))
  }

  /**
   * No occurrence of `q` can use any character of an inserted `b`: not one
   * inside it, nor one that overlaps either of its ends, nor one that covers it.
   */
  predicate CannotStraddle(q: string, b: string) {
    NotWithin(q, b, 0) && TailNotAtStart(q, b, 1) && HeadNotAtEnd(q, b, 1) && NotInside(q, b, 1)
  }

  lemma {:induction false} NotWithinAt(q: string, b: string, i0: nat, i: nat)
    requires NotWithin(q, b, i0) && i0 <= i && i + |q| <= |b|
    ensures b[i..i + |q|] != q
    decreases i - i0
  {
    if i == i0 {
      SameRunIsSlice(q, 0, b, i, |q|);
    } else {
      NotWithinAt(q, b, i0 + 1, i);
    }
  }

  lemma {:induction false} TailNotAtStartAt(q: string, b: string, m0: nat, m: nat)
    requires TailNotAtStart(q, b, m0) && m0 <= m < |q| && |q| - m <= |b|
    ensures q[m..] != b[..|q| - m]
    decreases m - m0
  {
    if m == m0 {
      SameRunIsSlice(q, m, b, 0, |q| - m);
    } else {
      TailNotAtStartAt(q, b, m0 + 1, m);
    }
  }

  lemma {:induction false} HeadNotAtEndAt(q: string, b: string, m0: nat, m: nat)
    requires HeadNotAtEnd(q, b, m0) && m0 <= m < |q| && m <= |b|
    ensures q[..m] != b[|b| - m..]
    decreases m - m0
  {
    if m == m0 {
      SameRunIsSlice(q, 0, b, |b| - m, m);
    } else {
      HeadNotAtEndAt(q, b, m0 + 1, m);
    }
  }

  lemma {:induction false} NotInsideAt(q: string, b: string, m0: nat, m: nat)
    requires NotInside(q, b, m0) && m0 <= m && m + |b| < |q|
    ensures q[m..m + |b|] != b
    decreases m - m0
  {
    if m == m0 {
      SameRunIsSlice(q, m, b, 0, |b|);
    } else {
      NotInsideAt(q, b, m0 + 1, m);
    }
  }

  /** An occurrence in `a + b + c` lies in `a`, in `b`, in `c`, or across an end of `b`. */
  lemma NoOccurrenceAcross(a: string, b: string, c: string, q: string, k: nat)
    requires q != [] && CannotStraddle(q, b) && !Contains(a, q) && !Contains(c, q)
    ensures !OccursAt(a + b + c, q, k)
  {
    var u := a + b + c;
    var n := |q|;
    if k + n > |u| {
    } else if k + n <= |a| {
      AcrossInA(a, b, c, q, k);
    } else if k < |a| && k + n <= |a| + |b| {
      AcrossIntoB(a, b, c, q, k);
    } else if k < |a| {
      AcrossOverB(a, b, c, q, k);
    } else if k + n <= |a| + |b| {
      AcrossInB(a, b, c, q, k);
    } else if k < |a| + |b| {
      AcrossOutOfB(a, b, c, q, k);
    } else {
      AcrossInC(a, b, c, q, k);
    }
  }

  lemma AcrossInA(a: string, b: string, c: string, q: string, k: nat)
    requires !Contains(a, q) && k + |q| <= |a|
    ensures !OccursAt(a + b + c, q, k)
  {
    assert (a + b + c)[k..k + |q|] == a[k..k + |q|];
    assert !OccursAt(a, q, k);
  }

  lemma AcrossIntoB(a: string, b: string, c: string, q: string, k: nat)
    requires TailNotAtStart(q, b, 1) && k < |a| < k + |q| <= |a| + |b|
    ensures !OccursAt(a + b + c, q, k)
  {
    var u := a + b + c;
    var m := |a| - k;
    TailNotAtStartAt(q, b, 1, m);
    assert u[k..k + |q|][m..] == b[..|q| - m];
  }

  lemma AcrossOverB(a: string, b: string, c: string, q: string, k: nat)
    requires NotInside(q, b, 1) && k < |a| && |a| + |b| < k + |q| <= |a| + |b| + |c|
    ensures !OccursAt(a + b + c, q, k)
  {
    var j := k + |q| - |a| - |b|;
    var m := |a| - k;
    NotInsideAt(q, b, 1, m);
    var x, y := a[k..], c[..j];
    WindowOverB(a, b, c, k, j);
    MiddleSlice(x, b, y);
    var w := (a + b + c)[k..k + |q|];
    assert w == x + b + y && |x| == m;
    assert w[m..m + |b|] == b;
  }

  lemma WindowOverB(a: string, b: string, c: string, k: nat, j: nat)
    requires k <= |a| && j <= |c|
    ensures (a + b + c)[k..|a| + |b| + j] == a[k..] + b + c[..j]
  {
  }

  lemma MiddleSlice(x: string, b: string, y: string)
    ensures (x + b + y)[|x|..|x| + |b|] == b
  {
  }

  lemma AcrossInB(a: string, b: string, c: string, q: string, k: nat)
    requires NotWithin(q, b, 0) && |a| <= k && k + |q| <= |a| + |b|
    ensures !OccursAt(a + b + c, q, k)
  {
    var i := k - |a|;
    NotWithinAt(q, b, 0, i);
    assert (a + b + c)[k..k + |q|] == b[i..i + |q|];
  }

  lemma AcrossOutOfB(a: string, b: string, c: string, q: string, k: nat)
    requires HeadNotAtEnd(q, b, 1) && |a| <= k < |a| + |b| < k + |q| <= |a| + |b| + |c|
    ensures !OccursAt(a + b + c, q, k)
  {
    var u := a + b + c;
    var m := |a| + |b| - k;
    HeadNotAtEndAt(q, b, 1, m);
    assert u[k..|a| + |b|] == b[|b| - m..];
    assert u[k..k + |q|][..m] == u[k..|a| + |b|];
  }

  lemma AcrossInC(a: string, b: string, c: string, q: string, k: nat)
    requires !Contains(c, q) && |a| + |b| <= k && k + |q| <= |a| + |b| + |c|
    ensures !OccursAt(a + b + c, q, k)
  {
    var i := k - |a| - |b|;
    assert (a + b + c)[k..k + |q|] == c[i..i + |q|];
    assert !OccursAt(c, q, i);
  }

  /** What is absent from a text is absent from any tail of it. */
  lemma TailKeepsAbsence(s: string, j: nat, q: string)
    requires j <= |s| && !Contains(Upper(s), q)
    ensures !Contains(Upper(s[j..]), q)
  {
    var u := Upper(s);
    var t := Upper(s[j..]);
    assert t == u[j..];
    forall k: nat | k + |q| <= |t| ensures !OccursAt(t, q, k) {
      assert t[k..k + |q|] == u[j + k..j + k + |q|];
      assert !OccursAt(u, q, j + k);
    }
  }

  /**
   * Ahead of the leftmost occurrence of `pat` there is no occurrence of `q`
   * when `q` is `pat` or absent altogether.
   */
  lemma HeadKeepsAbsence(s: string, i: nat, pat: string, q: string)
    requires q != [] && i <= |s| && forall k: nat :: k < i ==> !OccursAt(Upper(s), pat, k)
    requires q == pat || !Contains(Upper(s), q)
    ensures !Contains(Upper(s[..i]), q)
  {
    var u := Upper(s);
    var a := Upper(s[..i]);
    assert a == u[..i];
    forall k: nat | k + |q| <= |a| ensures !OccursAt(a, q, k) {
      assert a[k..k + |q|] == u[k..k + |q|];
      assert !OccursAt(u, q, k);
    }
  }

  /**
   * A global rewrite leaves no occurrence of `q`, in any letter case, when the
   * replacement cannot help form one and `q` is either the rewritten pattern
   * itself or absent to begin with.
   */
  lemma {:induction false} ReplaceLeavesNone(s: string, pat: string, repl: string, q: string)
    requires pat != [] && q != [] && CannotStraddle(q, Upper(repl))
    requires q == pat || !Contains(Upper(s), q)
    ensures !Contains(Upper(ReplaceAll(s, Literal(pat), repl, false)), q)
    decreases |s|
  {
    var f := Find(Upper(s), pat, 0);
    if f.None? {
      NoOccurrenceUnchanged(s, pat, repl, false);
    } else {
      var i := f.value;
      var rest := s[i + |pat|..];
      if q != pat {
        TailKeepsAbsence(s, i + |pat|, q);
      }
      ReplaceLeavesNone(rest, pat, repl, q);
      RewriteAtFirstKeepsAbsence(s, i, pat, repl, q);
    }
  }

  /** The step of `ReplaceLeavesNone` at the leftmost occurrence, index `i`. */
  lemma RewriteAtFirstKeepsAbsence(s: string, i: nat, pat: string, repl: string, q: string)
    requires pat != [] && q != [] && CannotStraddle(q, Upper(repl))
    requires OccursAt(Upper(s), pat, i) && forall k: nat :: k < i ==> !OccursAt(Upper(s), pat, k)
    requires q == pat || !Contains(Upper(s), q)
    requires !Contains(Upper(ReplaceAll(s[i + |pat|..], Literal(pat), repl, false)), q)
    ensures !Contains(Upper(ReplaceAll(s, Literal(pat), repl, false)), q)
  {
    ReplaceAtFirstOccurrence(s, i, pat, repl, false);
    HeadKeepsAbsence(s, i, pat, q);
    JoinKeepsAbsence(s[..i], repl, ReplaceAll(s[i + |pat|..], Literal(pat), repl, false), q);
  }

  /** Putting `repl` between two texts free of `q` forms no `q` when `repl` cannot straddle it. */
  lemma JoinKeepsAbsence(x: string, repl: string, y: string, q: string)
    requires q != [] && CannotStraddle(q, Upper(repl))
    requires !Contains(Upper(x), q) && !Contains(Upper(y), q)
    ensures !Contains(Upper(x + repl + y), q)
  {
    UpperAppend(x, repl);
    UpperAppend(x + repl, y);
    forall k: nat ensures !OccursAt(Upper(x + repl + y), q, k) {
      NoOccurrenceAcross(Upper(x), Upper(repl), Upper(y), q, k);
    }
  }

  /** A pattern already absent stays absent through rules whose replacements cannot form it. */
  lemma {:induction false} RewriteEachKeepsOut(s: string, rules: seq<Rule>, q: string)
    requires forall k :: 0 <= k < |rules| ==> rules[k].pattern != []
    requires q != [] && !Contains(Upper(s), q)
    requires forall j :: 0 <= j < |rules| ==> CannotStraddle(q, Upper(rules[j].replacement))
    ensures !Contains(Upper(RewriteEach(s, rules)), q)
    decreases |rules|
  {
    if rules != [] {
      ReplaceLeavesNone(s, rules[0].pattern, rules[0].replacement, q);
      assert forall j :: 0 <= j < |rules| - 1 ==> rules[1..][j] == rules[j + 1];
      RewriteEachKeepsOut(ReplaceAll(s, Literal(rules[0].pattern), rules[0].replacement, false), rules[1..], q);
    }
  }

  /** Rule `k`'s pattern is gone at the end when neither its own nor any later replacement can form it. */
  lemma {:induction false} RewriteEachClears(s: string, rules: seq<Rule>, k: nat)
    requires forall j :: 0 <= j < |rules| ==> rules[j].pattern != []
    requires k < |rules|
    requires forall j :: k <= j < |rules| ==> CannotStraddle(rules[k].pattern, Upper(rules[j].replacement))
    ensures !Contains(Upper(RewriteEach(s, rules)), rules[k].pattern)
    decreases k
  {
    var t := ReplaceAll(s, Literal(rules[0].pattern), rules[0].replacement, false);
    assert forall j :: 0 <= j < |rules| - 1 ==> rules[1..][j] == rules[j + 1];
    if k == 0 {
      ReplaceLeavesNone(s, rules[0].pattern, rules[0].replacement, rules[0].pattern);
      RewriteEachKeepsOut(t, rules[1..], rules[0].pattern);
    } else {
      RewriteEachClears(t, rules[1..], k - 1);
    }
  }

  /**
   * No replacement of the table can form its own pattern or an earlier one,
   * checked pair by pair below.
   */
  lemma CommonFixesUntangled()
    ensures forall i, j :: 0 <= i <= j < |CommonFixes| ==>
      CannotStraddle(CommonFixes[i].pattern, Upper(CommonFixes[j].replacement))
  {
    SelectAvoidsSelct();
    FromAvoidsSelct();
    FromAvoidsForm();
    WhereAvoidsSelct();
    WhereAvoidsForm();
    WhereAvoidsWehere();
    GroupByAvoidsSelct();
    GroupByAvoidsForm();
    GroupByAvoidsWehere();
    GroupByAvoidsGropuBy();
    OrderByAvoidsSelct();
    OrderByAvoidsForm();
    OrderByAvoidsWehere();
    OrderByAvoidsGropuBy();
    OrderByAvoidsOrdrBy();
  }

  lemma SelectAvoidsSelct()
    ensures CannotStraddle("SELCT", Upper("SELECT"))
  {
  }

  lemma FromAvoidsSelct()
    ensures CannotStraddle("SELCT", Upper("FROM"))
  {
  }

  lemma FromAvoidsForm()
    ensures CannotStraddle("FORM", Upper("FROM"))
  {
  }

  lemma WhereAvoidsSelct()
    ensures CannotStraddle("SELCT", Upper("WHERE"))
  {
  }

  lemma WhereAvoidsForm()
    ensures CannotStraddle("FORM", Upper("WHERE"))
  {
  }

  lemma WhereAvoidsWehere()
    ensures CannotStraddle("WEHERE", Upper("WHERE"))
  {
  }

  lemma GroupByAvoidsSelct()
    ensures CannotStraddle("SELCT", Upper("GROUP BY"))
  {
  }

  lemma GroupByAvoidsForm()
    ensures CannotStraddle("FORM", Upper("GROUP BY"))
  {
  }

  lemma GroupByAvoidsWehere()
    ensures CannotStraddle("WEHERE", Upper("GROUP BY"))
  {
  }

  lemma GroupByAvoidsGropuBy()
    ensures CannotStraddle("GROPU BY", Upper("GROUP BY"))
  {
  }

  lemma OrderByAvoidsSelct()
    ensures CannotStraddle("SELCT", Upper("ORDER BY"))
  {
  }

  lemma OrderByAvoidsForm()
    ensures CannotStraddle("FORM", Upper("ORDER BY"))
  {
  }

  lemma OrderByAvoidsWehere()
    ensures CannotStraddle("WEHERE", Upper("ORDER BY"))
  {
  }

  lemma OrderByAvoidsGropuBy()
    ensures CannotStraddle("GROPU BY", Upper("ORDER BY"))
  {
    assert !SameRun("GROPU BY", 2, Upper("ORDER BY"), 0, 6);
  }

  lemma OrderByAvoidsOrdrBy()
    ensures CannotStraddle("ORDR BY", Upper("ORDER BY"))
  {
  }

  /** Once the table has run, none of its typos is left in the text, in any letter case. */
  lemma TyposCorrected(s: string)
    ensures forall k :: 0 <= k < |CommonFixes| ==> !Fires(ApplyRules(s, CommonFixes).0, CommonFixes[k])
  {
    CommonFixesUntangled();
    forall k | 0 <= k < |CommonFixes| ensures !Fires(ApplyRules(s, CommonFixes).0, CommonFixes[k]) {
      RewriteEachClears(s, CommonFixes, k);
    }
  }

  /** Some rule of the table matches the original text. */
  predicate HasTypo(sql: string) {
    exists k :: 0 <= k < |CommonFixes| && Fires(sql, CommonFixes[k])
  }

  // ---------------------------------------------------------------------
  // Layout: the text with whitespace dropped and letters upper-cased
  // ---------------------------------------------------------------------

  /** The visible characters of `s`, in order. */
  function StripWs(s: string): string {
    if s == [] then []
    else StripWs(s[..|s| - 1]) + (if IsWhitespace(s[|s| - 1]) then [] else [s[|s| - 1]])
  }

  /** What the statement says once layout and letter case are ignored. */
  function Canon(s: string): string {
    StripWs(Upper(s))
  }

  lemma {:induction false} StripWsAppend(a: string, b: string)
    ensures StripWs(a + b) == StripWs(a) + StripWs(b)
    decreases |b|
  {
    if b != [] {
      var b' := b[..|b| - 1];
      assert (a + b)[..|a + b| - 1] == a + b';
      StripWsAppend(a, b');
    } else {
      assert a + b == a;
    }
  }

  lemma {:induction false} StripWsBlank(s: string)
    requires AllWhitespace(s)
    ensures StripWs(s) == []
    decreases |s|
  {
    if s != [] {
      StripWsBlank(s[..|s| - 1]);
    }
  }

  lemma CanonAppend(a: string, b: string)
    ensures Canon(a + b) == Canon(a) + Canon(b)
  {
    UpperAppend(a, b);
    StripWsAppend(Upper(a), Upper(b));
  }

  lemma CanonBlank(s: string)
    requires AllWhitespace(s)
    ensures Canon(s) == []
  {
    UpperBlank(s);
    StripWsBlank(Upper(s));
  }

  /** Trimming only removes layout. */
  lemma CanonTrim(s: string)
    ensures Canon(Trim(s)) == Canon(s)
  {
    var t := Trim(s);
    var a := LeadingSpace(s);
    var b := a + |t|;
    CutThree(s, a, b);
    CanonAppend(s[..a] + s[a..b], s[b..]);
    CanonAppend(s[..a], s[a..b]);
    CanonBlank(s[..a]);
    CanonBlank(s[b..]);
  }

  /** The last visible character of a trimmed text is its last character. */
  lemma CanonLast(t: string)
    requires IsTrimmed(t) && t != []
    ensures Canon(t) != [] && Canon(t)[|Canon(t)| - 1] == UpperChar(t[|t| - 1])
  {
    var u := Upper(t);
    UpperCharClass(t[|t| - 1]);
    assert !IsWhitespace(u[|u| - 1]);
  }

  /** A replacement is layout-only for a pattern when it shows exactly what every match shows. */
  predicate LayoutOnly(p: Pattern, repl: string) {
    match p
    case Literal(lit) => Canon(repl) == StripWs(lit)
    case Word(w) => Canon(repl) == StripWs(w)
    case Spaces => Canon(repl) == []
    case CommaSpaces => Canon(repl) == ","
  }

  lemma MatchCanon(before: bool, s: string, p: Pattern, repl: string)
    requires LayoutOnly(p, repl) && MatchLength(before, s, p) > 0
    ensures Canon(s[..MatchLength(before, s, p)]) == Canon(repl)
  {
    var n := MatchLength(before, s, p);
    match p
    case Literal(lit) =>
    case Word(w) =>
    case Spaces =>
      CanonBlank(s[..n]);
    case CommaSpaces =>
      assert s[..n] == [','] + s[1..][..n - 1];
      CanonAppend([','], s[1..][..n - 1]);
      CanonBlank(s[1..][..n - 1]);
      assert Upper([',']) == [','];
      assert StripWs([',']) == StripWs([]) + [','];
  }

  /** A global rewrite with a layout-only replacement changes only layout. */
  lemma {:induction false} ReplaceKeepsCanon(s: string, p: Pattern, repl: string, before: bool)
    requires LayoutOnly(p, repl)
    ensures Canon(ReplaceAll(s, p, repl, before)) == Canon(s)
    decreases |s|
  {
    if s != [] {
      var n := MatchLength(before, s, p);
      if n > 0 {
        var rest := ReplaceAll(s[n..], p, repl, IsWordChar(s[n - 1]));
        ReplaceKeepsCanon(s[n..], p, repl, IsWordChar(s[n - 1]));
        KeepsCanonAtMatch(before, s, p, repl, rest);
      } else {
        var rest := ReplaceAll(s[1..], p, repl, IsWordChar(s[0]));
        ReplaceKeepsCanon(s[1..], p, repl, IsWordChar(s[0]));
        KeepsCanonAtSkip(s, rest);
      }
    }
  }

  lemma KeepsCanonAtMatch(before: bool, s: string, p: Pattern, repl: string, rest: string)
    requires LayoutOnly(p, repl) && MatchLength(before, s, p) > 0
    requires Canon(rest) == Canon(s[MatchLength(before, s, p)..])
    ensures Canon(repl + rest) == Canon(s)
  {
    var n := MatchLength(before, s, p);
    MatchCanon(before, s, p, repl);
    CanonAppend(repl, rest);
    assert s == s[..n] + s[n..];
    CanonAppend(s[..n], s[n..]);
  }

  lemma KeepsCanonAtSkip(s: string, rest: string)
    requires s != [] && Canon(rest) == Canon(s[1..])
    ensures Canon([s[0]] + rest) == Canon(s)
  {
    CanonAppend([s[0]], rest);
    assert s == [s[0]] + s[1..];
    CanonAppend([s[0]], s[1..]);
  }

  // ---------------------------------------------------------------------
  // The formatting pass
  // ---------------------------------------------------------------------

  /** One step of the formatting chain: a pattern and what replaces each match. */
  datatype FormatStep = FormatStep(pattern: Pattern, replacement: string)

  const FormatSteps: seq<FormatStep> := [
    FormatStep(Spaces, " "),
    FormatStep(CommaSpaces, ",\n  "),
    FormatStep(Word("FROM"), "\nFROM"),
    FormatStep(Word("WHERE"), "\nWHERE"),
    FormatStep(Word("AND"), "\n  AND"),
    FormatStep(Word("OR"), "\n  OR"),
    FormatStep(Word("ORDER BY"), "\nORDER BY"),
    FormatStep(Word("GROUP BY"), "\nGROUP BY")
  ]

  /** The chained `.replace` calls, in order. */
  function ReplaceChain(s: string, steps: seq<FormatStep>): (r: string)
    requires forall k :: 0 <= k < |steps| ==> LayoutOnly(steps[k].pattern, steps[k].replacement)
    ensures Canon(r) == Canon(s)
    decreases |steps|
  {
    if steps == [] then s
    else
      var t := ReplaceAll(s, steps[0].pattern, steps[0].replacement, false);
      ReplaceKeepsCanon(s, steps[0].pattern, steps[0].replacement, false);
      assert forall k :: 1 <= k < |steps| ==> steps[k] == steps[1..][k - 1];
      ReplaceChain(t, steps[1..])
  }

  lemma FormatStepsLayoutOnly()
    ensures forall k :: 0 <= k < |FormatSteps| ==> LayoutOnly(FormatSteps[k].pattern, FormatSteps[k].replacement)
  {
    forall k | 0 <= k < |FormatSteps|
      ensures LayoutOnly(FormatSteps[k].pattern, FormatSteps[k].replacement)
    {
      FormatStepLayoutOnly(k);
    }
  }

  /** Every replacement of the formatting chain only adds or removes layout. */
  lemma FormatStepLayoutOnly(k: nat)
    requires k < |FormatSteps|
    ensures LayoutOnly(FormatSteps[k].pattern, FormatSteps[k].replacement)
  {
    if k == 0 {
      CanonBlank(" ");
    } else if k == 1 {
      CommaLayout();
    } else if k < 4 {
      LineBreakLayout(k);
    } else if k < 6 {
      IndentLayout(k);
    } else {
      LineBreakLayout(k);
    }
  }

  lemma LineBreakLayout(k: nat)
    requires k == 2 || k == 3 || k == 6 || k == 7
    ensures LayoutOnly(FormatSteps[k].pattern, FormatSteps[k].replacement)
  {
    if k == 2 {
      KeywordLayout("FROM", "\n", "\nFROM");
    } else if k == 3 {
      KeywordLayout("WHERE", "\n", "\nWHERE");
    } else if k == 6 {
      KeywordLayout("ORDER BY", "\n", "\nORDER BY");
    } else {
      KeywordLayout("GROUP BY", "\n", "\nGROUP BY");
    }
  }

  lemma IndentLayout(k: nat)
    requires k == 4 || k == 5
    ensures LayoutOnly(FormatSteps[k].pattern, FormatSteps[k].replacement)
  {
    if k == 4 {
      KeywordLayout("AND", "\n  ", "\n  AND");
    } else {
      KeywordLayout("OR", "\n  ", "\n  OR");
    }
  }

  lemma CommaLayout()
    ensures Canon(",\n  ") == ","
  {
    assert ",\n  " == "," + "\n  ";
    CanonAppend(",", "\n  ");
    CanonBlank("\n  ");
    assert Upper(",") == ",";
    assert StripWs(",") == StripWs([]) + [','];
  }

  /** A keyword put on a new line shows the same as the keyword. */
  lemma KeywordLayout(w: string, indent: string, repl: string)
    requires AllWhitespace(indent) && forall k :: 0 <= k < |w| ==> !('a' <= w[k] <= 'z')
    requires repl == indent + w
    ensures Canon(repl) == StripWs(w)
  {
    assert Upper(w) == w;
    CanonAppend(indent, w);
    CanonBlank(indent);
  }

  /** The formatting pass: the chain of rewrites, then `trim`. */
  function Format(s: string): (f: string)
    ensures IsTrimmed(f)
    ensures Canon(f) == Canon(s)
  {
    FormatStepsLayoutOnly();
    var t := ReplaceChain(s, FormatSteps);
    CanonTrim(t);
    Trim(t)
  }

  /** The formatting pass is the source's eight `.replace` calls, in that order, then `trim`. */
  lemma FormatIsChain(s: string)
    ensures var spaced := ReplaceAll(s, Spaces, " ", false);
            var listed := ReplaceAll(spaced, CommaSpaces, ",\n  ", false);
            var from := ReplaceAll(listed, Word("FROM"), "\nFROM", false);
            var where := ReplaceAll(from, Word("WHERE"), "\nWHERE", false);
            var and := ReplaceAll(where, Word("AND"), "\n  AND", false);
            var or := ReplaceAll(and, Word("OR"), "\n  OR", false);
            var order := ReplaceAll(or, Word("ORDER BY"), "\nORDER BY", false);
            var group := ReplaceAll(order, Word("GROUP BY"), "\nGROUP BY", false);
            Format(s) == Trim(group)
  {
    FormatStepsLayoutOnly();
    var steps := FormatSteps;
    assert steps[1..][1..][1..][1..][1..][1..][1..][1..] == [];
  }

  /** A keyword step leaves a text that does not contain the keyword, in any letter case, as it is. */
  lemma {:induction false} WordAbsentUnchanged(s: string, w: string, repl: string, before: bool)
    requires w != [] && !Contains(Upper(s), w)
    ensures ReplaceAll(s, Word(w), repl, before) == s
    decreases |s|
  {
    if s != [] {
      StartsIffOccurs(s, w);
      assert !OccursAt(Upper(s), w, 0);
      TailKeepsAbsence(s, 1, w);
      WordAbsentUnchanged(s[1..], w, repl, IsWordChar(s[0]));
      assert [s[0]] + s[1..] == s;
    }
  }

  lemma StartsIffOccurs(s: string, w: string)
    ensures StartsWithCI(s, w) <==> OccursAt(Upper(s), w, 0)
  {
    if |w| <= |s| {
      assert Upper(s[..|w|]) == Upper(s)[0..|w|];
    }
  }

  /** A keyword step keeps a character the keyword cannot start with. */
  lemma SkipOneChar(c: char, t: string, w: string, repl: string, before: bool)
    requires w != [] && UpperChar(c) != w[0]
    ensures ReplaceAll([c] + t, Word(w), repl, before) == [c] + ReplaceAll(t, Word(w), repl, IsWordChar(c))
  {
    var s := [c] + t;
    assert |w| <= |s| ==> Upper(s[..|w|])[0] == UpperChar(c);
    assert MatchLength(before, s, Word(w)) == 0;
    CopyStep(s, Word(w), repl, before);
    assert s[1..] == t;
  }

  /** A keyword step copies through a stretch that holds no letter the keyword could start with. */
  lemma {:induction false} SkipPrefix(x: string, t: string, w: string, repl: string, before: bool)
    requires w != [] && x != [] && forall k :: 0 <= k < |x| ==> UpperChar(x[k]) != w[0]
    ensures ReplaceAll(x + t, Word(w), repl, before) == x + ReplaceAll(t, Word(w), repl, IsWordChar(x[|x| - 1]))
    decreases |x|
  {
    SkipOneChar(x[0], x[1..] + t, w, repl, before);
    ConsSplit(x, t);
    if |x| > 1 {
      SkipPrefix(x[1..], t, w, repl, IsWordChar(x[0]));
      ConsSplit(x, ReplaceAll(t, Word(w), repl, IsWordChar(x[|x| - 1])));
    }
  }

  lemma ConsSplit(x: string, r: string)
    requires x != []
    ensures [x[0]] + (x[1..] + r) == x + r
  {
  }

  /** The scan `NotWithin` for a single letter finds it nowhere, in any letter case. */
  lemma NoSuchLetter(x: string, c: char)
    requires NotWithin([c], Upper(x), 0)
    ensures forall k :: 0 <= k < |x| ==> UpperChar(x[k]) != c
  {
    forall k | 0 <= k < |x| ensures UpperChar(x[k]) != c {
      NotWithinAt([c], Upper(x), 0, k);
      assert Upper(x)[k..k + 1] == [UpperChar(x[k])];
    }
  }

  /** A keyword standing alone at the front, in any letter case, is replaced. */
  lemma WordAtFront(m: string, t: string, w: string, repl: string, before: bool)
    requires w != [] && Upper(m) == w
    requires before != IsWordChar(m[0])
    requires IsWordChar(m[|m| - 1]) != (t != [] && IsWordChar(t[0]))
    ensures ReplaceAll(m + t, Word(w), repl, before) == repl + ReplaceAll(t, Word(w), repl, IsWordChar(m[|m| - 1]))
  {
    var s := m + t;
    assert |m| == |w|;
    assert s[..|w|] == m;
    assert s[|w|..] == t;
    assert StartsWithCI(s, w);
    assert s[0] == m[0] && s[|w| - 1] == m[|m| - 1];
    assert (|w| < |s| && IsWordChar(s[|w|])) == (t != [] && IsWordChar(t[0]));
    assert MatchLength(before, s, Word(w)) == |w|;
    ReplaceStep(s, Word(w), repl, before, |w|);
  }

  /** The comma step leaves a text without commas as it is. */
  lemma {:induction false} NoCommaUnchanged(s: string, repl: string, before: bool)
    requires !Contains(Upper(s), ",")
    ensures ReplaceAll(s, CommaSpaces, repl, before) == s
    decreases |s|
  {
    if s != [] {
      assert !OccursAt(Upper(s), ",", 0);
      assert Upper(s)[0..1] == [UpperChar(s[0])];
      assert s[0] != ',';
      CopyStep(s, CommaSpaces, repl, before);
      TailKeepsAbsence(s, 1, ",");
      NoCommaUnchanged(s[1..], repl, IsWordChar(s[0]));
      assert [s[0]] + s[1..] == s;
    }
  }

  /** From index `i` on, every whitespace character is a lone ordinary space. */
  predicate SingleSpaced(s: string, i: nat)
    decreases |s| - i
  {
    i >= |s| || ((!IsWhitespace(s[i]) || (s[i] == ' ' && (i + 1 == |s| || !IsWhitespace(s[i + 1])))) && SingleSpaced(s, i + 1))
  }

  /** The whitespace step leaves single-spaced text as it is. */
  lemma {:induction false} SingleSpacedUnchanged(s: string, i: nat, before: bool)
    requires i <= |s| && SingleSpaced(s, i)
    ensures ReplaceAll(s[i..], Spaces, " ", before) == s[i..]
    decreases |s| - i
  {
    if i < |s| {
      var t := s[i..];
      assert t[1..] == s[i + 1..];
      SingleSpacedUnchanged(s, i + 1, IsWordChar(s[i]));
      if IsWhitespace(s[i]) {
        assert LeadingSpace(t[1..]) == 0;
        assert MatchLength(before, t, Spaces) == 1;
        ReplaceStep(t, Spaces, " ", before, 1);
      } else {
        CopyStep(t, Spaces, " ", before);
      }
      assert [t[0]] + t[1..] == t;
    }
  }

  /** `q` occurs nowhere in `b` when the scan `NotWithin` finds no place for it. */
  lemma NotWithinMeansAbsent(q: string, b: string)
    requires NotWithin(q, b, 0)
    ensures !Contains(b, q)
  {
    forall i: nat | i + |q| <= |b| ensures !OccursAt(b, q, i) {
      NotWithinAt(q, b, 0, i);
    }
  }

  /**
   * A statement that needs no fix is laid out: the select list breaks after
   * its comma and FROM opens a new line.
   */
  lemma FormatLaysOutClauses()
    ensures Format("x,y from t;") == "x,\n  y \nFROM t;"
  {
    ExampleLayout("x,y from t;", "x,\n  y from t;", "x,\n  y \nFROM t;");
  }

  lemma ExampleLayout(s: string, listed: string, from: string)
    requires s == "x,y from t;" && listed == "x,\n  y from t;" && from == "x,\n  y \nFROM t;"
    ensures Format(s) == from
  {
    FormatIsChain(s);
    SpacedExample(s);
    ListedExample(s, listed);
    FromExample(listed, from);
    LaterStepsExample(from);
    ExampleTrimmed();
    TrimOfTrimmed(from);
  }

  lemma SpacedExample(s: string)
    requires s == "x,y from t;"
    ensures ReplaceAll(s, Spaces, " ", false) == s
  {
    ExampleSingleSpaced();
    SingleSpacedUnchanged(s, 0, false);
    assert s[0..] == s;
  }

  lemma ListedExample(s: string, listed: string)
    requires s == "x,y from t;" && listed == "x,\n  y from t;"
    ensures ReplaceAll(s, CommaSpaces, ",\n  ", false) == listed
  {
    ExampleSplitsAtComma();
    var tail := s[1..];
    var rest := tail[1..];
    ExampleRestUnchanged(rest);
    assert tail[0] == ',' && rest[0] == 'y';
    ReplaceStep(tail, CommaSpaces, ",\n  ", true, 1);
    CopyStep(s, CommaSpaces, ",\n  ", false);
  }

  lemma ExampleRestUnchanged(rest: string)
    requires rest == "y from t;"
    ensures ReplaceAll(rest, CommaSpaces, ",\n  ", false) == rest
  {
    ExampleHasOneComma();
    NotWithinMeansAbsent(",", Upper(rest));
    NoCommaUnchanged(rest, ",\n  ", false);
  }

  /** Where the pattern does not match at the front, the first character is copied. */
  lemma CopyStep(s: string, p: Pattern, repl: string, before: bool)
    requires s != [] && MatchLength(before, s, p) == 0
    ensures ReplaceAll(s, p, repl, before) == [s[0]] + ReplaceAll(s[1..], p, repl, IsWordChar(s[0]))
  {
  }

  /** Where the pattern matches `n` characters at the front, they become the replacement. */
  lemma ReplaceStep(s: string, p: Pattern, repl: string, before: bool, n: nat)
    requires s != [] && MatchLength(before, s, p) == n && n > 0
    ensures ReplaceAll(s, p, repl, before) == repl + ReplaceAll(s[n..], p, repl, IsWordChar(s[n - 1]))
  {
  }

  lemma FromExample(listed: string, from: string)
    requires listed == "x,\n  y from t;" && from == "x,\n  y \nFROM t;"
    ensures ReplaceAll(listed, Word("FROM"), "\nFROM", false) == from
  {
    var head, word, rest := "x,\n  y ", "from", " t;";
    ExampleSplitsAtFrom();
    ExampleHeadHasNoF();
    NoSuchLetter(head, 'F');
    SkipPrefix(head, word + rest, "FROM", "\nFROM", false);
    WordAtFront(word, rest, "FROM", "\nFROM", false);
    ExampleTailHasNoFrom();
    NotWithinMeansAbsent("FROM", Upper(rest));
    WordAbsentUnchanged(rest, "FROM", "\nFROM", true);
  }

  /** WHERE, AND, OR, ORDER BY and GROUP BY do not occur in the example, so their steps change nothing. */
  lemma LaterStepsExample(t: string)
    requires t == "x,\n  y \nFROM t;"
    ensures ReplaceAll(t, Word("WHERE"), "\nWHERE", false) == t
    ensures ReplaceAll(t, Word("AND"), "\n  AND", false) == t
    ensures ReplaceAll(t, Word("OR"), "\n  OR", false) == t
    ensures ReplaceAll(t, Word("ORDER BY"), "\nORDER BY", false) == t
    ensures ReplaceAll(t, Word("GROUP BY"), "\nGROUP BY", false) == t
  {
    ExampleLacksWhere();
    AbsentFromExample(t, "WHERE", "\nWHERE");
    ExampleLacksAnd();
    AbsentFromExample(t, "AND", "\n  AND");
    ExampleLacksOr();
    AbsentFromExample(t, "OR", "\n  OR");
    ExampleLacksOrderBy();
    AbsentFromExample(t, "ORDER BY", "\nORDER BY");
    ExampleLacksGroupBy();
    AbsentFromExample(t, "GROUP BY", "\nGROUP BY");
  }

  // Facts about the example's literal text, each small enough to evaluate on its own;
  // a scan for a keyword is walked one start index at a time, from the last one down.
  lemma ExampleTrimmed() ensures IsTrimmed("x,\n  y \nFROM t;") {}
  lemma ExampleSingleSpaced() ensures SingleSpaced("x,y from t;", 0) {}
  lemma ExampleSplitsAtComma()
    ensures "x,y from t;"[2..] == "y from t;"
    ensures "x,\n  y from t;" == ['x'] + (",\n  " + "y from t;")
  {}
  lemma ExampleHasOneComma() ensures NotWithin(",", Upper("y from t;"), 0) {}
  lemma ExampleSplitsAtFrom()
    ensures "x,\n  y from t;" == "x,\n  y " + ("from" + " t;")
    ensures "x,\n  y \nFROM t;" == "x,\n  y " + ("\nFROM" + " t;")
  {}
  lemma ExampleHeadHasNoF() ensures NotWithin("F", Upper("x,\n  y "), 0) {}
  lemma ExampleTailHasNoFrom() ensures NotWithin("FROM", Upper(" t;"), 0) {}
  lemma ExampleUpper() ensures Upper("x,\n  y \nFROM t;") == "X,\n  Y \nFROM T;" {}
  lemma ExampleLacksWhere() ensures NotWithin("WHERE", Upper("x,\n  y \nFROM t;"), 0)
  {
    ExampleUpper();
    assert NotWithin("WHERE", "X,\n  Y \nFROM T;", 10);
    assert NotWithin("WHERE", "X,\n  Y \nFROM T;", 9);
    assert NotWithin("WHERE", "X,\n  Y \nFROM T;", 8);
    assert NotWithin("WHERE", "X,\n  Y \nFROM T;", 7);
    assert NotWithin("WHERE", "X,\n  Y \nFROM T;", 6);
    assert NotWithin("WHERE", "X,\n  Y \nFROM T;", 5);
    assert NotWithin("WHERE", "X,\n  Y \nFROM T;", 4);
    assert NotWithin("WHERE", "X,\n  Y \nFROM T;", 3);
    assert NotWithin("WHERE", "X,\n  Y \nFROM T;", 2);
    assert NotWithin("WHERE", "X,\n  Y \nFROM T;", 1);
  }
  lemma ExampleLacksAnd() ensures NotWithin("AND", Upper("x,\n  y \nFROM t;"), 0)
  {
    ExampleUpper();
    assert NotWithin("AND", "X,\n  Y \nFROM T;", 12);
    assert NotWithin("AND", "X,\n  Y \nFROM T;", 11);
    assert NotWithin("AND", "X,\n  Y \nFROM T;", 10);
    assert NotWithin("AND", "X,\n  Y \nFROM T;", 9);
    assert NotWithin("AND", "X,\n  Y \nFROM T;", 8);
    assert NotWithin("AND", "X,\n  Y \nFROM T;", 7);
    assert NotWithin("AND", "X,\n  Y \nFROM T;", 6);
    assert NotWithin("AND", "X,\n  Y \nFROM T;", 5);
    assert NotWithin("AND", "X,\n  Y \nFROM T;", 4);
    assert NotWithin("AND", "X,\n  Y \nFROM T;", 3);
    assert NotWithin("AND", "X,\n  Y \nFROM T;", 2);
    assert NotWithin("AND", "X,\n  Y \nFROM T;", 1);
  }
  lemma ExampleLacksOr() ensures NotWithin("OR", Upper("x,\n  y \nFROM t;"), 0)
  {
    ExampleUpper();
    assert NotWithin("OR", "X,\n  Y \nFROM T;", 13);
    assert NotWithin("OR", "X,\n  Y \nFROM T;", 12);
    assert NotWithin("OR", "X,\n  Y \nFROM T;", 11);
    assert NotWithin("OR", "X,\n  Y \nFROM T;", 10);
    assert NotWithin("OR", "X,\n  Y \nFROM T;", 9);
    assert NotWithin("OR", "X,\n  Y \nFROM T;", 8);
    assert NotWithin("OR", "X,\n  Y \nFROM T;", 7);
    assert NotWithin("OR", "X,\n  Y \nFROM T;", 6);
    assert NotWithin("OR", "X,\n  Y \nFROM T;", 5);
    assert NotWithin("OR", "X,\n  Y \nFROM T;", 4);
    assert NotWithin("OR", "X,\n  Y \nFROM T;", 3);
    assert NotWithin("OR", "X,\n  Y \nFROM T;", 2);
    assert NotWithin("OR", "X,\n  Y \nFROM T;", 1);
  }
  lemma ExampleLacksOrderBy() ensures NotWithin("ORDER BY", Upper("x,\n  y \nFROM t;"), 0)
  {
    ExampleUpper();
    assert NotWithin("ORDER BY", "X,\n  Y \nFROM T;", 7);
    assert NotWithin("ORDER BY", "X,\n  Y \nFROM T;", 6);
    assert NotWithin("ORDER BY", "X,\n  Y \nFROM T;", 5);
    assert NotWithin("ORDER BY", "X,\n  Y \nFROM T;", 4);
    assert NotWithin("ORDER BY", "X,\n  Y \nFROM T;", 3);
    assert NotWithin("ORDER BY", "X,\n  Y \nFROM T;", 2);
    assert NotWithin("ORDER BY", "X,\n  Y \nFROM T;", 1);
  }
  lemma ExampleLacksGroupBy() ensures NotWithin("GROUP BY", Upper("x,\n  y \nFROM t;"), 0)
  {
    ExampleUpper();
    assert NotWithin("GROUP BY", "X,\n  Y \nFROM T;", 7);
    assert NotWithin("GROUP BY", "X,\n  Y \nFROM T;", 6);
    assert NotWithin("GROUP BY", "X,\n  Y \nFROM T;", 5);
    assert NotWithin("GROUP BY", "X,\n  Y \nFROM T;", 4);
    assert NotWithin("GROUP BY", "X,\n  Y \nFROM T;", 3);
    assert NotWithin("GROUP BY", "X,\n  Y \nFROM T;", 2);
    assert NotWithin("GROUP BY", "X,\n  Y \nFROM T;", 1);
  }

  lemma AbsentFromExample(t: string, w: string, repl: string)
    requires w != [] && NotWithin(w, Upper(t), 0)
    ensures ReplaceAll(t, Word(w), repl, false) == t
  {
    NotWithinMeansAbsent(w, Upper(t));
    WordAbsentUnchanged(t, w, repl, false);
  }

  // ---------------------------------------------------------------------
  // The whole button
  // ---------------------------------------------------------------------

  /** The text handed to `onSqlFixed`, and the final `hasChanges`. */
  datatype FixResult = FixResult(sql: string, changed: bool)

  lemma CommonFixesPatterns()
    ensures forall k :: 0 <= k < |CommonFixes| ==> CommonFixes[k].pattern != []
  {
    forall k | 0 <= k < |CommonFixes| ensures CommonFixes[k].pattern != [] {
      assert CommonFixes[k].pattern[0] in "SFWGO";
    }
  }

  /** `handleFixSql` without the delay and the toasts. */
  function FixSql(sql: string): (r: FixResult)
    ensures r.changed
    ensures EndsWith(Trim(r.sql), ';')
    ensures !HasTypo(sql) ==>
      Canon(r.sql) == Canon(sql) + (if EndsWith(Trim(sql), ';') then [] else ";")
    ensures !HasTypo(sql) && EndsWith(Trim(sql), ';') ==> r.sql == Format(sql)
    ensures !HasTypo(sql) && !EndsWith(Trim(sql), ';') ==> r.sql == Trim(sql) + ";"
    ensures HasTypo(sql) ==>
      var fixed := ApplyRules(sql, CommonFixes).0;
      r.sql == if EndsWith(Trim(fixed), ';') then fixed else Trim(fixed) + ";"
  {
    CommonFixesPatterns();
    var rules := ApplyRules(sql, CommonFixes);
    FinishEndsWithSemicolon(rules.0, rules.1);
    if rules.1 then Finish(rules.0, true)
    else
      FinishKeepsStatement(sql);
      Finish(sql, false)
  }

  /**
   * What follows the rule table: the semicolon check, and the formatting
   * pass when neither the rules nor the semicolon changed anything.
   */
  function Finish(fixed: string, fired: bool): FixResult {
    var needsSemicolon := !EndsWith(Trim(fixed), ';');
    var withSemicolon := if needsSemicolon then Trim(fixed) + ";" else fixed;
    var hasChanges := fired || needsSemicolon;
    if !hasChanges then FixResult(Format(withSemicolon), true)
    else FixResult(withSemicolon, hasChanges)
  }

  lemma FinishEndsWithSemicolon(fixed: string, fired: bool)
    ensures EndsWith(Trim(Finish(fixed, fired).sql), ';')
  {
    if EndsWith(Trim(fixed), ';') {
      if !fired {
        SemicolonSurvivesFormat(fixed);
      }
    } else {
      AppendSemicolon(fixed);
    }
  }

  lemma FinishKeepsStatement(sql: string)
    ensures Canon(Finish(sql, false).sql) == Canon(sql) + (if EndsWith(Trim(sql), ';') then [] else ";")
  {
    if !EndsWith(Trim(sql), ';') {
      AppendSemicolon(sql);
    } else {
      assert Canon(sql) + [] == Canon(sql);
    }
  }

  /** Appending the missing semicolon to the trimmed text adds exactly that semicolon. */
  lemma AppendSemicolon(t: string)
    ensures EndsWith(Trim(Trim(t) + ";"), ';')
    ensures Canon(Trim(t) + ";") == Canon(t) + ";"
  {
    SemicolonEndsTrimmed(Trim(t));
    CanonAppend(Trim(t), ";");
    CanonTrim(t);
    CanonSemicolon();
  }

  lemma SemicolonEndsTrimmed(u: string)
    requires IsTrimmed(u)
    ensures EndsWith(Trim(u + ";"), ';')
  {
    var x := u + ";";
    assert IsTrimmed(x) by {
      assert x[|x| - 1] == ';';
      assert u != [] ==> x[0] == u[0];
    }
    TrimOfTrimmed(x);
  }

  lemma CanonSemicolon()
    ensures Canon(";") == ";"
  {
    assert Upper(";") == ";";
    assert StripWs(";") == StripWs([]) + ";";
  }

  /** Formatting keeps the final semicolon of a statement that had one. */
  lemma SemicolonSurvivesFormat(s: string)
    requires EndsWith(Trim(s), ';')
    ensures EndsWith(Trim(Format(s)), ';')
  {
    var t := Trim(s);
    var f := Format(s);
    CanonTrim(s);
    CanonLast(t);
    assert Canon(s) != [] && Canon(s)[|Canon(s)| - 1] == ';';
    CanonLast(f);
    TrimOfTrimmed(f);
  }

  // ---------------------------------------------------------------------
  // Consequences worth spelling out
  // ---------------------------------------------------------------------

  /** The rules match inside words: the `FORM` rule turns "platform" into "platFROM". */
  lemma FormRuleRewritesInsideWord(s: string, lit: string)
    requires s == "platform" && lit == "FORM"
    ensures ReplaceAll(s, Literal(lit), "FROM", false) == "platFROM"
  {
    FormOccursInPlatform(s, lit);
    ReplaceAtFirstOccurrence(s, 4, lit, "FROM", false);
    PlatformPieces(s, lit);
  }

  lemma FormOccursInPlatform(s: string, lit: string)
    requires s == "platform" && lit == "FORM"
    ensures OccursAt(Upper(s), lit, 4) && forall k: nat :: k < 4 ==> !OccursAt(Upper(s), lit, k)
  {
    var u := Upper(s);
    assert u[0] == 'P' && u[1] == 'L' && u[2] == 'A' && u[3] == 'T';
    assert u[4] == 'F' && u[5] == 'O' && u[6] == 'R' && u[7] == 'M';
    assert u[4..8] == lit;
    NotAtFirstChar(u, lit, 0);
    NotAtFirstChar(u, lit, 1);
    NotAtFirstChar(u, lit, 2);
    NotAtFirstChar(u, lit, 3);
  }

  lemma NotAtFirstChar(u: string, lit: string, k: nat)
    requires k < |u| && lit != [] && u[k] != lit[0]
    ensures !OccursAt(u, lit, k)
  {
    if k + |lit| <= |u| {
      assert u[k..k + |lit|][0] == u[k];
    }
  }

  lemma PlatformPieces(s: string, lit: string)
    requires s == "platform" && lit == "FORM"
    ensures s[..4] + "FROM" + ReplaceAll(s[4 + |lit|..], Literal(lit), "FROM", false) == "platFROM"
  {
    assert s[8..] == [];
    assert s[..4] == "plat";
  }

  /** ... and "FORMAT" into "FROMAT". */
  lemma FormRuleRewritesWordStart(s: string, lit: string)
    requires s == "FORMAT" && lit == "FORM"
    ensures ReplaceAll(s, Literal(lit), "FROM", false) == "FROMAT"
  {
    assert Upper(lit) == lit;
    SkipChar('T', [], lit, "FROM", false);
    SkipChar('A', "T", lit, "FROM", false);
    ReplaceAtStart(lit, "AT", lit, "FROM", false);
    assert lit + "AT" == s;
  }

  /** A character that cannot start the pattern is kept as it is. */
  lemma SkipChar(c: char, t: string, lit: string, repl: string, before: bool)
    requires lit != [] && UpperChar(c) != lit[0]
    ensures ReplaceAll([c] + t, Literal(lit), repl, before) == [c] + ReplaceAll(t, Literal(lit), repl, false)
  {
    var s := [c] + t;
    assert Upper(s)[0] == UpperChar(c);
    ReplaceSkip(s, lit, repl, before);
    assert s[1..] == t;
    LiteralIgnoresBoundary(t, lit, repl, IsWordChar(c));
  }

  /** Word boundaries keep the formatting pass out of longer words. */
  lemma FormatRespectsWordBoundaries()
    ensures ReplaceAll("xfrom", Word("FROM"), "\nFROM", false) == "xfrom"
  {
    var p := Word("FROM");
    assert ReplaceAll("", p, "\nFROM", true) == [];
    assert ReplaceAll("m", p, "\nFROM", true) == "m";
    assert ReplaceAll("om", p, "\nFROM", true) == "om" by { assert "om"[1..] == "m"; }
    assert ReplaceAll("rom", p, "\nFROM", true) == "rom" by { assert "rom"[1..] == "om"; }
    assert ReplaceAll("from", p, "\nFROM", true) == "from" by {
      assert MatchLength(true, "from", p) == 0;
      assert "from"[1..] == "rom";
    }
    assert ReplaceAll("xfrom", p, "\nFROM", false) == "xfrom" by {
      assert Upper("xfro") != "FROM" by { assert Upper("xfro")[0] == 'X'; }
      assert "xfrom"[1..] == "from";
    }
  }

  /** After the first step of the formatting chain no two whitespace characters are adjacent. */
  lemma {:induction false} CollapseSpaces(s: string, before: bool)
    ensures var r := ReplaceAll(s, Spaces, " ", before);
      && (r != [] <==> s != [])
      && (r != [] ==> (IsWhitespace(r[0]) <==> IsWhitespace(s[0])))
      && forall k :: 0 <= k < |r| - 1 ==> !(IsWhitespace(r[k]) && IsWhitespace(r[k + 1]))
    decreases |s|
  {
    if s != [] {
      var n := MatchLength(before, s, Spaces);
      var r := ReplaceAll(s, Spaces, " ", before);
      if n > 0 {
        var rest := ReplaceAll(s[n..], Spaces, " ", IsWordChar(s[n - 1]));
        CollapseSpaces(s[n..], IsWordChar(s[n - 1]));
        assert r == " " + rest;
        assert rest != [] ==> !IsWhitespace(rest[0]);
        forall k | 1 <= k < |r| - 1 ensures !(IsWhitespace(r[k]) && IsWhitespace(r[k + 1])) {
          assert r[k] == rest[k - 1] && r[k + 1] == rest[k];
        }
      } else {
        var rest := ReplaceAll(s[1..], Spaces, " ", IsWordChar(s[0]));
        CollapseSpaces(s[1..], IsWordChar(s[0]));
        assert r == [s[0]] + rest;
        assert !IsWhitespace(s[0]);
        forall k | 1 <= k < |r| - 1 ensures !(IsWhitespace(r[k]) && IsWhitespace(r[k + 1])) {
          assert r[k] == rest[k - 1] && r[k + 1] == rest[k];
        }
      }
    }
  }
}
