/**
 * The three pattern searches that take a ticket apart, written as explicit
 * scans that make the same choices as the JavaScript regex engine:
 * the leftmost start position wins, `+` and `*` are greedy and give back one
 * character at a time, `*?` is lazy.
 *
 *   id:       /Ticket #([\w-]+)/
 *   sql:      /```sql\s*([\s\S]*?)\s*```/
 *   criteria: /Success Criteria:\s*(.+)/
 *
 * The single-ticket screen needs all three to match; the batch screen runs
 * the same searches on each section and substitutes defaults.
 */
module TicketParse {
  import opened Text

  const IdMarker: string := "Ticket #"
  const SqlOpen: string := "```sql"
  const Fence: string := "```"
  const CriteriaMarker: string := "Success Criteria:"

  /** `[\w-]` */
  predicate IsIdChar(c: char) {
    IsWordChar(c) || c == '-'
  }

  /**
   * Leftmost position `m >= from` where `marker` occurs and the rest of the
   * pattern, `tail`, can match right after it. This is how the engine tries a
   * pattern that starts with a literal: every start position in turn.
   */
  function FirstMatch(text: string, marker: string, tail: nat -> bool, from: nat): (r: Option<nat>)
    requires marker != []
    ensures r.Some? ==> from <= r.value && OccursAt(text, marker, r.value) && tail(r.value + |marker|)
    ensures r.Some? ==> forall m: nat :: from <= m < r.value && OccursAt(text, marker, m) ==> !tail(m + |marker|)
    ensures r.None? <==> forall m: nat :: from <= m && OccursAt(text, marker, m) ==> !tail(m + |marker|)
    decreases |text| - from
  {
    if from + |marker| > |text| then None
    else if OccursAt(text, marker, from) && tail(from + |marker|) then Some(from)
    else FirstMatch(text, marker, tail, from + 1)
  }

  // ---------------------------------------------------------------------
  // Ticket #([\w-]+)
  // ---------------------------------------------------------------------

  /** `[\w-]+` can start at `p`. */
  predicate IdTail(text: string, p: nat) {
    p < |text| && IsIdChar(text[p])
  }

  /** `v` is the greedy `[\w-]+` run that starts at `p`. */
  predicate IsIdRun(text: string, p: nat, v: string) {
    && |v| >= 1
    && p + |v| <= |text|
    && text[p..p + |v|] == v
    && (forall k :: 0 <= k < |v| ==> IsIdChar(v[k]))
    && (p + |v| == |text| || !IsIdChar(text[p + |v|]))
  }

  /** End of the run of `[\w-]` characters that starts at `p`. */
  function IdRunEnd(text: string, p: nat): (e: nat)
    requires p <= |text|
    ensures p <= e <= |text|
    ensures forall k :: p <= k < e ==> IsIdChar(text[k])
    ensures e == |text| || !IsIdChar(text[e])
    decreases |text| - p
  {
    if p < |text| && IsIdChar(text[p]) then IdRunEnd(text, p + 1) else p
  }

  /** The marker of the leftmost match of the id pattern is at `m`. */
  predicate IsFirstIdMatch(text: string, m: nat) {
    && OccursAt(text, IdMarker, m) && IdTail(text, m + |IdMarker|)
    && forall m': nat :: m' < m && OccursAt(text, IdMarker, m') ==> !IdTail(text, m' + |IdMarker|)
  }

  /** Capture group 1 of `/Ticket #([\w-]+)/`, if the pattern matches. */
  function ExtractId(text: string): (r: Option<string>)
    ensures r.None? <==> forall m: nat :: OccursAt(text, IdMarker, m) ==> !IdTail(text, m + |IdMarker|)
    ensures r.Some? ==> exists m: nat :: IsFirstIdMatch(text, m) && IsIdRun(text, m + |IdMarker|, r.value)
  {
    match FirstMatch(text, IdMarker, (p: nat) => IdTail(text, p), 0)
    case None => None
    case Some(m) =>
      var p := m + |IdMarker|;
      var e := IdRunEnd(text, p);
      IdMatchWitness(text, m, e);
      Some(text[p..e])
  }

  lemma IdMatchWitness(text: string, m: nat, e: nat)
    requires OccursAt(text, IdMarker, m) && IdTail(text, m + |IdMarker|)
    requires forall m': nat :: 0 <= m' < m && OccursAt(text, IdMarker, m') ==> !IdTail(text, m' + |IdMarker|)
    requires e == IdRunEnd(text, m + |IdMarker|)
    ensures exists m': nat :: IsFirstIdMatch(text, m') && IsIdRun(text, m' + |IdMarker|, text[m + |IdMarker|..e])
  {
    var p := m + |IdMarker|;
    assert IsFirstIdMatch(text, m);
    assert IsIdRun(text, p, text[p..e]);
  }

  // ---------------------------------------------------------------------
  // ```sql\s*([\s\S]*?)\s*```
  // ---------------------------------------------------------------------

  /**
   * The leftmost match of the fenced-block pattern opens at `i` and closes at
   * the fence at `q`: the first opening marker, and the first fence after it
   * (the lazy group stops at the first fence it can reach).
   */
  predicate IsSqlBlock(text: string, i: nat, q: nat) {
    && OccursAt(text, SqlOpen, i)
    && (forall k: nat :: k < i ==> !OccursAt(text, SqlOpen, k))
    && i + |SqlOpen| <= q
    && OccursAt(text, Fence, q)
    && (forall k: nat :: i + |SqlOpen| <= k < q ==> !OccursAt(text, Fence, k))
  }

  /**
   * Capture group 1 of the fenced-block pattern, trimmed. The `\s*` on both
   * sides of the lazy group leave exactly the trimmed text between the
   * opening marker and the first fence after it.
   */
  function ExtractSql(text: string): (r: Option<string>)
    ensures r.Some? <==>
      exists i: nat, q: nat :: OccursAt(text, SqlOpen, i) && OccursAt(text, Fence, q) && i + |SqlOpen| <= q
    ensures r.Some? ==>
      exists i: nat, q: nat :: IsSqlBlock(text, i, q) && r.value == Trim(text[i + |SqlOpen|..q])
  {
    match Find(text, SqlOpen, 0)
    case None =>
      NoOpenNoBlock(text);
      None
    case Some(i) =>
      match Find(text, Fence, i + |SqlOpen|)
      case None =>
        NoFenceAfterFirstOpen(text, i);
        None
      case Some(q) =>
        SqlBlockWitness(text, i, q);
        Some(Trim(text[i + |SqlOpen|..q]))
  }

  lemma NoOpenNoBlock(text: string)
    requires forall k: nat :: 0 <= k ==> !OccursAt(text, SqlOpen, k)
    ensures !exists i: nat, q: nat :: OccursAt(text, SqlOpen, i) && OccursAt(text, Fence, q) && i + |SqlOpen| <= q
  {
  }

  lemma SqlBlockWitness(text: string, i: nat, q: nat)
    requires OccursAt(text, SqlOpen, i) && forall k: nat :: 0 <= k < i ==> !OccursAt(text, SqlOpen, k)
    requires i + |SqlOpen| <= q && OccursAt(text, Fence, q)
    requires forall k: nat :: i + |SqlOpen| <= k < q ==> !OccursAt(text, Fence, k)
    ensures exists i': nat, q': nat :: OccursAt(text, SqlOpen, i') && OccursAt(text, Fence, q') && i' + |SqlOpen| <= q'
    ensures IsSqlBlock(text, i, q)
    ensures exists i': nat, q': nat :: IsSqlBlock(text, i', q') && Trim(text[i + |SqlOpen|..q]) == Trim(text[i' + |SqlOpen|..q'])
  {
    assert IsSqlBlock(text, i, q);
  }

  /** With no fence after the first opening marker there is none after any later one either. */
  lemma NoFenceAfterFirstOpen(text: string, i: nat)
    requires OccursAt(text, SqlOpen, i) && forall k: nat :: k < i ==> !OccursAt(text, SqlOpen, k)
    requires forall k: nat :: i + |SqlOpen| <= k ==> !OccursAt(text, Fence, k)
    ensures !exists j: nat, q: nat :: OccursAt(text, SqlOpen, j) && OccursAt(text, Fence, q) && j + |SqlOpen| <= q
  {
    forall j: nat, q: nat | OccursAt(text, SqlOpen, j) && j + |SqlOpen| <= q
      ensures !OccursAt(text, Fence, q)
    {
      assert i <= j;
    }
  }

  // ---------------------------------------------------------------------
  // Success Criteria:\s*(.+)
  // ---------------------------------------------------------------------

  /** `\s*(.+)` can match at `p`: some whitespace, then a character `.` accepts. */
  predicate CriteriaTail(text: string, p: nat) {
    exists j: nat :: p <= j < |text| && AllWhitespace(text[p..j]) && !IsLineTerminator(text[j])
  }

  /** End of the line that contains position `j`: where the greedy `.+` stops. */
  function LineEnd(text: string, j: nat): (e: nat)
    requires j <= |text|
    ensures j <= e <= |text|
    ensures forall k :: j <= k < e ==> !IsLineTerminator(text[k])
    ensures e == |text| || IsLineTerminator(text[e])
    decreases |text| - j
  {
    if j < |text| && !IsLineTerminator(text[j]) then LineEnd(text, j + 1) else j
  }

  /** The greedy `\s*` after `p` has given back characters down to `j`; keep giving back until `.` can take the next one. */
  function GiveBack(text: string, p: nat, j: nat): (r: Option<nat>)
    requires p <= j <= |text|
    requires AllWhitespace(text[p..j])
    ensures r.Some? ==> p <= r.value <= j && r.value < |text| && !IsLineTerminator(text[r.value])
    ensures r.Some? ==> AllWhitespace(text[p..r.value])
    ensures r.Some? ==> forall k :: r.value < k <= j && k < |text| ==> IsLineTerminator(text[k])
    ensures r.None? <==> forall k :: p <= k <= j && k < |text| ==> IsLineTerminator(text[k])
    decreases j
  {
    if j < |text| && !IsLineTerminator(text[j]) then Some(j)
    else if j == p then None
    else
      assert text[p..j - 1] == text[p..j][..j - 1 - p];
      GiveBack(text, p, j - 1)
  }

  /**
   * Where `(.+)` starts when `\s*(.+)` is tried at `p`: the greedy `\s*`
   * first takes the whole whitespace run and backs off only as far as needed.
   */
  function CriteriaStart(text: string, p: nat): (r: Option<nat>)
    requires p <= |text|
    ensures r.Some? <==> CriteriaTail(text, p)
    ensures r.Some? ==> p <= r.value < |text| && AllWhitespace(text[p..r.value]) && !IsLineTerminator(text[r.value])
    ensures r.Some? ==>
      forall k :: r.value < k < |text| && AllWhitespace(text[p..k]) ==> IsLineTerminator(text[k])
  {
    var e := p + LeadingSpace(text[p..]);
    assert text[p..e] == text[p..][..e - p];
    // no whitespace-only prefix of the rest reaches past e
    assert forall k :: e < k <= |text| ==> !AllWhitespace(text[p..k]) by {
      forall k | e < k <= |text| ensures !AllWhitespace(text[p..k]) {
        assert text[p..k][e - p] == text[p..][e - p];
      }
    }
    var r := GiveBack(text, p, e);
    if r.Some? then
      assert forall k :: p <= k <= e && k < |text| && AllWhitespace(text[p..k]) && r.value < k ==> IsLineTerminator(text[k]);
      r
    else
      assert forall j: nat :: p <= j < |text| && AllWhitespace(text[p..j]) ==> j <= e;
      r
  }

  /** The captured line, trimmed, when `\s*(.+)` is tried at `p`. */
  function CriteriaValue(text: string, p: nat): (v: string)
    requires p <= |text| && CriteriaTail(text, p)
    ensures IsTrimmed(v)
    ensures forall k :: 0 <= k < |v| ==> !IsLineTerminator(v[k])
  {
    var j := CriteriaStart(text, p).value;
    LineTrimHasNoBreak(text, j);
    Trim(text[j..LineEnd(text, j)])
  }

  /** Trimming the rest of a line cannot bring in a line break. */
  lemma LineTrimHasNoBreak(text: string, j: nat)
    requires j <= |text|
    ensures forall k :: 0 <= k < |Trim(text[j..LineEnd(text, j)])| ==> !IsLineTerminator(Trim(text[j..LineEnd(text, j)])[k])
  {
    var line := text[j..LineEnd(text, j)];
    var v := Trim(line);
    var a := LeadingSpace(line);
    forall k | 0 <= k < |line| ensures !IsLineTerminator(line[k]) {
      assert line[k] == text[j + k];
    }
    forall k | 0 <= k < |v| ensures !IsLineTerminator(v[k]) {
      assert v[k] == line[a..a + |v|][k];
    }
  }

  /** The marker of the leftmost match of the criteria pattern is at `m`. */
  predicate IsFirstCriteriaMatch(text: string, m: nat) {
    && OccursAt(text, CriteriaMarker, m) && CriteriaTail(text, m + |CriteriaMarker|)
    && forall m': nat :: m' < m && OccursAt(text, CriteriaMarker, m') ==> !CriteriaTail(text, m' + |CriteriaMarker|)
  }

  /** Capture group 1 of `/Success Criteria:\s*(.+)/`, trimmed. */
  function ExtractCriteria(text: string): (r: Option<string>)
    ensures r.None? <==>
      forall m: nat :: OccursAt(text, CriteriaMarker, m) ==> !CriteriaTail(text, m + |CriteriaMarker|)
    ensures r.Some? ==> IsTrimmed(r.value) && forall k :: 0 <= k < |r.value| ==> !IsLineTerminator(r.value[k])
    ensures r.Some? ==> exists m: nat ::
      IsFirstCriteriaMatch(text, m) && r.value == CriteriaValue(text, m + |CriteriaMarker|)
  {
    match FirstMatch(text, CriteriaMarker, (p: nat) => p <= |text| && CriteriaTail(text, p), 0)
    case None => None
    case Some(m) =>
      CriteriaMatchWitness(text, m);
      Some(CriteriaValue(text, m + |CriteriaMarker|))
  }

  lemma CriteriaMatchWitness(text: string, m: nat)
    requires OccursAt(text, CriteriaMarker, m) && CriteriaTail(text, m + |CriteriaMarker|)
    requires forall m': nat :: 0 <= m' < m && OccursAt(text, CriteriaMarker, m') ==> !CriteriaTail(text, m' + |CriteriaMarker|)
    ensures exists m': nat ::
      IsFirstCriteriaMatch(text, m') && CriteriaValue(text, m + |CriteriaMarker|) == CriteriaValue(text, m' + |CriteriaMarker|)
  {
    assert IsFirstCriteriaMatch(text, m);
  }

  /**
   * What the criteria pattern captures, in plain words: the rest of the line
   * on which the first non-whitespace character `e` after the marker stands
   * (the `\s*` may cross line breaks), trimmed.
   */
  lemma CriteriaIsRestOfLine(text: string, p: nat, e: nat)
    requires p <= e < |text|
    requires AllWhitespace(text[p..e]) && !IsWhitespace(text[e])
    ensures CriteriaTail(text, p)
    ensures CriteriaStart(text, p).Some? && CriteriaStart(text, p).value == e
    ensures CriteriaValue(text, p) == Trim(text[e..LineEnd(text, e)])
  {
    assert CriteriaTail(text, p) by {
      assert !IsLineTerminator(text[e]);
    }
    var j := CriteriaStart(text, p).value;
    StartNotPastVisible(text, p, j, e);
    StartNotBeforeVisible(text, p, j, e);
  }

  lemma StartNotPastVisible(text: string, p: nat, j: nat, e: nat)
    requires p <= j < |text| && p <= e < |text| && AllWhitespace(text[p..j]) && !IsWhitespace(text[e])
    ensures j <= e
  {
  }

  lemma StartNotBeforeVisible(text: string, p: nat, j: nat, e: nat)
    requires p <= j && p <= e < |text| && AllWhitespace(text[p..e]) && !IsWhitespace(text[e])
    requires forall k :: j < k < |text| && AllWhitespace(text[p..k]) ==> IsLineTerminator(text[k])
    ensures e <= j
  {
  }

  /**
   * When only whitespace follows the marker, `.+` takes back one
   * non-line-break whitespace character and the trimmed capture is empty,
   * which still counts as a match.
   */
  lemma CriteriaBlank(text: string, p: nat)
    requires p <= |text| && AllWhitespace(text[p..]) && CriteriaTail(text, p)
    ensures CriteriaValue(text, p) == []
  {
    var j := CriteriaStart(text, p).value;
    var line := text[j..LineEnd(text, j)];
    assert forall k :: 0 <= k < |line| ==> line[k] == text[p..][j - p + k];
    assert AllWhitespace(line);
    CoreIsTrim(line, [], |line|);
  }

  // ---------------------------------------------------------------------
  // The single-ticket parse
  // ---------------------------------------------------------------------

  datatype ParsedTicket = ParsedTicket(id: string, sql: string, criteria: string, isValid: bool)

  /** A ticket is produced only when the id, the fenced block and the criteria line all match. */
  function ParseTicket(text: string): (r: Option<ParsedTicket>)
    ensures r.Some? ==> ExtractId(text).Some?
    ensures r.Some? ==> ExtractSql(text).Some?
    ensures r.Some? ==> ExtractCriteria(text).Some?
    ensures ExtractId(text).Some? && ExtractSql(text).Some? && ExtractCriteria(text).Some? ==> r.Some?
    ensures r.Some? ==> r.value.id == ExtractId(text).value
    ensures r.Some? ==> r.value.sql == ExtractSql(text).value
    ensures r.Some? ==> r.value.criteria == ExtractCriteria(text).value
    ensures r.Some? ==> && r.value.isValid
                        && r.value.id != []
                        && (forall k :: 0 <= k < |r.value.id| ==> IsIdChar(r.value.id[k]))
                        && IsTrimmed(r.value.sql)
                        && IsTrimmed(r.value.criteria)
  {
    match (ExtractId(text), ExtractSql(text), ExtractCriteria(text))
    case (Some(id), Some(sql), Some(criteria)) => Some(ParsedTicket(id, sql, criteria, true))
    case _ => None
  }
}
