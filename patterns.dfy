/**
 * The two regular expressions of the selection parser (src/ts/flashcards.ts:289-290),
 * each hand-written as a matcher over a string that returns what `RegExp.prototype.exec`
 * returns for a pattern without flags (ECMA-262 section 22.2): the match found first by
 * the backtracking search that starts at index 0.
 *
 *   NonFinal:  /((\w.*):((?:.(?!:)|\n)+))\n.+:/
 *   Last:      /((\w.*):((?:.|\n)+))(?:\n|$)/
 *
 * Both share group 2 `\w.*` followed by `:`, and differ in group 3's repeated unit and in
 * what must follow group 1.
 */
module Patterns {
  import opened Wrappers
  import opened Text

  datatype Pattern =
    | NonFinal  // src/ts/flashcards.ts:289, a record that another `word:` line follows
    | Last      // src/ts/flashcards.ts:290, a record ended by a newline or the end of input

  /**
   * A match of either pattern in s: group 2 is s[start..termEnd], s[termEnd] is the `:`,
   * group 3 is s[termEnd + 1..bodyEnd] and group 1 is s[start..bodyEnd].
   */
  datatype Match = Match(start: nat, termEnd: nat, bodyEnd: nat) {
    /** The same match with every position moved n characters to the right. */
    function MovedBy(n: nat): Match {
      Match(start + n, termEnd + n, bodyEnd + n)
    }
  }

  /** `.*` (or `.+`) consumes s[a..b): none of it is a line terminator. */
  predicate DotRun(s: string, a: nat, b: nat)
    requires a <= b <= |s|
  {
    forall p | a <= p < b :: !IsLineTerminator(s[p])
  }

  /** `(\w.*):` with `\w` at i, `.*` over s[i + 1..t] and `:` at t. */
  predicate TermAt(s: string, i: nat, t: nat) {
    i < t < |s| && IsWordChar(s[i]) && DotRun(s, i + 1, t) && s[t] == ':'
  }

  /** One repetition of group 3's unit, consuming s[p]. */
  predicate BodyUnit(pat: Pattern, s: string, p: nat) {
    p < |s| &&
    match pat
    // `.(?!:)|\n`: a non-terminator not followed by `:`, or a line feed
    case NonFinal => (!IsLineTerminator(s[p]) && !(p + 1 < |s| && s[p + 1] == ':')) || s[p] == '\n'
    // `.|\n`: anything but '\r', U+2028 and U+2029
    case Last => !IsLineTerminator(s[p]) || s[p] == '\n'
  }

  /** What the pattern demands after group 1, which ends at e. */
  predicate Tail(pat: Pattern, s: string, e: nat) {
    match pat
    // `\n.+:`: a line feed, then a line with a `:` after its first character
    case NonFinal =>
      e < |s| && s[e] == '\n' &&
      exists c | e + 1 < c < |s| :: s[c] == ':' && DotRun(s, e + 1, c)
    // `(?:\n|$)`: a line feed or the end of the input
    case Last => e == |s| || (e < |s| && s[e] == '\n')
  }

  /**
   * m is a match of pat in s. Group 1 of a match then spans at least three characters of s:
   * a word character, the `:` and one body character.
   */
  predicate IsMatch(pat: Pattern, s: string, m: Match)
    ensures IsMatch(pat, s, m) ==>
      && m.start < m.termEnd && m.termEnd + 1 < m.bodyEnd <= |s|
      && IsWordChar(s[m.start]) && s[m.termEnd] == ':'
  {
    && TermAt(s, m.start, m.termEnd)
    && m.termEnd + 1 < m.bodyEnd <= |s|
    && (forall p | m.termEnd < p < m.bodyEnd :: BodyUnit(pat, s, p))
    && Tail(pat, s, m.bodyEnd)
  }

  /**
   * The order in which the backtracking search meets matches: an earlier start first;
   * at one start a longer group 2 first (`.*` is greedy); then a longer group 3 (`+` is
   * greedy). Preferred(a, b) holds when a is met no later than b.
   */
  predicate Preferred(a: Match, b: Match) {
    || a.start < b.start
    || (a.start == b.start && a.termEnd > b.termEnd)
    || (a.start == b.start && a.termEnd == b.termEnd && a.bodyEnd >= b.bodyEnd)
  }

  /**
   * The search order is a total order on matches: any two are comparable, and two matches
   * each met no later than the other are the same. So at most one match is preferred over
   * all others, and exec's result is determined.
   */
  lemma PreferredIsTotalOrder(a: Match, b: Match, c: Match)
    ensures Preferred(a, a)
    ensures Preferred(a, b) || Preferred(b, a)
    ensures Preferred(a, b) && Preferred(b, a) ==> a == b
    ensures Preferred(a, b) && Preferred(b, c) ==> Preferred(a, c)
  {
  }

  /**
   * `pat.exec(s)`: the match the search finds, which is the match preferred over every
   * other, or None when there is no match at all.
   */
  function Exec(pat: Pattern, s: string): (r: Option<Match>)
    ensures r.Some? ==> IsMatch(pat, s, r.value)
    ensures r.Some? ==> forall m :: IsMatch(pat, s, m) ==> Preferred(r.value, m)
    ensures r.None? ==> forall m :: !IsMatch(pat, s, m)
  {
    SearchFrom(pat, s, 0)
  }

  /** The search, trying start positions i, i + 1, ... in turn. */
  function SearchFrom(pat: Pattern, s: string, i: nat): (r: Option<Match>)
    requires i <= |s|
    ensures r.Some? ==> IsMatch(pat, s, r.value) && i <= r.value.start
    ensures r.Some? ==> forall m :: IsMatch(pat, s, m) && i <= m.start ==> Preferred(r.value, m)
    ensures r.None? ==> forall m :: IsMatch(pat, s, m) ==> m.start < i
    decreases |s| - i
  {
    if i == |s| then None
    else
      match TryAt(pat, s, i)
      case Some(m) => Some(m)
      case None => SearchFrom(pat, s, i + 1)
  }

  /** First position at or after p that ends the line: a line terminator or the end. */
  function LineEnd(s: string, p: nat): (q: nat)
    requires p <= |s|
    ensures p <= q <= |s| && DotRun(s, p, q)
    ensures q == |s| || IsLineTerminator(s[q])
    decreases |s| - p
  {
    if p == |s| || IsLineTerminator(s[p]) then p else LineEnd(s, p + 1)
  }

  /** First position at or after p where group 3's unit fails to match. */
  function UnitRunEnd(pat: Pattern, s: string, p: nat): (q: nat)
    requires p <= |s|
    ensures p <= q <= |s| && forall x | p <= x < q :: BodyUnit(pat, s, x)
    ensures q == |s| || !BodyUnit(pat, s, q)
    decreases |s| - p
  {
    if p == |s| || !BodyUnit(pat, s, p) then p else UnitRunEnd(pat, s, p + 1)
  }

  /** The search at start i: `\w` here, then every term end on this line, greedy first. */
  function TryAt(pat: Pattern, s: string, i: nat): (r: Option<Match>)
    requires i < |s|
    ensures r.Some? ==> IsMatch(pat, s, r.value) && r.value.start == i
    ensures r.Some? ==> forall m :: IsMatch(pat, s, m) && m.start == i ==> Preferred(r.value, m)
    ensures r.None? ==> forall m :: IsMatch(pat, s, m) ==> m.start != i
  {
    if IsWordChar(s[i]) then
      var q := LineEnd(s, i + 1);
      // a term that starts at i ends on the line it starts on
      assert forall m :: IsMatch(pat, s, m) && m.start == i ==> m.termEnd < q;
      TryTerm(pat, s, i, q)
    else
      None
  }

  /** Tries the term ends t = k - 1, k - 2, ..., i + 1 in turn (backtracking `.*`). */
  function TryTerm(pat: Pattern, s: string, i: nat, k: nat): (r: Option<Match>)
    requires i < k <= |s| && IsWordChar(s[i]) && DotRun(s, i + 1, k)
    ensures r.Some? ==> IsMatch(pat, s, r.value) && r.value.start == i && r.value.termEnd < k
    ensures r.Some? ==> forall m :: IsMatch(pat, s, m) && m.start == i && m.termEnd < k ==> Preferred(r.value, m)
    ensures r.None? ==> forall m :: IsMatch(pat, s, m) && m.start == i ==> m.termEnd >= k
    decreases k
  {
    if k == i + 1 then None
    else
      var t := k - 1;
      if s[t] == ':' then
        var q := UnitRunEnd(pat, s, t + 1);
        // a body after t ends within the run of units that starts at t + 1
        assert forall m :: IsMatch(pat, s, m) && m.start == i && m.termEnd == t ==> m.bodyEnd <= q;
        match TryBody(pat, s, i, t, q)
        case Some(m) => Some(m)
        case None => TryTerm(pat, s, i, t)
      else
        TryTerm(pat, s, i, t)
  }

  /** Tries the body ends e = k, k - 1, ..., t + 2 in turn (backtracking `+`). */
  function TryBody(pat: Pattern, s: string, i: nat, t: nat, k: nat): (r: Option<Match>)
    requires TermAt(s, i, t) && t + 1 <= k <= |s|
    requires forall x | t < x < k :: BodyUnit(pat, s, x)
    ensures r.Some? ==> IsMatch(pat, s, r.value) && r.value.start == i && r.value.termEnd == t
    ensures r.Some? ==> r.value.bodyEnd <= k
    ensures r.Some? ==> forall m :: IsMatch(pat, s, m) && m.start == i && m.termEnd == t && m.bodyEnd <= k ==> m.bodyEnd <= r.value.bodyEnd
    ensures r.None? ==> forall m :: IsMatch(pat, s, m) && m.start == i && m.termEnd == t ==> m.bodyEnd > k
    decreases k
  {
    if k < t + 2 then None
    else if Tail(pat, s, k) then Some(Match(i, t, k))
    else TryBody(pat, s, i, t, k - 1)
  }

  /** A match that is preferred over every other match is the one exec returns. */
  lemma ExecIsOptimum(pat: Pattern, s: string, m: Match)
    requires IsMatch(pat, s, m)
    requires forall m' :: IsMatch(pat, s, m') ==> Preferred(m, m')
    ensures Exec(pat, s) == Some(m)
  {
  }

  /**
   * No match can start inside p, whatever text follows it: every `\w` of p is followed,
   * still inside p, by a line terminator with no `:` before it. Text without word
   * characters ("- ", blank lines) and colon-free lines ended by a newline are such.
   */
  predicate NoTermStartsIn(p: string) {
    forall i | 0 <= i < |p| && IsWordChar(p[i]) ::
      exists j | i < j < |p| :: IsLineTerminator(p[j]) && forall q | i < q < j :: p[q] != ':'
  }

  /** `.*` over a stretch of s is `.*` over the same stretch of p + s. */
  lemma DotRunShifts(p: string, s: string, a: nat, b: nat)
    requires a <= b <= |s|
    ensures DotRun(s, a, b) <==> DotRun(p + s, a + |p|, b + |p|)
  {
    assert forall x | a <= x < b :: (p + s)[x + |p|] == s[x];
  }

  /** Group 3's unit at x in s is group 3's unit at x + |p| in p + s. */
  lemma UnitShifts(pat: Pattern, p: string, s: string, x: nat)
    ensures BodyUnit(pat, s, x) <==> BodyUnit(pat, p + s, x + |p|)
  {
    if x < |s| {
      assert (p + s)[x + |p|] == s[x];
      if x + 1 < |s| { assert (p + s)[x + 1 + |p|] == s[x + 1]; }
    }
  }

  /** What follows group 1 at e in s follows it at e + |p| in p + s. */
  lemma TailShifts(pat: Pattern, p: string, s: string, e: nat)
    requires e <= |s|
    ensures Tail(pat, s, e) <==> Tail(pat, p + s, e + |p|)
  {
    var u, n := p + s, |p|;
    if e < |s| { assert u[e + n] == s[e]; }
    if pat == NonFinal {
      if Tail(pat, s, e) {
        var c :| e + 1 < c < |s| && s[c] == ':' && DotRun(s, e + 1, c);
        DotRunShifts(p, s, e + 1, c);
        assert u[c + n] == ':';
      }
      if Tail(pat, u, e + n) {
        var c :| e + n + 1 < c < |u| && u[c] == ':' && DotRun(u, e + n + 1, c);
        DotRunShifts(p, s, e + 1, c - n);
        assert s[c - n] == u[c];
      }
    }
  }

  /** Every condition of a match looks only at its start and to its right. */
  lemma MatchShifts(pat: Pattern, p: string, s: string, m: Match)
    ensures IsMatch(pat, s, m) <==> IsMatch(pat, p + s, m.MovedBy(|p|))
  {
    var u, n := p + s, |p|;
    var m' := m.MovedBy(n);
    if m.start < m.termEnd < |s| {
      assert u[m'.start] == s[m.start] && u[m'.termEnd] == s[m.termEnd];
      DotRunShifts(p, s, m.start + 1, m.termEnd);
    }
    if m.bodyEnd <= |s| {
      TailShifts(pat, p, s, m.bodyEnd);
    }
    forall x | m.termEnd < x < m.bodyEnd ensures BodyUnit(pat, s, x) <==> BodyUnit(pat, u, x + n) {
      UnitShifts(pat, p, s, x);
    }
    if IsMatch(pat, s, m) {
      forall x | m'.termEnd < x < m'.bodyEnd ensures BodyUnit(pat, u, x) {
        assert BodyUnit(pat, s, x - n);
      }
    }
    if IsMatch(pat, u, m') {
      forall x | m.termEnd < x < m.bodyEnd ensures BodyUnit(pat, s, x) {
        assert BodyUnit(pat, u, x + n);
      }
    }
  }

  /** No term starts inside p, whatever text follows it. */
  lemma NoTermInPrefix(p: string, s: string, i: nat, t: nat)
    requires NoTermStartsIn(p) && i < |p| && t < |p + s|
    ensures !TermAt(p + s, i, t)
  {
    var u := p + s;
    if i < t && IsWordChar(u[i]) && DotRun(u, i + 1, t) {
      assert u[i] == p[i];
      var j :| i < j < |p| && IsLineTerminator(p[j]) && forall q | i < q < j :: p[q] != ':';
      assert u[j] == p[j];
      if t < j {
        assert u[t] == p[t];
      } else if j < t {
        assert false;
      }
    }
  }

  /** A match in p + s starts after p when no term can start inside p. */
  lemma MatchAfterPrefix(pat: Pattern, p: string, s: string, m: Match)
    requires NoTermStartsIn(p) && IsMatch(pat, p + s, m)
    ensures |p| <= m.start
  {
    if m.start < |p| {
      NoTermInPrefix(p, s, m.start, m.termEnd);
      assert false;
    }
  }

  /** A match in p + s, when no term can start inside p, is a match in s moved right by |p|. */
  lemma MatchInSuffix(pat: Pattern, p: string, s: string, m: Match)
    requires NoTermStartsIn(p) && IsMatch(pat, p + s, m)
    ensures |p| <= m.start && IsMatch(pat, s, Match(m.start - |p|, m.termEnd - |p|, m.bodyEnd - |p|))
  {
    MatchAfterPrefix(pat, p, s, m);
    MatchShifts(pat, p, s, Match(m.start - |p|, m.termEnd - |p|, m.bodyEnd - |p|));
  }

  /**
   * Text in which no term can start is skipped by exec: the match in p + s is the match in
   * s, moved right by |p|.
   */
  lemma ExecSkipsPrefix(pat: Pattern, p: string, s: string)
    requires NoTermStartsIn(p)
    ensures Exec(pat, p + s) == if Exec(pat, s).Some? then Some(Exec(pat, s).value.MovedBy(|p|)) else None
  {
    if Exec(pat, s).Some? {
      PrefixKeepsMatch(pat, p, s, Exec(pat, s).value);
    } else {
      PrefixAddsNoMatch(pat, p, s);
    }
  }

  /** Helper: with no match in s, there is none in p + s. */
  lemma PrefixAddsNoMatch(pat: Pattern, p: string, s: string)
    requires NoTermStartsIn(p) && Exec(pat, s).None?
    ensures Exec(pat, p + s).None?
  {
    forall m ensures !IsMatch(pat, p + s, m) {
      if IsMatch(pat, p + s, m) {
        MatchInSuffix(pat, p, s, m);
      }
    }
  }

  /** Helper: the match exec finds in s, moved right by |p|, is the one it finds in p + s. */
  lemma PrefixKeepsMatch(pat: Pattern, p: string, s: string, r: Match)
    requires NoTermStartsIn(p) && Exec(pat, s) == Some(r)
    ensures Exec(pat, p + s) == Some(r.MovedBy(|p|))
  {
    MatchShifts(pat, p, s, r);
    forall m | IsMatch(pat, p + s, m) ensures Preferred(r.MovedBy(|p|), m) {
      MatchInSuffix(pat, p, s, m);
    }
    ExecIsOptimum(pat, p + s, r.MovedBy(|p|));
  }
}
