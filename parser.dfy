/**
 * The selection parser of the "Create Flashcard Set" command
 * (src/ts/flashcards.ts:286-300), as a specification function over the text: each pass
 * finds the next record with the two patterns, emits its trimmed term and body, and goes
 * on from where the record's group 1 ends.
 */
module SelectionParser {
  import opened Wrappers
  import opened Text
  import opened Patterns

  /** The text of one flashcard, the array `[front, back]`. */
  datatype Pair = Pair(front: string, back: string)

  /**
   * One pass's matching (src/ts/flashcards.ts:292-296): the non-final pattern, and the
   * last-record pattern only when the non-final one finds nothing. A record found spans at
   * least three characters (a `\w`, the `:` and one body character) and is followed by a
   * line feed or by the end of the text.
   */
  function NextRecord(s: string): (r: Option<Match>)
    ensures r.Some? ==> r.value.start < r.value.termEnd < r.value.bodyEnd <= |s|
    ensures r.Some? ==> r.value.start + 3 <= r.value.bodyEnd && s[r.value.termEnd] == ':'
    ensures r.Some? ==> r.value.bodyEnd == |s| || s[r.value.bodyEnd] == '\n'
    ensures r.Some? ==> IsMatch(NonFinal, s, r.value) || IsMatch(Last, s, r.value)
    ensures r.None? ==> forall m :: !IsMatch(NonFinal, s, m) && !IsMatch(Last, s, m)
  {
    var first := Exec(NonFinal, s);
    if first.Some? then first else Exec(Last, s)
  }

  /** The pair a record gives: `[match[2].trim(), match[3].trim()]`. */
  function RecordOf(s: string, m: Match): (r: Pair)
    requires m.start <= m.termEnd < m.bodyEnd <= |s|
    ensures IsTrimmed(r.front) && IsTrimmed(r.back)
  {
    Pair(Trim(s[m.start..m.termEnd]), Trim(s[m.termEnd + 1..m.bodyEnd]))
  }

  /**
   * The pairs the loop pushes for the selected text s, in order: the record found, then
   * the pairs of what follows it (`selectedText.slice(match.index + match[1].length)`).
   */
  function Parse(s: string): (ps: seq<Pair>)
    ensures ps == [] <==> NextRecord(s).None?
    decreases |s|
  {
    match NextRecord(s)
    case None => []
    case Some(m) => [RecordOf(s, m)] + Parse(s[m.bodyEnd..])
  }

  /** Each pass consumes a `:`, so there are no more pairs than colons in the selection. */
  lemma {:induction false} ParseCountBound(s: string)
    ensures |Parse(s)| <= multiset(s)[':']
    decreases |s|
  {
    match NextRecord(s)
    case None =>
    case Some(m) =>
      var head, rest := s[..m.bodyEnd], s[m.bodyEnd..];
      ParseCountBound(rest);
      assert s == head + rest;
      assert head[m.termEnd] == ':';
      assert multiset(s) == multiset(head) + multiset(rest);
  }

  /** Colon-free text gives no pairs at all. */
  lemma ColonFreeTextGivesNoPairs(s: string)
    requires ':' !in s
    ensures Parse(s) == []
  {
    ParseCountBound(s);
  }

  /** What every front is: it starts with `\w`, stays on one line and is trimmed. */
  predicate WellFormedFront(f: string) {
    && |f| > 0
    && IsWordChar(f[0])
    && IsTrimmed(f)
    && forall k | 0 <= k < |f| :: !IsLineTerminator(f[k])
  }

  /** b has no line terminator other than the line feed. */
  predicate LineFeedsOnly(b: string) {
    forall k | 0 <= k < |b| :: b[k] == '\n' || !IsLineTerminator(b[k])
  }

  /**
   * The pair of any record either pattern finds has a well-formed front, and a trimmed back
   * whose only line terminators are line feeds (neither `.` nor `\n` takes another one).
   */
  lemma RecordShape(s: string, m: Match)
    requires IsMatch(NonFinal, s, m) || IsMatch(Last, s, m)
    ensures WellFormedFront(RecordOf(s, m).front) && IsTrimmed(RecordOf(s, m).back)
    ensures LineFeedsOnly(RecordOf(s, m).back)
  {
    var term := s[m.start..m.termEnd];
    assert term[0] == s[m.start];
    TrimKeepsFirst(term);
    var front := Trim(term);
    assert forall k | 0 <= k < |front| :: front[k] == s[m.start + k];
    BodyLineFeedsOnly(if IsMatch(NonFinal, s, m) then NonFinal else Last, s, m);
  }

  /** Helper: the trimmed body of a record keeps only characters the body units accept. */
  lemma BodyLineFeedsOnly(pat: Pattern, s: string, m: Match)
    requires IsMatch(pat, s, m)
    ensures LineFeedsOnly(RecordOf(s, m).back)
  {
    var body := s[m.termEnd + 1..m.bodyEnd];
    assert RecordOf(s, m).back == Trim(body);
    UnitsLineFeedsOnly(pat, s, m);
    TrimLineFeedsOnly(body);
  }

  /** Helper: the body units of a match hold no line terminator other than the line feed. */
  lemma UnitsLineFeedsOnly(pat: Pattern, s: string, m: Match)
    requires IsMatch(pat, s, m)
    ensures LineFeedsOnly(s[m.termEnd + 1..m.bodyEnd])
  {
    var body := s[m.termEnd + 1..m.bodyEnd];
    forall k | 0 <= k < |body| ensures body[k] == '\n' || !IsLineTerminator(body[k]) {
      assert body[k] == s[m.termEnd + 1 + k] && BodyUnit(pat, s, m.termEnd + 1 + k);
    }
  }

  /** Helper: trimming keeps a string free of line terminators other than the line feed. */
  lemma TrimLineFeedsOnly(b: string)
    requires LineFeedsOnly(b)
    ensures LineFeedsOnly(Trim(b))
  {
    TrimIsMiddle(b);
    var x, y :| 0 <= x <= y <= |b| && Trim(b) == b[x..y];
    assert forall k | 0 <= k < y - x :: b[x..y][k] == b[x + k];
  }

  /**
   * Every parsed front is non-empty, starts with `\w`, has no line terminator and is
   * trimmed; every back is trimmed and has no line terminator other than the line feed.
   */
  lemma {:induction false} ParsedPairsShape(s: string)
    ensures forall k | 0 <= k < |Parse(s)| ::
      WellFormedFront(Parse(s)[k].front) && IsTrimmed(Parse(s)[k].back) && LineFeedsOnly(Parse(s)[k].back)
    decreases |s|
  {
    match NextRecord(s)
    case None =>
    case Some(m) =>
      var rest := Parse(s[m.bodyEnd..]);
      ParsedPairsShape(s[m.bodyEnd..]);
      RecordShape(s, m);
      assert Parse(s) == [RecordOf(s, m)] + rest;
      forall k | 0 <= k < |Parse(s)|
        ensures WellFormedFront(Parse(s)[k].front) && IsTrimmed(Parse(s)[k].back) && LineFeedsOnly(Parse(s)[k].back)
      {
        if k > 0 { assert Parse(s)[k] == rest[k - 1]; }
      }
  }

  /** Text in which no term can start only moves the record a pass finds, by its length. */
  lemma NextRecordSkipsPrefix(p: string, s: string)
    requires NoTermStartsIn(p)
    ensures NextRecord(p + s) == if NextRecord(s).Some? then Some(NextRecord(s).value.MovedBy(|p|)) else None
  {
    ExecSkipsPrefix(NonFinal, p, s);
    ExecSkipsPrefix(Last, p, s);
  }

  /** Text in which no record can start is skipped: it changes nothing in the pairs. */
  lemma ParseSkipsPrefix(p: string, s: string)
    requires NoTermStartsIn(p)
    ensures Parse(p + s) == Parse(s)
  {
    NextRecordSkipsPrefix(p, s);
    ParseShifted(p, s);
  }

  /** A slice of s is the same slice of p + s, moved right by |p|. */
  lemma SliceAfterPrefix(p: string, s: string, i: nat, j: nat)
    requires i <= j <= |s|
    ensures (p + s)[i + |p|..j + |p|] == s[i..j]
  {
    assert forall k | 0 <= k < j - i :: (p + s)[i + |p|..j + |p|][k] == s[i..j][k];
  }

  /** Helper: the pair of a record is its group 2 and group 3, trimmed. */
  lemma RecordParts(s: string, m: Match)
    requires m.start <= m.termEnd < m.bodyEnd <= |s|
    ensures RecordOf(s, m) == Pair(Trim(s[m.start..m.termEnd]), Trim(s[m.termEnd + 1..m.bodyEnd]))
  {
  }

  /** Two records whose term and body trim alike give the same pair. */
  lemma SameRecord(u: string, m': Match, s: string, m: Match)
    requires m'.start <= m'.termEnd < m'.bodyEnd <= |u| && m.start <= m.termEnd < m.bodyEnd <= |s|
    requires Trim(u[m'.start..m'.termEnd]) == Trim(s[m.start..m.termEnd])
    requires Trim(u[m'.termEnd + 1..m'.bodyEnd]) == Trim(s[m.termEnd + 1..m.bodyEnd])
    ensures RecordOf(u, m') == RecordOf(s, m)
  {
    RecordParts(u, m');
    RecordParts(s, m);
  }

  /** Helper: one pass of the loop gives the pair of the record found, then the pairs of what follows it. */
  lemma ParseFrom(s: string, m: Match, x: Pair, rest: seq<Pair>)
    requires NextRecord(s) == Some(m) && RecordOf(s, m) == x && Parse(s[m.bodyEnd..]) == rest
    ensures Parse(s) == [x] + rest
  {
  }

  /** Moving a record right by |p| and putting p in front leaves its pair unchanged. */
  lemma RecordOfMoved(p: string, s: string, m: Match)
    requires m.start <= m.termEnd < m.bodyEnd <= |s|
    ensures RecordOf(p + s, m.MovedBy(|p|)) == RecordOf(s, m)
  {
    var u, m' := p + s, m.MovedBy(|p|);
    SliceAfterPrefix(p, s, m.start, m.termEnd);
    TrimSame(u[m'.start..m'.termEnd], s[m.start..m.termEnd]);
    SliceAfterPrefix(p, s, m.termEnd + 1, m.bodyEnd);
    TrimSame(u[m'.termEnd + 1..m'.bodyEnd], s[m.termEnd + 1..m.bodyEnd]);
    SameRecord(u, m', s, m);
  }

  /** When the next record of p + s is that of s moved right, so are all the others. */
  lemma ParseShifted(p: string, s: string)
    requires NextRecord(p + s) == if NextRecord(s).Some? then Some(NextRecord(s).value.MovedBy(|p|)) else None
    ensures Parse(p + s) == Parse(s)
  {
    var u := p + s;
    if NextRecord(s).Some? {
      var m := NextRecord(s).value;
      var m' := m.MovedBy(|p|);
      RecordOfMoved(p, s, m);
      assert u[m'.bodyEnd..] == s[m.bodyEnd..];
      ParseFrom(u, m', RecordOf(s, m), Parse(s[m.bodyEnd..]));
      ParseFrom(s, m, RecordOf(s, m), Parse(s[m.bodyEnd..]));
    }
  }

  /**
   * When the non-final pattern finds nothing and the text has no line terminator but
   * '\n', the last-record pattern's body runs to the end of the text: it is the final pair.
   */
  lemma LastRecordIsFinal(s: string)
    requires Exec(NonFinal, s).None? && Exec(Last, s).Some?
    requires forall k | 0 <= k < |s| :: s[k] == '\n' || !IsLineTerminator(s[k])
    ensures Exec(Last, s).value.bodyEnd == |s|
    ensures Parse(s) == [RecordOf(s, Exec(Last, s).value)]
  {
    var m := Exec(Last, s).value;
    assert IsMatch(Last, s, Match(m.start, m.termEnd, |s|));
    assert NextRecord(s[|s|..]) == None;
  }

  /** A back that survives rendering and parsing: trimmed, colon-free, and with no line terminator but '\n'. */
  predicate WellFormedBack(b: string) {
    && IsTrimmed(b)
    && forall k | 0 <= k < |b| :: b[k] != ':' && (b[k] == '\n' || !IsLineTerminator(b[k]))
  }

  predicate WellFormed(x: Pair) {
    WellFormedFront(x.front) && WellFormedBack(x.back)
  }

  /** A pair written out as a record: `front + ": " + back`. */
  function Line(x: Pair): string {
    x.front + ": " + x.back
  }

  /** Pairs written out as records joined by line feeds. */
  function Render(ps: seq<Pair>): string {
    if |ps| == 0 then ""
    else if |ps| == 1 then Line(ps[0])
    else Line(ps[0]) + "\n" + Render(ps[1..])
  }

  /** s starts with the record line of x: the front, then ": ", then the back. */
  predicate LineAt(s: string, x: Pair) {
    && |x.front| + 2 + |x.back| <= |s|
    && (forall k | 0 <= k < |x.front| :: s[k] == x.front[k])
    && s[|x.front|] == ':' && s[|x.front| + 1] == ' '
    && (forall k | 0 <= k < |x.back| :: s[|x.front| + 2 + k] == x.back[k])
  }

  /** Where each part of Line(x) sits. */
  lemma LineLayout(x: Pair)
    ensures |Line(x)| == |x.front| + 2 + |x.back| && LineAt(Line(x), x)
  {
  }

  /** The slices of Line(x) that hold the front and, after the blank, the back. */
  lemma LineSlices(x: Pair)
    ensures |Line(x)| == |x.front| + 2 + |x.back|
    ensures Line(x)[..|x.front|] == x.front && Line(x)[|x.front| + 1..] == [' '] + x.back
  {
  }

  /** The parts of a record give back the pair. */
  lemma RecordOfLine(x: Pair, s: string)
    requires WellFormed(x) && |Line(x)| <= |s| && s[..|Line(x)|] == Line(x)
    ensures RecordOf(s, Match(0, |x.front|, |Line(x)|)) == x
  {
    LineSlices(x);
    var L := |Line(x)|;
    assert s[0..|x.front|] == Line(x)[..|x.front|];
    assert s[|x.front| + 1..L] == Line(x)[|x.front| + 1..];
    TrimTrimmed(x.front);
    TrimAfterBlank(x.back);
  }

  /** After the front of a record line there is no `:` and no line terminator but line feeds, and those come after ": ". */
  lemma AfterFrontAt(s: string, x: Pair)
    requires WellFormedBack(x.back) && LineAt(s, x)
    ensures forall k | |x.front| < k < |x.front| + 2 + |x.back| ::
      s[k] != ':' && (s[k] == '\n' || !IsLineTerminator(s[k])) && (s[k] == '\n' ==> |x.front| + 1 < k)
  {
    var f, b := x.front, x.back;
    forall k | |f| + 1 < k < |f| + 2 + |b| ensures s[k] == b[k - |f| - 2] { }
  }

  /** After the front, Line(x) has no `:` and no line terminator but line feeds, and those come after ": ". */
  lemma LineAfterFront(x: Pair)
    requires WellFormed(x)
    ensures var f, s := x.front, Line(x);
      forall k | |f| < k < |s| :: s[k] != ':' && (s[k] == '\n' || !IsLineTerminator(s[k])) && (s[k] == '\n' ==> |f| + 1 < k)
  {
    LineLayout(x);
    AfterFrontAt(Line(x), x);
  }

  /** No line feed in Line(x) is followed by a `:`, so the non-final pattern never matches it. */
  lemma NoTailInLine(x: Pair, e: nat)
    requires WellFormed(x)
    ensures !Tail(NonFinal, Line(x), e)
  {
    var f, s := x.front, Line(x);
    LineLayout(x);
    LineAfterFront(x);
    assert forall k | 0 <= k < |f| :: !IsLineTerminator(s[k]);
  }

  /** A well-formed pair written alone is found by the last-record pattern, whole. */
  lemma FinalLineRecord(x: Pair)
    requires WellFormed(x)
    ensures NextRecord(Line(x)) == Some(Match(0, |x.front|, |Line(x)|))
  {
    var s, f := Line(x), x.front;
    LineLayout(x);
    LineAfterFront(x);
    var M := Match(0, |f|, |s|);
    forall m | true ensures !IsMatch(NonFinal, s, m) {
      NoTailInLine(x, m.bodyEnd);
    }
    assert DotRun(s, 1, |f|);
    assert IsMatch(Last, s, M);
    ExecIsOptimum(Last, s, M);
  }

  /** Where each part of Line(x) + "\n" + r sits. */
  lemma LineThenLayout(x: Pair, r: string)
    ensures var L, s := |Line(x)|, Line(x) + "\n" + r;
      && L == |x.front| + 2 + |x.back| && |s| == L + 1 + |r|
      && LineAt(s, x)
      && s[L] == '\n'
      && (forall k | 0 <= k < |r| :: s[L + 1 + k] == r[k])
  {
    LineLayout(x);
  }

  /**
   * A record line of a well-formed pair, followed by a line feed and a line r with a `:`
   * after j non-terminators, matches the non-final pattern up to that line feed.
   */
  lemma NonFinalMatchAt(s: string, x: Pair, L: nat, r: string, j: nat)
    requires WellFormed(x) && LineAt(s, x) && L == |x.front| + 2 + |x.back|
    requires |s| == L + 1 + |r| && s[L] == '\n' && forall k | 0 <= k < |r| :: s[L + 1 + k] == r[k]
    requires 1 <= j < |r| && r[j] == ':' && forall k | 0 <= k < j :: !IsLineTerminator(r[k])
    ensures IsMatch(NonFinal, s, Match(0, |x.front|, L))
  {
    var f := x.front;
    AfterFrontAt(s, x);
    assert IsWordChar(s[0]) by { assert s[0] == f[0]; }
    forall k | 1 <= k < |f| ensures !IsLineTerminator(s[k]) {
      assert s[k] == f[k];
    }
    forall y | |f| < y < L ensures BodyUnit(NonFinal, s, y) {
      if y + 1 < L { assert s[y + 1] != ':'; }
    }
    forall e | L + 1 <= e < L + 1 + j ensures !IsLineTerminator(s[e]) {
      assert s[e] == r[e - L - 1];
    }
    assert s[L + 1 + j] == r[j];
  }

  /**
   * A well-formed pair's line, followed by a line feed and a line with a `:` after its
   * first character, matches the non-final pattern as a whole line.
   */
  lemma NonFinalLineMatch(x: Pair, r: string, j: nat)
    requires WellFormed(x)
    requires 1 <= j < |r| && r[j] == ':' && forall k | 0 <= k < j :: !IsLineTerminator(r[k])
    ensures IsMatch(NonFinal, Line(x) + "\n" + r, Match(0, |x.front|, |Line(x)|))
  {
    LineThenLayout(x, r);
    NonFinalMatchAt(Line(x) + "\n" + r, x, |Line(x)|, r, j);
  }

  /** A term at the start of a record line followed by a line feed ends no later than the front's `:`. */
  lemma TermEndAt(s: string, x: Pair, t: nat)
    requires WellFormedBack(x.back) && LineAt(s, x) && |x.front| + 2 + |x.back| < |s|
    requires s[|x.front| + 2 + |x.back|] == '\n' && TermAt(s, 0, t)
    ensures t <= |x.front|
  {
    AfterFrontAt(s, x);
    assert IsLineTerminator(s[|x.front| + 2 + |x.back|]);
  }

  /** A term that starts the text Line(x) + "\n" + r ends no later than the front's `:`. */
  lemma FirstTermEnd(x: Pair, r: string, t: nat)
    requires WellFormed(x) && TermAt(Line(x) + "\n" + r, 0, t)
    ensures t <= |x.front|
  {
    LineThenLayout(x, r);
    TermEndAt(Line(x) + "\n" + r, x, t);
  }

  /**
   * A non-final body whose term ends before the line feed at L stops at that line feed
   * when the line after it, r, has a `:` after j non-terminators.
   */
  lemma BodyEndAt(s: string, L: nat, r: string, j: nat, m: Match)
    requires L < |s| == L + 1 + |r| && s[L] == '\n' && forall k | 0 <= k < |r| :: s[L + 1 + k] == r[k]
    requires 1 <= j < |r| && r[j] == ':' && forall k | 0 <= k < j :: !IsLineTerminator(r[k])
    requires IsMatch(NonFinal, s, m) && m.termEnd < L
    ensures m.bodyEnd <= L
  {
    forall e | L < e <= L + j ensures !IsLineTerminator(s[e]) {
      assert s[e] == r[e - L - 1];
    }
    assert s[L + j + 1] == r[j];
    assert !BodyUnit(NonFinal, s, L + j);
  }

  /** A non-final body after the front's `:` stops before the line feed that ends the record. */
  lemma FirstBodyEnd(x: Pair, r: string, j: nat, m: Match)
    requires WellFormed(x)
    requires 1 <= j < |r| && r[j] == ':' && forall k | 0 <= k < j :: !IsLineTerminator(r[k])
    requires IsMatch(NonFinal, Line(x) + "\n" + r, m) && m.termEnd == |x.front|
    ensures m.bodyEnd <= |Line(x)|
  {
    LineThenLayout(x, r);
    BodyEndAt(Line(x) + "\n" + r, |Line(x)|, r, j, m);
  }

  /** Every other non-final match in that text is met after it. */
  lemma NonFinalLineBest(x: Pair, r: string, j: nat, m: Match)
    requires WellFormed(x)
    requires 1 <= j < |r| && r[j] == ':' && forall k | 0 <= k < j :: !IsLineTerminator(r[k])
    requires IsMatch(NonFinal, Line(x) + "\n" + r, m)
    ensures Preferred(Match(0, |x.front|, |Line(x)|), m)
  {
    if m.start == 0 {
      FirstTermEnd(x, r, m.termEnd);
      if m.termEnd == |x.front| {
        FirstBodyEnd(x, r, j, m);
      }
    }
  }

  /**
   * A well-formed pair followed by a line feed and a line with a `:` after its first
   * character is found by the non-final pattern; its body stops before that line feed.
   */
  lemma NonFinalLineRecord(x: Pair, r: string, j: nat)
    requires WellFormed(x)
    requires 1 <= j < |r| && r[j] == ':' && forall k | 0 <= k < j :: !IsLineTerminator(r[k])
    ensures NextRecord(Line(x) + "\n" + r) == Some(Match(0, |x.front|, |Line(x)|))
  {
    var s, M := Line(x) + "\n" + r, Match(0, |x.front|, |Line(x)|);
    NonFinalLineMatch(x, r, j);
    forall m | IsMatch(NonFinal, s, m) ensures Preferred(M, m) {
      NonFinalLineBest(x, r, j, m);
    }
    ExecIsOptimum(NonFinal, s, M);
  }

  /** Render(ps) starts with the first front followed by `:`. */
  lemma RenderStart(ps: seq<Pair>)
    requires |ps| >= 1
    ensures |ps[0].front| < |Render(ps)| && Render(ps)[|ps[0].front|] == ':'
    ensures forall k | 0 <= k < |ps[0].front| :: Render(ps)[k] == ps[0].front[k]
  {
    LineLayout(ps[0]);
    assert Render(ps)[..|Line(ps[0])|] == Line(ps[0]);
  }

  /** Helper: the two sides of a + b + c split after a. */
  lemma SplitAfter(a: string, b: string, c: string)
    ensures (a + b + c)[..|a|] == a && (a + b + c)[|a|..] == b + c
  {
  }

  /** With at least two records written, the first is found by the non-final pattern and ends at its line feed. */
  lemma RenderedFirstRecord(ps: seq<Pair>)
    requires |ps| >= 2 && forall k | 0 <= k < |ps| :: WellFormed(ps[k])
    ensures Render(ps) == Line(ps[0]) + "\n" + Render(ps[1..])
    ensures NextRecord(Render(ps)) == Some(Match(0, |ps[0].front|, |Line(ps[0])|))
  {
    var x, y, r := ps[0], ps[1], Render(ps[1..]);
    assert WellFormed(x) && WellFormed(y) && ps[1..][0] == y;
    RenderStart(ps[1..]);
    assert forall k | 0 <= k < |y.front| :: !IsLineTerminator(r[k]);
    NonFinalLineRecord(x, r, |y.front|);
  }

  /** A well-formed pair written alone parses back to itself. */
  lemma SingleLineParse(x: Pair)
    requires WellFormed(x)
    ensures Parse(Line(x)) == [x]
  {
    var s := Line(x);
    FinalLineRecord(x);
    RecordOfLine(x, s);
    assert NextRecord(s[|s|..]) == None;
  }

  /** A record line found as the first record, in front of text r, adds its pair in front of r's. */
  lemma LineThenParse(x: Pair, r: string)
    requires WellFormed(x)
    requires NextRecord(Line(x) + "\n" + r) == Some(Match(0, |x.front|, |Line(x)|))
    ensures Parse(Line(x) + "\n" + r) == [x] + Parse(r)
  {
    var s, L := Line(x) + "\n" + r, |Line(x)|;
    SplitAfter(Line(x), "\n", r);
    RecordOfLine(x, s);
    ParseSkipsPrefix("\n", r);
    assert Parse(s) == [RecordOf(s, Match(0, |x.front|, L))] + Parse(s[L..]);
  }

  /**
   * Round trip: well-formed pairs written one record per line parse back to themselves,
   * in order.
   */
  lemma {:induction false} RoundTrip(ps: seq<Pair>)
    requires forall k | 0 <= k < |ps| :: WellFormed(ps[k])
    ensures Parse(Render(ps)) == ps
  {
    if |ps| == 0 {
      assert NextRecord("") == None;
    } else if |ps| == 1 {
      SingleLineParse(ps[0]);
    } else {
      var x, rest := ps[0], ps[1..];
      forall k | 0 <= k < |rest| ensures WellFormed(rest[k]) {
        assert rest[k] == ps[k + 1];
      }
      RoundTrip(rest);
      RenderedFirstRecord(ps);
      LineThenParse(x, Render(rest));
      assert ps == [x] + rest;
    }
  }

  /**
   * Parsing is idempotent on its own output: when no back the loop produced holds a `:`,
   * writing the pairs out as records and parsing again gives the same pairs.
   */
  lemma ParseIdempotent(s: string)
    requires forall k | 0 <= k < |Parse(s)| :: ':' !in Parse(s)[k].back
    ensures Parse(Render(Parse(s))) == Parse(s)
  {
    var ps := Parse(s);
    ParsedPairsShape(s);
    forall k | 0 <= k < |ps| ensures WellFormed(ps[k]) {
      var b := ps[k].back;
      assert forall i | 0 <= i < |b| :: b[i] != ':' by {
        forall i | 0 <= i < |b| ensures b[i] != ':' {
          assert b[i] in b;
        }
      }
    }
    RoundTrip(ps);
  }

  /** A well-formed pair written alone parses back to itself, whatever names its text. */
  lemma ParseOfLine(x: Pair, s: string)
    requires WellFormed(x) && Line(x) == s
    ensures Parse(s) == [x]
  {
    SingleLineParse(x);
  }

  /** Two well-formed pairs written out parse back to themselves. */
  lemma ParseOfTwoLines(x: Pair, y: Pair, s: string)
    requires WellFormed(x) && WellFormed(y) && Line(x) + "\n" + Line(y) == s
    ensures Parse(s) == [x, y]
  {
    assert [x, y][1..] == [y];
    RoundTrip([x, y]);
  }

  /** The pair and the text of the one-record example. */
  lemma OnlyRecordText(s: string)
    requires s == "Only: thing"
    ensures WellFormed(Pair("Only", "thing")) && Line(Pair("Only", "thing")) == s
  {
    assert "Only" + ": " == "Only: ";
  }

  /** One record alone is the final pair. */
  lemma OnlyRecord(s: string)
    requires s == "Only: thing"
    ensures Parse(s) == [Pair("Only", "thing")]
  {
    OnlyRecordText(s);
    ParseOfLine(Pair("Only", "thing"), s);
  }

  /** The first pair of the two-record example is well-formed. */
  lemma FirstOfTwoRecords()
    ensures WellFormed(Pair("France", "Paris"))
  {
  }

  /** The second pair of the two-record example is well-formed. */
  lemma SecondOfTwoRecords()
    ensures WellFormed(Pair("Spain", "Madrid"))
  {
  }

  /** The text of the two-record example is its pairs written out. */
  lemma TwoRecordsText(s: string)
    requires s == "France: Paris\nSpain: Madrid"
    ensures Line(Pair("France", "Paris")) + "\n" + Line(Pair("Spain", "Madrid")) == s
  {
    var l1, l2 := "France: Paris", "Spain: Madrid";
    assert "France" + ": " == "France: ";
    assert "France: " + "Paris" == l1;
    assert "Spain" + ": " == "Spain: ";
    assert "Spain: " + "Madrid" == l2;
    assert l1 + "\n" == "France: Paris\n";
    assert "France: Paris\n" + l2 == s;
  }

  /** Records on consecutive lines give their pairs in order. */
  lemma TwoRecords(s: string)
    requires s == "France: Paris\nSpain: Madrid"
    ensures Parse(s) == [Pair("France", "Paris"), Pair("Spain", "Madrid")]
  {
    FirstOfTwoRecords();
    SecondOfTwoRecords();
    TwoRecordsText(s);
    ParseOfTwoLines(Pair("France", "Paris"), Pair("Spain", "Madrid"), s);
  }

  /** The first pair of the multi-line example, whose back holds a line feed, is well-formed. */
  lemma FirstOfMultiLine()
    ensures WellFormed(Pair("Term", "one\ntwo"))
  {
  }

  /** The second pair of the multi-line example is well-formed. */
  lemma SecondOfMultiLine()
    ensures WellFormed(Pair("Next", "x"))
  {
  }

  /** The text of the multi-line example is its pairs written out. */
  lemma MultiLineText(s: string)
    requires s == "Term: one\ntwo\nNext: x"
    ensures Line(Pair("Term", "one\ntwo")) + "\n" + Line(Pair("Next", "x")) == s
  {
    var l1, l2 := "Term: one\ntwo", "Next: x";
    assert "Term" + ": " == "Term: ";
    assert "Term: " + "one\ntwo" == l1;
    assert "Next" + ": " == "Next: ";
    assert "Next: " + "x" == l2;
    assert l1 + "\n" == "Term: one\ntwo\n";
    assert "Term: one\ntwo\n" + l2 == s;
  }

  /** A body runs over following lines up to the line feed before the next record. */
  lemma MultiLineBody(s: string)
    requires s == "Term: one\ntwo\nNext: x"
    ensures Parse(s) == [Pair("Term", "one\ntwo"), Pair("Next", "x")]
  {
    FirstOfMultiLine();
    SecondOfMultiLine();
    MultiLineText(s);
    ParseOfTwoLines(Pair("Term", "one\ntwo"), Pair("Next", "x"), s);
  }

  /**
   * Text whose word characters all come before a line feed at n, with no `:` before it,
   * is text in which no record can start.
   */
  lemma LineFeedEndsTerms(p: string, n: nat)
    requires n < |p| && p[n] == '\n' && forall q | 0 <= q < n :: p[q] != ':'
    requires forall i | n < i < |p| :: !IsWordChar(p[i])
    ensures NoTermStartsIn(p)
  {
    forall i | 0 <= i < |p| && IsWordChar(p[i])
      ensures exists j | i < j < |p| :: IsLineTerminator(p[j]) && forall q | i < q < j :: p[q] != ':'
    {
      assert IsLineTerminator(p[n]);
    }
  }

  /** Helper: the heading example is the heading and list marker, then one record line. */
  lemma HeadingText(s: string)
    requires s == "Vocabulary\n- Only: thing"
    ensures "Vocabulary\n- " + "Only: thing" == s
  {
  }

  /** A colon-free heading line and a list marker in front of a record are skipped. */
  lemma HeadingSkipped(s: string)
    requires s == "Vocabulary\n- Only: thing"
    ensures Parse(s) == [Pair("Only", "thing")]
  {
    var p, t := "Vocabulary\n- ", "Only: thing";
    HeadingText(s);
    LineFeedEndsTerms(p, 10);
    ParseSkipsPrefix(p, t);
    OnlyRecord(t);
  }

  /** In `\nb:c` the only record is `b:c`, found by the last-record pattern. */
  lemma RecordAfterLineFeed(t: string)
    requires t == "\nb:c"
    ensures NextRecord(t) == Some(Match(1, 2, 4))
  {
    assert |t| == 4 && t[0] == '\n' && t[1] == 'b' && t[2] == ':' && t[3] == 'c';
    forall m ensures !IsMatch(NonFinal, t, m) {
    }
    var w := Match(1, 2, 4);
    assert IsMatch(Last, t, w);
    ExecIsOptimum(Last, t, w);
  }

  /** `\nb:c` gives the one pair `[b, c]`. */
  lemma PairAfterLineFeed(t: string)
    requires t == "\nb:c"
    ensures Parse(t) == [Pair("b", "c")]
  {
    RecordAfterLineFeed(t);
    assert t[1..2] == "b" && t[3..4] == "c";
    TrimTrimmed("b");
    TrimTrimmed("c");
    assert NextRecord(t[4..]) == None;
    ParseFrom(t, Match(1, 2, 4), Pair("b", "c"), []);
  }

  /** In `a::\nb:c` the first record is `a:` with the back `:`, ended before the line feed. */
  lemma ColonBackRecord(s: string)
    requires s == "a::\nb:c"
    ensures NextRecord(s) == Some(Match(0, 1, 3))
  {
    assert |s| == 7 && s[0] == 'a' && s[1] == ':' && s[2] == ':' && s[3] == '\n';
    assert s[4] == 'b' && s[5] == ':' && s[6] == 'c';
    var w := Match(0, 1, 3);
    assert DotRun(s, 4, 5);
    assert IsMatch(NonFinal, s, w);
    forall m | IsMatch(NonFinal, s, m) ensures Preferred(w, m) {
      assert !BodyUnit(NonFinal, s, 4) && !Tail(NonFinal, s, 4);
    }
    ExecIsOptimum(NonFinal, s, w);
  }

  /** The first record of `a::\nb:c` gives `[a, :]`, and `\nb:c` follows it. */
  lemma ColonBackFirstPair(s: string)
    requires s == "a::\nb:c"
    ensures RecordOf(s, Match(0, 1, 3)) == Pair("a", ":") && s[3..] == "\nb:c"
  {
    assert s[0..1] == "a" && s[2..3] == ":";
    RecordParts(s, Match(0, 1, 3));
    TrimTrimmed("a");
    TrimTrimmed(":");
  }

  /** `a::\nb:c` gives the pairs `[a, :]` and `[b, c]`: a back may be a colon. */
  lemma ColonBackParse(s: string)
    requires s == "a::\nb:c"
    ensures Parse(s) == [Pair("a", ":"), Pair("b", "c")]
  {
    ColonBackRecord(s);
    ColonBackFirstPair(s);
    PairAfterLineFeed(s[3..]);
    ParseFrom(s, Match(0, 1, 3), Pair("a", ":"), [Pair("b", "c")]);
  }

  /** Those pairs written out are `a: :\nb: c`. */
  lemma ColonBackRender(r: string)
    requires r == "a: :\nb: c"
    ensures Render([Pair("a", ":"), Pair("b", "c")]) == r
  {
    assert [Pair("a", ":"), Pair("b", "c")][1..] == [Pair("b", "c")];
    assert "a" + ": " == "a: ";
    assert "a: " + ":" == "a: :";
    assert "b" + ": " == "b: ";
    assert "b: " + "c" == "b: c";
    assert "a: :" + "\n" == "a: :\n";
    assert "a: :\n" + "b: c" == r;
  }

  /**
   * In `a: :\nb: c` the blank before the second `:` stops the non-final pattern's body, so
   * the last-record pattern takes the whole text as one record.
   */
  lemma ColonBackRenderedRecord(r: string)
    requires r == "a: :\nb: c"
    ensures NextRecord(r) == Some(Match(0, 3, 9))
  {
    assert |r| == 9 && r[0] == 'a' && r[1] == ':' && r[2] == ' ' && r[3] == ':' && r[4] == '\n';
    assert r[5] == 'b' && r[6] == ':' && r[7] == ' ' && r[8] == 'c';
    forall m ensures !IsMatch(NonFinal, r, m) {
      assert !BodyUnit(NonFinal, r, 2) && !BodyUnit(NonFinal, r, 5) && !Tail(NonFinal, r, 5);
    }
    var w := Match(0, 3, 9);
    assert IsMatch(Last, r, w);
    ExecIsOptimum(Last, r, w);
  }

  /** Trimming the term `a: ` drops its trailing blank. */
  lemma TrimTermWithBlank(u: string)
    requires u == "a: "
    ensures Trim(u) == "a:"
  {
    assert LeadingFrom(u, 0) == 0 && TrailingTo(u, 2) == 2 && TrailingTo(u, 3) == 2;
    assert u[0..2] == "a:";
  }

  /** Trimming the body `\nb: c` drops its leading line feed. */
  lemma TrimBodyWithLineFeed(v: string)
    requires v == "\nb: c"
    ensures Trim(v) == "b: c"
  {
    assert LeadingFrom(v, 1) == 1 && LeadingFrom(v, 0) == 1 && TrailingTo(v, 5) == 5;
    assert v[1..5] == "b: c";
  }

  /** `a: :\nb: c` gives the single pair `[a:, b: c]`. */
  lemma ColonBackReparsed(r: string)
    requires r == "a: :\nb: c"
    ensures Parse(r) == [Pair("a:", "b: c")]
  {
    ColonBackRenderedRecord(r);
    assert r[0..3] == "a: " && r[4..9] == "\nb: c";
    TrimTermWithBlank(r[0..3]);
    TrimBodyWithLineFeed(r[4..9]);
    RecordParts(r, Match(0, 3, 9));
    assert NextRecord(r[9..]) == None;
    ParseFrom(r, Match(0, 3, 9), Pair("a:", "b: c"), []);
  }

  /**
   * Pairs the loop produces need not survive being written out and parsed again once a
   * back holds a `:`: the pairs of `a::\nb:c` are written out as `a: :\nb: c`, which
   * parses to a single different pair. RoundTrip therefore asks for colon-free backs.
   */
  lemma RoundTripNeedsColonFreeBacks(s: string, r: string)
    requires s == "a::\nb:c" && r == "a: :\nb: c"
    ensures Render(Parse(s)) == r && Parse(r) != Parse(s)
  {
    ColonBackParse(s);
    ColonBackRender(r);
    ColonBackReparsed(r);
  }

  /** A line whose only `:` is its first character does not end the body before it. */
  lemma LeadingColonRecord(s: string)
    requires s == "a: x\n:y\nb:c"
    ensures NextRecord(s) == Some(Match(0, 1, 7))
  {
    assert |s| == 11 && s[0] == 'a' && s[1] == ':' && s[2] == ' ' && s[3] == 'x' && s[4] == '\n';
    assert s[5] == ':' && s[6] == 'y' && s[7] == '\n' && s[8] == 'b' && s[9] == ':' && s[10] == 'c';
    var w := Match(0, 1, 7);
    assert DotRun(s, 8, 9);
    assert IsMatch(NonFinal, s, w);
    forall m | IsMatch(NonFinal, s, m) ensures Preferred(w, m) {
      assert !BodyUnit(NonFinal, s, 8) && !Tail(NonFinal, s, 8);
    }
    ExecIsOptimum(NonFinal, s, w);
  }

  /** The first record of `a: x\n:y\nb:c` gives `[a, x\n:y]`, and `\nb:c` follows it. */
  lemma LeadingColonFirstPair(s: string)
    requires s == "a: x\n:y\nb:c"
    ensures RecordOf(s, Match(0, 1, 7)) == Pair("a", "x\n:y") && s[7..] == "\nb:c"
  {
    assert s[0..1] == "a" && s[2..7] == [' '] + "x\n:y";
    RecordParts(s, Match(0, 1, 7));
    TrimTrimmed("a");
    TrimAfterBlank("x\n:y");
  }

  /** `a: x\n:y\nb:c` gives `[a, x\n:y]` and `[b, c]`: the line `:y` stays in the first back. */
  lemma LeadingColonLineInBody(s: string)
    requires s == "a: x\n:y\nb:c"
    ensures Parse(s) == [Pair("a", "x\n:y"), Pair("b", "c")]
  {
    LeadingColonRecord(s);
    LeadingColonFirstPair(s);
    PairAfterLineFeed(s[7..]);
    ParseFrom(s, Match(0, 1, 7), Pair("a", "x\n:y"), [Pair("b", "c")]);
  }

  /**
   * With CRLF line endings and a final CRLF, neither pattern matches: `.` and `\n` both
   * refuse the '\r', so no body reaches a line feed or the end. No card at all.
   */
  lemma CrlfTextGivesNoPairs(s: string)
    requires s == "a: b\r\nc: d\r\n"
    ensures Parse(s) == []
  {
    assert |s| == 12 && s[0] == 'a' && s[1] == ':' && s[2] == ' ' && s[3] == 'b' && s[4] == '\r' && s[5] == '\n';
    assert s[6] == 'c' && s[7] == ':' && s[8] == ' ' && s[9] == 'd' && s[10] == '\r' && s[11] == '\n';
    forall pat: Pattern, m ensures !IsMatch(pat, s, m) {
      assert !BodyUnit(pat, s, 4) && !BodyUnit(pat, s, 10);
    }
  }

  /** With CRLF line endings and no final line break, the one record found is the last line. */
  lemma CrlfLastRecord(s: string)
    requires s == "a: b\r\nc: d"
    ensures NextRecord(s) == Some(Match(6, 7, 10))
  {
    assert |s| == 10 && s[0] == 'a' && s[1] == ':' && s[2] == ' ' && s[3] == 'b' && s[4] == '\r' && s[5] == '\n';
    assert s[6] == 'c' && s[7] == ':' && s[8] == ' ' && s[9] == 'd';
    forall m ensures !IsMatch(NonFinal, s, m) {
      assert !BodyUnit(NonFinal, s, 4);
    }
    var w := Match(6, 7, 10);
    assert IsMatch(Last, s, w);
    forall m | IsMatch(Last, s, m) ensures Preferred(w, m) {
      assert !BodyUnit(Last, s, 4);
    }
    ExecIsOptimum(Last, s, w);
  }

  /** With CRLF line endings and no final line break, only the last pair is found. */
  lemma CrlfTextKeepsLastPair(s: string)
    requires s == "a: b\r\nc: d"
    ensures Parse(s) == [Pair("c", "d")]
  {
    CrlfLastRecord(s);
    assert s[6..7] == "c" && s[8..10] == [' '] + "d";
    TrimTrimmed("c");
    TrimAfterBlank("d");
    RecordParts(s, Match(6, 7, 10));
    assert NextRecord(s[10..]) == None;
    ParseFrom(s, Match(6, 7, 10), Pair("c", "d"), []);
  }
}
