/**
 * The filename classifier of the uploader, `parse_filename`.
 *
 * An exported workout file is named like `3.1mi Run.tcx`, possibly with a
 * disambiguating sequence number: `3.1mi Run (2).tcx`.  The classifier drops
 * the last four characters (the extension) and matches what is left against
 *
 *     ([\d.]+mi)\s+(.+?)(?:\s+\(\d+\))?$
 *
 * anchored at the start (Python `re.match`).  On a match it returns
 * (`<distance> <type>`, `<type>`); otherwise (name, "Other").
 *
 * The module gives the pattern twice:
 *  - declaratively, as the set of ways a name splits into the pieces of the
 *    pattern (`MatchesWith`), with the engine's choice among them stated as
 *    `IsFirstMatch` (longest `\s+`, then shortest lazy `.+?`);
 *  - operationally, as the backtracking search the regex engine performs
 *    (`Search`), step for step in the engine's order.
 * `SearchIsFirstMatch` proves the two agree on every input.
 */
module FilenameClassifier {

  datatype Option<T> = None | Some(value: T)

  // ---------------------------------------------------------------------
  // Character classes of the pattern
  // ---------------------------------------------------------------------

  /** `\s` of a Python str pattern: the Unicode whitespace characters. */
  predicate IsSpace(c: char) {
    c == ' ' || '\t' <= c <= '\r' || '\U{1C}' <= c <= '\U{1F}' ||
    c == '\U{85}' || c == '\U{A0}' || c == '\U{1680}' ||
    '\U{2000}' <= c <= '\U{200A}' || c == '\U{2028}' || c == '\U{2029}' ||
    c == '\U{202F}' || c == '\U{205F}' || c == '\U{3000}'
  }

  /** The three repeated classes of the pattern: `\d`, `[\d.]` and `\s`. */
  datatype CharClass = Digit | DigitOrDot | Space

  predicate InClass(c: char, k: CharClass) {
    match k
    case Digit => '0' <= c <= '9'
    case DigitOrDot => '0' <= c <= '9' || c == '.'
    case Space => IsSpace(c)
  }

  predicate AllIn(t: string, k: CharClass) {
    forall p :: 0 <= p < |t| ==> InClass(t[p], k)
  }

  /** `.` matches every character except a line break. */
  predicate NoLineBreak(t: string) {
    forall p :: 0 <= p < |t| ==> t[p] != '\n'
  }

  // ---------------------------------------------------------------------
  // The language of the pattern, declaratively
  // ---------------------------------------------------------------------

  /** Group 1, `[\d.]+mi`. */
  predicate DistanceToken(t: string) {
    |t| >= 3 && t[|t| - 2..] == "mi" && AllIn(t[..|t| - 2], DigitOrDot)
  }

  /** `\(\d+\)` */
  predicate ParenNumber(t: string) {
    |t| >= 3 && t[0] == '(' && t[|t| - 1] == ')' && AllIn(t[1..|t| - 1], Digit)
  }

  /** The optional sequence-number group `\s+\(\d+\)`. */
  predicate SequenceSuffix(t: string)
    decreases |t|
  {
    |t| >= 1 && IsSpace(t[0]) && (ParenNumber(t[1..]) || SequenceSuffix(t[1..]))
  }

  /** Python's `$`: the end of the string, or just before a final line break. */
  predicate EndAnchor(t: string) {
    t == "" || t == "\n"
  }

  /** What may follow group 2: `(?:\s+\(\d+\))?$`. */
  predicate Tail(t: string) {
    EndAnchor(t) || SequenceSuffix(t) ||
    (|t| >= 1 && t[|t| - 1] == '\n' && SequenceSuffix(t[..|t| - 1]))
  }

  /**
   * `s` matches the pattern with group 1 = s[..g], the `\s+` run = s[g..h]
   * and group 2 = s[h..e].
   */
  predicate MatchesWith(s: string, g: nat, h: nat, e: nat) {
    g < h < e <= |s| &&
    DistanceToken(s[..g]) && AllIn(s[g..h], Space) &&
    NoLineBreak(s[h..e]) && Tail(s[e..])
  }

  /** Where a match puts its pieces: group 1 ends at distanceEnd, group 2 is s[typeStart..typeEnd]. */
  datatype Captures = Captures(distanceEnd: nat, typeStart: nat, typeEnd: nat)

  /**
   * The match a backtracking engine reports: the greedy `\s+` is as long as
   * possible, and for that run the lazy `.+?` is as short as possible.
   */
  ghost predicate IsFirstMatch(s: string, c: Captures) {
    MatchesWith(s, c.distanceEnd, c.typeStart, c.typeEnd) &&
    forall g: nat, h: nat, e: nat :: MatchesWith(s, g, h, e) ==>
      g == c.distanceEnd && (h < c.typeStart || (h == c.typeStart && c.typeEnd <= e))
  }

  // ---------------------------------------------------------------------
  // The engine's backtracking search
  // ---------------------------------------------------------------------

  /** A greedy run of class `k` from `i`: it stops at the first character outside the class. */
  function RunEnd(s: string, i: nat, k: CharClass): (j: nat)
    requires i <= |s|
    ensures i <= j <= |s|
    ensures forall p {:trigger InClass(s[p], k)} :: i <= p < j ==> InClass(s[p], k)
    ensures j < |s| ==> !InClass(s[j], k)
    decreases |s| - i
  {
    if i < |s| && InClass(s[i], k) then RunEnd(s, i + 1, k) else i
  }

  /** `$` at position i. */
  predicate AtEnd(s: string, i: nat)
    requires i <= |s|
  {
    i == |s| || (i == |s| - 1 && s[i] == '\n')
  }

  /**
   * The group `\s+\(\d+\)` tried at e; the position after `)` on success.
   * Giving back characters of a greedy run never helps here, because the
   * character after each run must lie outside the run's class.
   */
  function GroupEnd(s: string, e: nat): (r: Option<nat>)
    requires e <= |s|
    ensures r.Some? ==> e < r.value <= |s|
  {
    var a := RunEnd(s, e, Space);
    if a == e || a == |s| || s[a] != '(' then None
    else
      var b := RunEnd(s, a + 1, Digit);
      if b == a + 1 || b == |s| || s[b] != ')' then None else Some(b + 1)
  }

  /** `(?:\s+\(\d+\))?$` at e: the group first, then without it. */
  predicate MatchTail(s: string, e: nat)
    requires e <= |s|
  {
    (GroupEnd(s, e).Some? && AtEnd(s, GroupEnd(s, e).value)) || AtEnd(s, e)
  }

  /** Group 2 may be s[h..e] and the rest of the pattern matches after it. */
  predicate Candidate(s: string, h: nat, e: nat) {
    h < e <= |s| && (forall p :: h <= p < e ==> s[p] != '\n') && MatchTail(s, e)
  }

  /**
   * The lazy `.+?` started at h, currently ending at e: it grows one
   * character at a time until the rest of the pattern matches, and gives up
   * at a line break or at the end of the name.
   */
  function LazyTypeEnd(s: string, h: nat, e: nat): (r: Option<nat>)
    requires h < e <= |s|
    requires forall p :: h <= p < e - 1 ==> s[p] != '\n'
    ensures r.Some? ==> e <= r.value && Candidate(s, h, r.value) &&
                        forall e' :: e <= e' < r.value ==> !MatchTail(s, e')
    ensures r.None? ==> forall e' :: e <= e' && Candidate(s, h, e') ==> false
    decreases |s| - e
  {
    if s[e - 1] == '\n' then None
    else if MatchTail(s, e) then Some(e)
    else if e == |s| then None
    else LazyTypeEnd(s, h, e + 1)
  }

  /**
   * Backtracking into the greedy `\s+` after group 1 (which ends at g): the
   * run ending at h is tried first, then one character shorter, down to one
   * character.  Every longer run than the one chosen was tried, and the lazy
   * type found no end after it.
   */
  function TrySpaces(s: string, g: nat, h: nat): (r: Option<Captures>)
    requires g < h <= |s|
    ensures r.Some? ==>
      r.value.distanceEnd == g && g < r.value.typeStart <= h &&
      Candidate(s, r.value.typeStart, r.value.typeEnd) &&
      (forall e :: r.value.typeStart < e < r.value.typeEnd ==> !MatchTail(s, e)) &&
      LazyFailsAfter(s, r.value.typeStart, h)
    ensures r.None? ==> LazyFailsAfter(s, g, h)
    decreases h
  {
    var lazy := if h < |s| then LazyTypeEnd(s, h, h + 1) else None;
    if lazy.Some? then Some(Captures(g, h, lazy.value))
    else if h == g + 1 then None
    else TrySpaces(s, g, h - 1)
  }

  /** The lazy `.+?` started at h finds no end. */
  predicate LazyFails(s: string, h: nat) {
    h >= |s| || LazyTypeEnd(s, h, h + 1).None?
  }

  /** The lazy `.+?` finds no end from any start in (lo, hi]. */
  predicate LazyFailsAfter(s: string, lo: nat, hi: nat)
    decreases hi
  {
    hi <= lo || (LazyFails(s, hi) && LazyFailsAfter(s, lo, hi - 1))
  }

  lemma {:induction false} LazyFailsBetween(s: string, lo: nat, hi: nat, h: nat)
    requires LazyFailsAfter(s, lo, hi) && lo < h <= hi
    ensures LazyFails(s, h)
    decreases hi
  {
    if h < hi {
      LazyFailsBetween(s, lo, hi - 1, h);
    }
  }

  /** When the lazy `.+?` finds no end from h, no type starts at h. */
  lemma NoCandidateAt(s: string, h: nat)
    requires LazyFails(s, h)
    ensures forall e :: !Candidate(s, h, e)
  {
  }

  /**
   * `re.match` of the pattern.  Group 1 never needs backtracking: `[\d.]+`
   * cannot consume the `m`, so it is the whole leading run of digits and dots.
   */
  function Search(s: string): (r: Option<Captures>)
    ensures r.Some? ==> r.value.distanceEnd < r.value.typeStart < r.value.typeEnd <= |s|
  {
    var k := RunEnd(s, 0, DigitOrDot);
    if k == 0 || k + 2 > |s| || s[k] != 'm' || s[k + 1] != 'i' then None
    else
      var h := RunEnd(s, k + 2, Space);
      if h == k + 2 then None else TrySpaces(s, k + 2, h)
  }

  // ---------------------------------------------------------------------
  // The classifier
  // ---------------------------------------------------------------------

  /** What `parse_filename` does after dropping the extension. */
  function Classify(name: string): (string, string) {
    match Search(name)
    case None => (name, "Other")
    case Some(c) =>
      var distance := name[..c.distanceEnd];
      var kind := name[c.typeStart..c.typeEnd];
      (distance + " " + kind, kind)
  }

  /** `filename[:-4]`: empty when the name is shorter than four characters. */
  function Stem(filename: string): (r: string)
    ensures |filename| >= 4 ==> |r| == |filename| - 4 && filename == r + filename[|filename| - 4..]
    ensures |filename| < 4 ==> r == ""
  {
    if |filename| >= 4 then filename[..|filename| - 4] else ""
  }

  /** `parse_filename`: (display name, activity type). Total: every string gives a pair. */
  function ParseFilename(filename: string): (string, string) {
    Classify(Stem(filename))
  }

  // ---------------------------------------------------------------------
  // The engine agrees with the language
  // ---------------------------------------------------------------------

  lemma RunEndExact(s: string, i: nat, j: nat, k: CharClass)
    requires i <= j <= |s|
    requires forall p :: i <= p < j ==> InClass(s[p], k)
    requires j == |s| || !InClass(s[j], k)
    ensures RunEnd(s, i, k) == j
  {
  }

  /** `\(\d+\)` as the engine scans it from c. */
  lemma ParenAgrees(s: string, c: nat, end: nat)
    requires c <= end <= |s|
    ensures ParenNumber(s[c..end]) <==>
      (c < |s| && s[c] == '(' &&
       var b := RunEnd(s, c + 1, Digit);
       b > c + 1 && b < |s| && s[b] == ')' && b + 1 == end)
  {
    var t := s[c..end];
    if ParenNumber(t) {
      var digits := t[1..|t| - 1];
      assert AllIn(digits, Digit);
      forall p | c + 1 <= p < end - 1
        ensures InClass(s[p], Digit)
      {
        assert s[p] == digits[p - c - 1];
        assert InClass(digits[p - c - 1], Digit);
      }
      assert s[end - 1] == t[|t| - 1];
      RunEndExact(s, c + 1, end - 1, Digit);
    }
    if c < |s| && s[c] == '(' {
      var b := RunEnd(s, c + 1, Digit);
      if b > c + 1 && b < |s| && s[b] == ')' && b + 1 == end {
        ParenFromScan(s, c, b);
      }
    }
  }

  /** A `(`, a scanned digit run and a `)` form a parenthesised number. */
  lemma ParenFromScan(s: string, c: nat, b: nat)
    requires c + 1 < b < |s| && s[c] == '(' && s[b] == ')'
    requires forall p :: c + 1 <= p < b ==> InClass(s[p], Digit)
    ensures ParenNumber(s[c..b + 1])
  {
    var t := s[c..b + 1];
    assert |t| == b + 1 - c;
    var digits := t[1..|t| - 1];
    forall q | 0 <= q < |digits|
      ensures InClass(digits[q], Digit)
    {
      assert digits[q] == t[q + 1] == s[c + 1 + q];
    }
  }

  /** The sequence-number group as the engine scans it from e and as a language agree. */
  lemma {:induction false} SuffixAgrees(s: string, e: nat, end: nat)
    requires e <= end <= |s|
    ensures SequenceSuffix(s[e..end]) <==> GroupEnd(s, e) == Some(end)
    decreases end - e
  {
    if e == end {
      assert s[e..end] == [];
    } else {
      SuffixUnfold(s, e, end);
      if IsSpace(s[e]) && e + 1 < |s| && IsSpace(s[e + 1]) {
        SuffixAgrees(s, e + 1, end);
        GroupEndSkipsSpace(s, e);
      } else if IsSpace(s[e]) {
        ParenAgrees(s, e + 1, end);
        assert RunEnd(s, e, Space) == e + 1;
      }
    }
  }

  /**
   * One step of `\s+\(\d+\)` on s[e..end]: a space, then either the
   * parenthesised number or more of the group.  The number cannot start with
   * a space, and the group cannot start with anything else.
   */
  lemma SuffixUnfold(s: string, e: nat, end: nat)
    requires e < end <= |s|
    ensures SequenceSuffix(s[e..end]) <==>
      IsSpace(s[e]) && (ParenNumber(s[e + 1..end]) || SequenceSuffix(s[e + 1..end]))
    ensures e + 1 < end && IsSpace(s[e + 1]) ==> !ParenNumber(s[e + 1..end])
    ensures e + 1 == end || !IsSpace(s[e + 1]) ==> !SequenceSuffix(s[e + 1..end])
  {
    var t := s[e..end];
    assert t[0] == s[e];
    assert t[1..] == s[e + 1..end];
    if e + 1 < end {
      assert s[e + 1..end][0] == s[e + 1];
    }
  }

  /** Inside a run of spaces the group ends where it would from the next position. */
  lemma GroupEndSkipsSpace(s: string, e: nat)
    requires e + 1 < |s| && IsSpace(s[e]) && IsSpace(s[e + 1])
    ensures GroupEnd(s, e) == GroupEnd(s, e + 1)
  {
    assert RunEnd(s, e, Space) == RunEnd(s, e + 1, Space);
  }

  lemma TailAgrees(s: string, e: nat)
    requires e <= |s|
    ensures MatchTail(s, e) <==> Tail(s[e..])
  {
    var t := s[e..];
    assert |t| == |s| - e;
    SuffixAgrees(s, e, |s|);
    assert t == s[e..|s|];
    if e < |s| && s[|s| - 1] == '\n' {
      SuffixAgrees(s, e, |s| - 1);
      assert t[..|t| - 1] == s[e..|s| - 1];
      assert t[|t| - 1] == s[|s| - 1];
    }
    if e == |s| - 1 {
      assert t == [s[e]];
    }
    if t == "\n" {
      assert s[e] == t[0];
    }
  }

  lemma DistanceTokenAgrees(s: string, g: nat)
    requires g <= |s| && DistanceToken(s[..g])
    ensures var k := RunEnd(s, 0, DigitOrDot);
            k > 0 && g == k + 2 && s[k] == 'm' && s[k + 1] == 'i'
  {
    var t := s[..g];
    forall p | 0 <= p < g - 2
      ensures InClass(s[p], DigitOrDot)
    {
      assert s[p] == t[..|t| - 2][p];
    }
    assert s[g - 2] == t[|t| - 2..][0];
    assert s[g - 1] == t[|t| - 2..][1];
    RunEndExact(s, 0, g - 2, DigitOrDot);
  }

  /** Every split of the language is one the engine tries. */
  lemma MatchIsCandidate(s: string, g: nat, h: nat, e: nat)
    requires MatchesWith(s, g, h, e)
    ensures var k := RunEnd(s, 0, DigitOrDot);
            k > 0 && g == k + 2 && s[k] == 'm' && s[k + 1] == 'i'
    ensures h <= RunEnd(s, g, Space) && Candidate(s, h, e)
  {
    DistanceTokenAgrees(s, g);
    forall p | h <= p < e
      ensures s[p] != '\n'
    {
      assert s[p] == s[h..e][p - h];
    }
    TailAgrees(s, e);
  }

  /** What the search returns is a match of the language. */
  lemma SearchFindsMatch(s: string)
    requires Search(s).Some?
    ensures var c := Search(s).value; MatchesWith(s, c.distanceEnd, c.typeStart, c.typeEnd)
  {
    var c := Search(s).value;
    MatchFromScan(s, c.distanceEnd, c.typeStart, c.typeEnd);
  }

  /** Conversely to `MatchIsCandidate`, a candidate the scan can reach is a match. */
  lemma MatchFromScan(s: string, g: nat, h: nat, e: nat)
    requires 2 < g <= |s| && RunEnd(s, 0, DigitOrDot) == g - 2 && s[g - 2] == 'm' && s[g - 1] == 'i'
    requires g < h <= RunEnd(s, g, Space) && Candidate(s, h, e)
    ensures MatchesWith(s, g, h, e)
  {
    var t := s[..g];
    assert t[|t| - 2..] == "mi" by {
      assert t[|t| - 2..][0] == s[g - 2] && t[|t| - 2..][1] == s[g - 1];
    }
    var digits, spaces, kind := t[..|t| - 2], s[g..h], s[h..e];
    forall p | 0 <= p < |digits|
      ensures InClass(digits[p], DigitOrDot)
    {
      assert digits[p] == s[p];
    }
    forall p | 0 <= p < |spaces|
      ensures InClass(spaces[p], Space)
    {
      assert spaces[p] == s[g + p];
    }
    forall p | 0 <= p < |kind|
      ensures kind[p] != '\n'
    {
      assert kind[p] == s[h + p];
    }
    TailAgrees(s, e);
  }

  /** Every match of the language is found, or one the engine prefers is. */
  lemma SearchMissesNothing(s: string, g: nat, h: nat, e: nat)
    requires MatchesWith(s, g, h, e)
    ensures Search(s).Some?
    ensures var c := Search(s).value;
            g == c.distanceEnd && (h < c.typeStart || (h == c.typeStart && c.typeEnd <= e))
  {
    MatchIsCandidate(s, g, h, e);
    var run := RunEnd(s, g, Space);
    assert Search(s) == TrySpaces(s, g, run);
    var c := Search(s);
    if c.None? || h > c.value.typeStart {
      LazyFailsBetween(s, if c.None? then g else c.value.typeStart, run, h);
      NoCandidateAt(s, h);
    }
  }

  /**
   * The search returns exactly the match a backtracking engine reports, and
   * finds none only when the name is outside the pattern's language.
   */
  lemma SearchIsFirstMatch(s: string)
    ensures Search(s).Some? ==> IsFirstMatch(s, Search(s).value)
    ensures Search(s).None? ==> forall g: nat, h: nat, e: nat :: !MatchesWith(s, g, h, e)
  {
    forall g: nat, h: nat, e: nat | MatchesWith(s, g, h, e)
      ensures Search(s).Some?
      ensures var c := Search(s).value;
              g == c.distanceEnd && (h < c.typeStart || (h == c.typeStart && c.typeEnd <= e))
    {
      SearchMissesNothing(s, g, h, e);
    }
    if Search(s).Some? {
      SearchFindsMatch(s);
    }
  }

  lemma FirstMatchUnique(s: string, c: Captures, d: Captures)
    requires IsFirstMatch(s, c) && IsFirstMatch(s, d)
    ensures c == d
  {
  }

  // ---------------------------------------------------------------------
  // Properties of the classifier
  // ---------------------------------------------------------------------

  /** On a match: (`<distance> <type>`, `<type>`), the captured pieces joined by one space. */
  lemma ClassifyMatched(name: string, c: Captures)
    requires IsFirstMatch(name, c)
    ensures Classify(name) ==
      (name[..c.distanceEnd] + " " + name[c.typeStart..c.typeEnd], name[c.typeStart..c.typeEnd])
  {
    SearchReports(name, c);
  }

  /** The search reports the engine's match whenever there is one. */
  lemma SearchReports(s: string, c: Captures)
    requires IsFirstMatch(s, c)
    ensures Search(s) == Some(c)
  {
    SearchIsFirstMatch(s);
    FirstMatchUnique(s, c, Search(s).value);
  }

  /** Without a match the name comes back unchanged, with type "Other". */
  lemma ClassifyUnmatched(name: string)
    requires forall g: nat, h: nat, e: nat :: !MatchesWith(name, g, h, e)
    ensures Classify(name) == (name, "Other")
  {
    SearchIsFirstMatch(name);
  }

  /**
   * Every result is either (name, "Other") or a distance token, one space and
   * a non-empty single-line type: the display name ends with the type.
   */
  lemma ClassifyShape(name: string)
    ensures var display, kind := Classify(name).0, Classify(name).1;
      (display == name && kind == "Other") ||
      (|kind| > 0 && NoLineBreak(kind) && |display| >= |kind| + 4 &&
       display[|display| - |kind|..] == kind &&
       display[|display| - |kind| - 1] == ' ' &&
       DistanceToken(display[..|display| - |kind| - 1]))
  {
    if Search(name).Some? {
      SearchFindsMatch(name);
      var c := Search(name).value;
      JoinShape(name[..c.distanceEnd], name[c.typeStart..c.typeEnd]);
    }
  }

  /** A distance, one space and a type: the type and the distance can be read back off the end. */
  lemma JoinShape(distance: string, kind: string)
    requires DistanceToken(distance) && |kind| > 0
    ensures var display := distance + " " + kind;
      |display| >= |kind| + 4 &&
      display[|display| - |kind|..] == kind &&
      display[|display| - |kind| - 1] == ' ' &&
      display[..|display| - |kind| - 1] == distance
  {
    var display := distance + " " + kind;
    assert display[|display| - |kind|..] == kind;
    assert display[..|display| - |kind| - 1] == distance;
  }

  /** `[:-4]`: exactly the last four characters are dropped, whatever they are. */
  lemma ParseFilenameDropsExtension(name: string, ext: string)
    requires |ext| == 4
    ensures ParseFilename(name + ext) == Classify(name)
  {
    assert (name + ext)[..|name + ext| - 4] == name;
  }

  /** A name of fewer than four characters classifies as ("", "Other"). */
  lemma ParseFilenameShort(filename: string)
    requires |filename| < 4
    ensures ParseFilename(filename) == ("", "Other")
  {
  }

  /**
   * A type as it appears in a file name: one line of text, possibly several
   * words, that neither starts nor ends with whitespace.
   */
  predicate TypeText(t: string) {
    |t| > 0 && NoLineBreak(t) && !IsSpace(t[0]) && !IsSpace(t[|t| - 1])
  }

  lemma DistanceTokenUnique(s: string, g1: nat, g2: nat)
    requires g1 <= |s| && g2 <= |s|
    requires DistanceToken(s[..g1]) && DistanceToken(s[..g2])
    ensures g1 == g2
  {
    DistanceTokenAgrees(s, g1);
    DistanceTokenAgrees(s, g2);
  }

  /** A tail always begins with whitespace, so a word character ends no type early. */
  lemma NoTailAtWord(t: string)
    requires |t| > 0 && !IsSpace(t[0])
    ensures !Tail(t)
  {
    if |t| >= 2 {
      assert t[..|t| - 1][0] == t[0];
    }
  }

  /** The group `\s+\(\d+\)` holds exactly one `)`, its last character. */
  lemma {:induction false} SuffixClosesOnce(t: string)
    ensures SequenceSuffix(t) ==>
      |t| >= 4 && t[|t| - 1] == ')' && forall p :: 0 <= p < |t| - 1 ==> t[p] != ')'
    decreases |t|
  {
    if |t| >= 1 {
      var u := t[1..];
      SuffixClosesOnce(u);
      if ParenNumber(u) {
        forall p | 1 <= p < |u| - 1
          ensures u[p] != ')'
        {
          assert u[p] == u[1..|u| - 1][p - 1];
        }
      }
      forall p | 1 <= p < |t|
        ensures t[p] == u[p - 1]
      {
      }
    }
  }

  /** In the group `\s+\(\d+\)` no whitespace follows a character that is not whitespace. */
  lemma {:induction false} SuffixSpacesLead(t: string, a: nat, b: nat)
    requires SequenceSuffix(t) && a < b < |t| && !IsSpace(t[a])
    ensures !IsSpace(t[b])
    decreases |t|
  {
    var u := t[1..];
    assert a > 0;
    if ParenNumber(u) {
      if b < |t| - 1 {
        assert u[b - 1] == u[1..|u| - 1][b - 2];
      }
    } else {
      SuffixSpacesLead(u, a - 1, b - 1);
    }
  }

  /**
   * Inside a type followed by an optional sequence number, no tail starts
   * before the end of the type: the type's last character is no whitespace,
   * and the sequence number starts with whitespace.
   */
  lemma NoTailInType(t: string, sfx: string, k: nat)
    requires TypeText(t) && 0 < k < |t|
    requires (sfx == "" && t[|t| - 1] != ')') || SequenceSuffix(sfx)
    ensures !Tail(t[k..] + sfx)
  {
    var u := t[k..] + sfx;
    var a := |t| - 1 - k;
    assert u[0] == t[k] && u[a] == t[|t| - 1];
    if !IsSpace(t[k]) {
      NoTailAtWord(u);
    } else {
      assert t[k] != '\n';
      SuffixClosesOnce(u);
      if sfx == "" {
        assert u[|u| - 1] == t[|t| - 1];
      } else {
        SuffixClosesOnce(sfx);
        assert u[|u| - 1] == sfx[|sfx| - 1];
        assert u[a + 1] == sfx[0];
        if SequenceSuffix(u) {
          SuffixSpacesLead(u, a, a + 1);
        }
      }
    }
  }

  /** No `\s+` run after group 1 can reach past a non-space character at h. */
  lemma SpaceRunStops(s: string, g: nat, h: nat, h': nat)
    requires g <= h < |s| && !IsSpace(s[h])
    requires g <= h' <= |s| && AllIn(s[g..h'], Space)
    ensures h' <= h
  {
    forall k | g <= k < h'
      ensures IsSpace(s[k])
    {
      assert s[k] == s[g..h'][k - g];
    }
  }

  /**
   * A match whose `\s+` run stops at a non-space character and whose type
   * cannot end earlier is the one the engine reports.
   */
  lemma FirstMatchAt(s: string, g: nat, h: nat, e: nat)
    requires MatchesWith(s, g, h, e) && !IsSpace(s[h])
    requires forall e' :: h < e' < e ==> !Tail(s[e'..])
    ensures IsFirstMatch(s, Captures(g, h, e))
  {
    forall g': nat, h': nat, e': nat | MatchesWith(s, g', h', e')
      ensures g' == g && (h' < h || (h' == h && e <= e'))
    {
      DistanceTokenUnique(s, g', g);
      SpaceRunStops(s, g, h, h');
    }
  }

  /** Pieces of `d + sp + rest`. */
  lemma SplitPieces(d: string, sp: string, rest: string, s: string)
    requires s == d + sp + rest
    ensures s[..|d|] == d && s[|d|..|d| + |sp|] == sp && s[|d| + |sp|..] == rest
  {
  }

  /** A split whose `\s+` run stops at a non-space and whose type cannot end earlier. */
  predicate ReportedSplit(s: string, g: nat, h: nat, e: nat) {
    MatchesWith(s, g, h, e) && !IsSpace(s[h]) && forall e' :: h < e' < e ==> !Tail(s[e'..])
  }

  /** Such a split is the engine's match, and so decides the classification. */
  lemma ClassifyAt(s: string, g: nat, h: nat, e: nat)
    requires ReportedSplit(s, g, h, e)
    ensures Classify(s) == (s[..g] + " " + s[h..e], s[h..e])
  {
    FirstMatchAt(s, g, h, e);
    ClassifyMatched(s, Captures(g, h, e));
  }

  /**
   * The sequence number is dropped: `<distance><spaces><type>` with or
   * without one trailing ` (n)` gives (`<distance> <type>`, `<type>`), for a
   * type of one word or several.  Without a sequence number the type must not
   * end in `)`, or its own end could be read as one.
   */
  lemma SuffixDropped(d: string, sp: string, t: string, sfx: string)
    requires DistanceToken(d) && |sp| > 0 && AllIn(sp, Space) && TypeText(t)
    requires (sfx == "" && t[|t| - 1] != ')') || SequenceSuffix(sfx)
    ensures Classify(d + sp + t + sfx) == (d + " " + t, t)
  {
    var s := d + sp + t + sfx;
    var g, h, e := |d|, |d| + |sp|, |d| + |sp| + |t|;
    SplitPieces(d, sp, t + sfx, s);
    assert s[h..e] == t && s[e..] == sfx;
    assert MatchesWith(s, g, h, e);
    assert s[h] == t[0];
    forall e' | h < e' < e
      ensures !Tail(s[e'..])
    {
      assert s[e'..] == t[e' - h..] + sfx;
      NoTailInType(t, sfx, e' - h);
    }
    ClassifyAt(s, g, h, e);
  }

  /**
   * Only the last sequence number is dropped: an earlier ` (n)` stays part of
   * the type, so `3.1mi Run (2) (3)` gives type `Run (2)`.
   */
  lemma OnlyLastSuffixDropped(d: string, sp: string, t: string, inner: string, last: string)
    requires DistanceToken(d) && |sp| > 0 && AllIn(sp, Space) && TypeText(t)
    requires SequenceSuffix(inner) && NoLineBreak(inner) && SequenceSuffix(last)
    ensures Classify(d + sp + t + inner + last) == (d + " " + t + inner, t + inner)
  {
    NumberedType(t, inner);
    SuffixDropped(d, sp, t + inner, last);
    Regroup(d, sp, t, inner, last);
  }

  /** A type followed by a sequence number is itself a type, one that ends in `)`. */
  lemma NumberedType(t: string, inner: string)
    requires TypeText(t) && SequenceSuffix(inner) && NoLineBreak(inner)
    ensures TypeText(t + inner)
  {
    SuffixClosesOnce(inner);
    var ti := t + inner;
    assert ti[0] == t[0] && ti[|ti| - 1] == inner[|inner| - 1];
    forall p | 0 <= p < |ti|
      ensures ti[p] != '\n'
    {
      if p < |t| {
        assert ti[p] == t[p];
      } else {
        assert ti[p] == inner[p - |t|];
      }
    }
  }

  lemma Regroup(d: string, sp: string, t: string, inner: string, last: string)
    ensures d + " " + (t + inner) == d + " " + t + inner
    ensures d + sp + (t + inner) + last == d + sp + t + inner + last
  {
  }

  // Concrete file names.  A name that fits one of the shapes above is
  // classified through the general lemma, from its pieces; a name outside
  // them is walked through the engine's search step by step.

  /** A file name made of a distance, spaces, a type, an optional sequence number and an extension. */
  lemma ParseInPieces(d: string, sp: string, t: string, sfx: string, ext: string)
    requires DistanceToken(d) && |sp| > 0 && AllIn(sp, Space) && TypeText(t)
    requires (sfx == "" && t[|t| - 1] != ')') || SequenceSuffix(sfx)
    requires |ext| == 4
    ensures ParseFilename(d + sp + t + sfx + ext) == (d + " " + t, t)
  {
    ParseFilenameDropsExtension(d + sp + t + sfx, ext);
    SuffixDropped(d, sp, t, sfx);
  }

  /** The name `3.1mi Run.tcx`, as its pieces, gives ("3.1mi Run", "Run"). */
  lemma ExamplePlainPieces(d: string, sp: string, t: string, ext: string)
    requires d == "3.1mi" && sp == " " && t == "Run" && ext == ".tcx"
    ensures ParseFilename(d + sp + t + ext) == ("3.1mi Run", "Run")
  {
    TypePieces(d, sp, t, "3.1mi Run");
    ParseInPieces(d, sp, t, "", ext);
  }

  /**
   * The name `3.1mi Run (2).tcx`, as its pieces, gives ("3.1mi Run", "Run"):
   * the sequence number is dropped.
   */
  lemma ExampleNumberedPieces(d: string, sp: string, t: string, sfx: string, ext: string)
    requires d == "3.1mi" && sp == " " && t == "Run" && sfx == " (2)" && ext == ".tcx"
    ensures ParseFilename(d + sp + t + sfx + ext) == ("3.1mi Run", "Run")
  {
    TypePieces(d, sp, t, "3.1mi Run");
    NumberPiece(sfx);
    ParseInPieces(d, sp, t, sfx, ext);
  }

  /**
   * The name `3.1mi  Bike Ride (2).tcx`, as its pieces, gives
   * ("3.1mi Bike Ride", "Bike Ride"): a type of two words, and the two spaces
   * after the distance collapse to one.
   */
  lemma ExampleTwoWordsPieces(d: string, sp: string, t: string, sfx: string, ext: string)
    requires d == "3.1mi" && sp == "  " && t == "Bike Ride" && sfx == " (2)" && ext == ".tcx"
    ensures ParseFilename(d + sp + t + sfx + ext) == ("3.1mi Bike Ride", "Bike Ride")
  {
    TypePieces(d, sp, t, "3.1mi Bike Ride");
    NumberPiece(sfx);
    ParseFilenameDropsExtension(d + sp + t + sfx, ext);
    SuffixDropped(d, sp, t, sfx);
  }

  /**
   * The name `3.1mi Run (2) (3).tcx`, as its pieces, gives
   * ("3.1mi Run (2)", "Run (2)"): only the last number is dropped.
   */
  lemma ExampleTwiceNumberedPieces(d: string, sp: string, t: string, inner: string, last: string, ext: string)
    requires d == "3.1mi" && sp == " " && t == "Run" && inner == " (2)" && last == " (3)"
    requires ext == ".tcx"
    ensures ParseFilename(d + sp + t + inner + last + ext) == ("3.1mi Run (2)", "Run (2)")
  {
    TwiceNumberedPieces(d, sp, t, inner, last);
    ParseFilenameDropsExtension(d + sp + t + inner + last, ext);
    OnlyLastSuffixDropped(d, sp, t, inner, last);
  }

  /** `3.1mi`, one or two spaces and the type `t` fit the pattern's pieces and display as `display`. */
  lemma TypePieces(d: string, sp: string, t: string, display: string)
    requires d == "3.1mi" && (sp == " " || sp == "  ") && (t == "Run" || t == "Bike Ride")
    requires display == "3.1mi " + t
    ensures DistanceToken(d) && |sp| > 0 && AllIn(sp, Space) && TypeText(t) && t[|t| - 1] != ')'
    ensures d + " " + t == display && d + sp + t + "" == d + sp + t
  {
    assert d[|d| - 2..] == "mi" && d[..|d| - 2] == "3.1";
  }

  /** ` (2)` and ` (3)` are sequence numbers. */
  lemma NumberPiece(n: string)
    requires n == " (2)" || n == " (3)"
    ensures SequenceSuffix(n) && NoLineBreak(n)
  {
    assert ParenNumber(n[1..]);
  }

  /** The pieces of `3.1mi Run (2) (3)` meet the requirements of `OnlyLastSuffixDropped`. */
  lemma TwiceNumberedPieces(d: string, sp: string, t: string, inner: string, last: string)
    requires d == "3.1mi" && sp == " " && t == "Run" && inner == " (2)" && last == " (3)"
    ensures DistanceToken(d) && |sp| > 0 && AllIn(sp, Space) && TypeText(t)
    ensures SequenceSuffix(inner) && NoLineBreak(inner) && SequenceSuffix(last)
    ensures d + " " + t + inner == "3.1mi Run (2)" && t + inner == "Run (2)"
  {
    TypePieces(d, sp, t, "3.1mi Run");
    NumberPiece(inner);
    NumberPiece(last);
  }

  /** `workout_final.tcx` does not match: ("workout_final", "Other"). */
  lemma ExampleUnmatched(f: string)
    requires f == "workout_final.tcx"
    ensures ParseFilename(f) == ("workout_final", "Other")
  {
    var s := "workout_final";
    assert Stem(f) == s;
    assert RunEnd(s, 0, DigitOrDot) == 0;
  }

  /**
   * `5mi  .tcx`: the greedy `\s+` takes both spaces and leaves nothing for
   * `.+?`, so the engine gives one space back, and the type is that space.
   */
  lemma ExampleBacktrack(f: string)
    requires f == "5mi  .tcx"
    ensures ParseFilename(f) == ("5mi  ", " ")
  {
    var s := "5mi  ";
    assert Stem(f) == s;
    assert RunEnd(s, 0, DigitOrDot) == 1;
    assert RunEnd(s, 3, Space) == 5;
    assert MatchTail(s, 5);
    assert LazyTypeEnd(s, 4, 5) == Some(5);
    assert TrySpaces(s, 3, 5) == TrySpaces(s, 3, 4) == Some(Captures(3, 4, 5));
    assert Search(s) == Some(Captures(3, 4, 5));
    assert Classify(s) == (s[..3] + " " + s[4..5], s[4..5]);
    assert s[..3] == "5mi" && s[4..5] == " ";
    assert "5mi" + " " + " " == "5mi  ";
  }
}
