/**
 * The answer-shape check `validate_answer_format` and its record
 * `AnswerFormat` (util/llm_util.py:91-104; History_Assistant.py:37-49 and
 * main.py:32-44 hold identical copies).  The two regular expressions are
 * written out as scanners over positions of the answer text:
 *
 *   r"Perspective \d+: (.*?)\n"   is  Pattern.PerspectiveLine
 *   r"\d+\. (.*?)\n"              is  Pattern.NumberedLine
 *
 * and `re.findall` is `FindAll`: try a match at each position from the
 * left; on success record the group and resume just past the match,
 * otherwise move on by one character.
 */
module LlmUtil {
  import opened Wrappers
  import opened PyStrings

  const PerspectivePrefix: string := "Perspective "
  const QuestionsMarker: string := "Discussion Questions:"

  /** The pydantic model: two lists of strings. */
  datatype AnswerFormat = AnswerFormat(perspectives: seq<string>, discussionQuestions: seq<string>)

  datatype Pattern = PerspectiveLine | NumberedLine

  /** A successful match: the index just past it and its group. */
  datatype Match = Match(end: nat, group: string)

  /** How many ASCII digits `\d+` takes from index `i` on (it is greedy). */
  function DigitRun(s: string, i: nat): (n: nat)
    requires i <= |s|
    ensures i + n <= |s|
    decreases |s| - i
  {
    if i < |s| && IsDigit(s[i]) then 1 + DigitRun(s, i + 1) else 0
  }

  /** The index of the first newline at or after `i`, if there is one. */
  function LineEnd(s: string, i: nat): (e: Option<nat>)
    requires i <= |s|
    ensures e.Some? ==> i <= e.value < |s|
    decreases |s| - i
  {
    if i == |s| then None
    else if s[i] == '\n' then Some(i)
    else LineEnd(s, i + 1)
  }

  /**
   * `\d+` from index `k`, then the character `c` and a space: the index just
   * past the space.  The character after the digit run is not a digit, so
   * the whole run is taken or nothing matches.
   */
  function NumberThen(s: string, k: nat, c: char): (j: Option<nat>)
    requires k <= |s|
    ensures j.Some? ==> k < j.value <= |s|
  {
    var e := k + DigitRun(s, k);
    if e > k && e + 2 <= |s| && s[e] == c && s[e + 1] == ' ' then Some(e + 2) else None
  }

  /** The part of the pattern before the group, `Perspective \d+: ` or `\d+\. `, at index `i`. */
  function LabelEnd(p: Pattern, s: string, i: nat): (j: Option<nat>)
    requires i <= |s|
    ensures j.Some? ==> i < j.value <= |s|
  {
    match p
    case PerspectiveLine =>
      var k := i + |PerspectivePrefix|;
      if k <= |s| && s[i..k] == PerspectivePrefix then NumberThen(s, k, ':') else None
    case NumberedLine => NumberThen(s, i, '.')
  }

  /**
   * The match of `p` at index `i`.  `.` never matches a newline, so the lazy
   * group `(.*?)\n` is everything from the label up to the first newline,
   * and the match fails when no newline follows.
   */
  function MatchAt(p: Pattern, s: string, i: nat): (m: Option<Match>)
    requires i <= |s|
    ensures m.Some? ==> i < m.value.end <= |s|
  {
    match LabelEnd(p, s, i)
    case None => None
    case Some(j) =>
      match LineEnd(s, j)
      case None => None
      case Some(e) => Some(Match(e + 1, s[j..e]))
  }

  /** `re.findall(p, s[i:])` for a pattern without anchors. */
  function FindAllFrom(p: Pattern, s: string, i: nat): seq<string>
    requires i <= |s|
    decreases |s| - i
  {
    if i == |s| then []
    else
      match MatchAt(p, s, i)
      case Some(m) => [m.group] + FindAllFrom(p, s, m.end)
      case None => FindAllFrom(p, s, i + 1)
  }

  /** `re.findall(p, s)`: the groups of the leftmost non-overlapping matches, left to right. */
  function FindAll(p: Pattern, s: string): seq<string> {
    FindAllFrom(p, s, 0)
  }

  /** `answer.split("Discussion Questions:")[1] if "Discussion Questions:" in answer else ""` */
  function QuestionSegment(answer: string): string {
    SplitSecond(answer, QuestionsMarker)
  }

  /** The two `re.findall` calls of `validate_answer_format`. */
  function ParseAnswer(answer: string): AnswerFormat {
    AnswerFormat(FindAll(PerspectiveLine, answer), FindAll(NumberedLine, QuestionSegment(answer)))
  }

  /**
   * pydantic's check of `AnswerFormat(perspectives=..., discussion_questions=...)`:
   * each field must be a list whose items are `str`.  `re.findall` with one
   * group returns exactly that, and the field types `seq<string>` already
   * carry it, so the check has nothing left to reject.
   */
  predicate FieldsAreStringLists(record: AnswerFormat) {
    true
  }

  /**
   * `validate_answer_format`: build the record and report whether pydantic
   * accepted it.  The construction never raises `ValidationError`, so the
   * answer is `True` for every input, with or without perspectives.
   */
  function ValidateAnswerFormat(answer: string): (ok: bool)
    ensures ok
  {
    FieldsAreStringLists(ParseAnswer(answer))
  }

  // ------------------------------------------------------- what a match is

  /** The digit run is exactly the digits before the first non-digit. */
  lemma {:induction false} DigitRunOf(s: string, k: nat, n: nat)
    requires k + n <= |s|
    requires forall t :: k <= t < k + n ==> IsDigit(s[t])
    requires k + n == |s| || !IsDigit(s[k + n])
    ensures DigitRun(s, k) == n
    decreases n
  {
    if n > 0 {
      DigitRunOf(s, k + 1, n - 1);
    }
  }

  /** The line ends at the first newline. */
  lemma {:induction false} LineEndOf(s: string, j: nat, e: nat)
    requires j <= e < |s| && s[e] == '\n'
    requires forall t :: j <= t < e ==> s[t] != '\n'
    ensures LineEnd(s, j) == Some(e)
    decreases e - j
  {
    if j < e {
      LineEndOf(s, j + 1, e);
    }
  }

  /** `LineEnd` finds a newline with none before it, and finds nothing only when there is none. */
  lemma {:induction false} LineEndIsFirst(s: string, j: nat)
    requires j <= |s|
    ensures LineEnd(s, j).Some? ==> s[LineEnd(s, j).value] == '\n'
    ensures forall t :: j <= t < |s| && (LineEnd(s, j).None? || t < LineEnd(s, j).value) ==> s[t] != '\n'
    decreases |s| - j
  {
    if j < |s| && s[j] != '\n' {
      LineEndIsFirst(s, j + 1);
    }
  }

  /** `\d+` takes digits only. */
  lemma {:induction false} DigitRunDigits(s: string, k: nat)
    requires k <= |s|
    ensures forall t :: k <= t < k + DigitRun(s, k) ==> IsDigit(s[t])
    decreases |s| - k
  {
    if k < |s| && IsDigit(s[k]) {
      DigitRunDigits(s, k + 1);
    }
  }

  /**
   * What a match covers is one labelled line: `Perspective <number>: ` or
   * `<number>. `, then the group, then the newline; `number` is the digit
   * run the label was read with.
   */
  lemma LabelledMatch(p: Pattern, s: string, i: nat) returns (number: string)
    requires i <= |s| && MatchAt(p, s, i).Some?
    ensures IsNumber(number)
    ensures s[i..MatchAt(p, s, i).value.end] == Line(p, number, MatchAt(p, s, i).value.group)
  {
    var j := LabelEnd(p, s, i).value;
    LineEndIsFirst(s, j);
    var e := LineEnd(s, j).value;
    assert MatchAt(p, s, i).value == Match(e + 1, s[j..e]);
    match p
    case PerspectiveLine =>
      number := PerspectiveLabel(s, i, j, e);
    case NumberedLine =>
      number := NumberedLabel(s, i, j, e);
  }

  lemma PerspectiveLabel(s: string, i: nat, j: nat, e: nat) returns (number: string)
    requires i <= |s| && LabelEnd(PerspectiveLine, s, i) == Some(j)
    requires j <= e < |s| && s[e] == '\n'
    ensures IsNumber(number) && s[i..e + 1] == Line(PerspectiveLine, number, s[j..e])
  {
    var k := i + |PerspectivePrefix|;
    var n := DigitRun(s, k);
    DigitRunDigits(s, k);
    number := s[k..k + n];
    LineFromParts(s, i, k, k + n, j, e, PerspectivePrefix, ": ");
  }

  lemma NumberedLabel(s: string, i: nat, j: nat, e: nat) returns (number: string)
    requires i <= |s| && LabelEnd(NumberedLine, s, i) == Some(j)
    requires j <= e < |s| && s[e] == '\n'
    ensures IsNumber(number) && s[i..e + 1] == Line(NumberedLine, number, s[j..e])
  {
    var n := DigitRun(s, i);
    DigitRunDigits(s, i);
    number := s[i..i + n];
    LineFromParts(s, i, i, i + n, j, e, "", ". ");
  }

  /** A line read piece by piece: a prefix, the number, its separator, the group, the newline. */
  lemma LineFromParts(s: string, i: nat, k: nat, m: nat, j: nat, e: nat, pre: string, sep: string)
    requires i <= k <= m <= j <= e < |s|
    requires s[i..k] == pre && s[m..j] == sep && s[e] == '\n'
    ensures s[i..e + 1] == pre + (s[k..m] + sep) + (s[j..e] + "\n")
  {
    assert s[e..e + 1] == "\n";
    assert s[i..e + 1] == s[i..k] + (s[k..m] + s[m..j]) + (s[j..e] + s[e..e + 1]);
  }

  /**
   * A match is one labelled line: the label `Perspective <digits>: ` or
   * `<digits>. ` at `i`, then the group, which holds no newline, then the
   * newline that ends the match; so the group is the shortest text after
   * the label that reaches a newline.
   */
  lemma MatchAtShape(p: Pattern, s: string, i: nat)
    requires i <= |s| && MatchAt(p, s, i).Some?
    ensures var m := MatchAt(p, s, i).value;
            && |m.group| < m.end - i
            && s[m.end - 1] == '\n'
            && s[m.end - 1 - |m.group|..m.end - 1] == m.group
            && '\n' !in m.group
            && exists number :: IsNumber(number) && s[i..m.end] == Line(p, number, m.group)
  {
    var j := LabelEnd(p, s, i).value;
    LineEndIsFirst(s, j);
    var e := LineEnd(s, j).value;
    assert forall t :: 0 <= t < e - j ==> s[j..e][t] == s[j + t];
    var number := LabelledMatch(p, s, i);
  }

  /** Some labelled line for `group` stands in `s` at or after `from`. */
  ghost predicate LineIn(p: Pattern, s: string, group: string, from: nat) {
    exists k, number :: from <= k && IsNumber(number) && OccursAt(s, Line(p, number, group), k)
  }

  /**
   * Soundness of the extraction: every group `findall` returns is the text
   * of a labelled line `Perspective <digits>: <group>\n` (or
   * `<digits>. <group>\n`) that stands in the scanned text.
   */
  lemma {:induction false} FindAllFromSound(p: Pattern, s: string, i: nat)
    requires i <= |s|
    ensures forall g :: g in FindAllFrom(p, s, i) ==> LineIn(p, s, g, i)
    decreases |s| - i
  {
    if i < |s| {
      match MatchAt(p, s, i)
      case Some(m) =>
        var number := LabelledMatch(p, s, i);
        assert OccursAt(s, Line(p, number, m.group), i);
        FindAllFromSound(p, s, m.end);
      case None =>
        FindAllFromSound(p, s, i + 1);
    }
  }

  /** Every perspective and every question the check extracts comes from a labelled line of the answer. */
  lemma ExtractedFromLines(answer: string)
    ensures forall g :: g in ParseAnswer(answer).perspectives ==> LineIn(PerspectiveLine, answer, g, 0)
    ensures forall g :: g in ParseAnswer(answer).discussionQuestions ==> LineIn(NumberedLine, QuestionSegment(answer), g, 0)
  {
    FindAllFromSound(PerspectiveLine, answer, 0);
    FindAllFromSound(NumberedLine, QuestionSegment(answer), 0);
  }

  /** Text with no newline from `i` on yields nothing. */
  lemma {:induction false} NoNewlineNoMatches(p: Pattern, s: string, i: nat)
    requires i <= |s|
    requires forall t :: i <= t < |s| ==> s[t] != '\n'
    ensures FindAllFrom(p, s, i) == []
    decreases |s| - i
  {
    if i < |s| {
      if LabelEnd(p, s, i).Some? {
        LineEndIsFirst(s, LabelEnd(p, s, i).value);
      }
      NoNewlineNoMatches(p, s, i + 1);
    }
  }

  /** Every extracted group is free of newlines: a perspective never spans two lines. */
  lemma {:induction false} GroupsHaveNoNewline(p: Pattern, s: string, i: nat)
    requires i <= |s|
    ensures forall k :: 0 <= k < |FindAllFrom(p, s, i)| ==> '\n' !in FindAllFrom(p, s, i)[k]
    decreases |s| - i
  {
    if i < |s| {
      match MatchAt(p, s, i)
      case Some(m) =>
        MatchAtShape(p, s, i);
        GroupsHaveNoNewline(p, s, m.end);
      case None =>
        GroupsHaveNoNewline(p, s, i + 1);
    }
  }

  /** Every perspective match starts with the literal `Perspective `. */
  lemma {:induction false} PerspectivesNeedPrefix(s: string, i: nat)
    requires i <= |s|
    requires forall k :: i <= k <= |s| ==> !OccursAt(s, PerspectivePrefix, k)
    ensures FindAllFrom(PerspectiveLine, s, i) == []
    decreases |s| - i
  {
    if i < |s| {
      assert !OccursAt(s, PerspectivePrefix, i);
      PerspectivesNeedPrefix(s, i + 1);
    }
  }

  // ------------------------------------------------------- rendered answers

  /** A number `\d+` accepts: one or more ASCII digits. */
  predicate IsNumber(number: string) {
    number != [] && forall i :: 0 <= i < |number| ==> IsDigit(number[i])
  }

  /** What the pattern expects before the group: `Perspective <number>: ` or `<number>. `. */
  function Label(p: Pattern, number: string): string {
    match p
    case PerspectiveLine => PerspectivePrefix + (number + ": ")
    case NumberedLine => number + ". "
  }

  /** One line the pattern is written to recognise, for example `Perspective 2: text\n` or `2. text\n`. */
  function Line(p: Pattern, number: string, text: string): string {
    Label(p, number) + (text + "\n")
  }

  /** Numbered items, as the prompt asks the model to list perspectives and questions. */
  datatype Listing = Done | Item(number: string, text: string, rest: Listing)

  /** The items written one per line under the pattern's labels. */
  function RenderListing(p: Pattern, l: Listing): string {
    match l
    case Done => ""
    case Item(n, t, r) => Line(p, n, t) + RenderListing(p, r)
  }

  function Texts(l: Listing): seq<string> {
    match l
    case Done => []
    case Item(_, t, r) => [t] + Texts(r)
  }

  /** Every number is a run of digits and no text spans two lines. */
  predicate WellNumbered(l: Listing) {
    match l
    case Done => true
    case Item(n, t, r) => IsNumber(n) && '\n' !in t && WellNumbered(r)
  }

  /**
   * `PyStrings.OccursAt`, read character by character (`HoldsAtIsOccursAt`):
   * the proofs below peel a rendered line off one piece at a time, which
   * this recursive reading supports without slicing.
   */
  predicate HoldsAt(s: string, w: string, i: nat)
    decreases |w|
  {
    i + |w| <= |s| && (w == [] || (s[i] == w[0] && HoldsAt(s, w[1..], i + 1)))
  }

  lemma {:induction false} HoldsAtChars(s: string, w: string, i: nat)
    requires HoldsAt(s, w, i)
    ensures forall t :: 0 <= t < |w| ==> s[i + t] == w[t]
    decreases |w|
  {
    if w != [] {
      HoldsAtChars(s, w[1..], i + 1);
      forall t | 0 <= t < |w| ensures s[i + t] == w[t] {
        if t > 0 {
          assert s[(i + 1) + (t - 1)] == w[1..][t - 1];
        }
      }
    }
  }

  lemma {:induction false} CharsHoldAt(s: string, w: string, i: nat)
    requires i + |w| <= |s|
    requires forall t :: 0 <= t < |w| ==> s[i + t] == w[t]
    ensures HoldsAt(s, w, i)
    decreases |w|
  {
    if w != [] {
      forall t | 0 <= t < |w| - 1 ensures s[(i + 1) + t] == w[1..][t] {
        assert s[i + (t + 1)] == w[t + 1];
      }
      CharsHoldAt(s, w[1..], i + 1);
    }
  }

  /** The two readings of "`w` stands in `s` at `i`" agree. */
  lemma HoldsAtIsOccursAt(s: string, w: string, i: nat)
    ensures HoldsAt(s, w, i) <==> OccursAt(s, w, i)
  {
    if HoldsAt(s, w, i) {
      HoldsAtChars(s, w, i);
      assert s[i..i + |w|] == w;
    }
    if OccursAt(s, w, i) {
      forall t | 0 <= t < |w| ensures s[i + t] == w[t] {
        assert s[i..i + |w|][t] == s[i + t];
      }
      CharsHoldAt(s, w, i);
    }
  }

  /** A text holds each of its prefixes at its start. */
  lemma HoldsPrefix(a: string, b: string)
    ensures HoldsAt(a + b, a, 0)
  {
    forall t | 0 <= t < |a| ensures (a + b)[0 + t] == a[t] {
    }
    CharsHoldAt(a + b, a, 0);
  }

  /** Where `a + b` stands, `a` stands, and `b` right after it. */
  lemma {:induction false} HoldsAtSplit(s: string, a: string, b: string, i: nat)
    requires HoldsAt(s, a + b, i)
    ensures HoldsAt(s, a, i) && HoldsAt(s, b, i + |a|)
    decreases |a|
  {
    if a != [] {
      assert (a + b)[1..] == a[1..] + b;
      HoldsAtSplit(s, a[1..], b, i + 1);
    } else {
      assert a + b == b;
    }
  }

  /** `HoldsAtSplit`, naming the index where `b` starts. */
  lemma SplitAt(s: string, a: string, b: string, i: nat) returns (j: nat)
    requires HoldsAt(s, a + b, i)
    ensures j == i + |a| && HoldsAt(s, a, i) && HoldsAt(s, b, j)
  {
    HoldsAtSplit(s, a, b, i);
    j := i + |a|;
  }

  /** Where `number` stands followed by `c` and a space, the digit run is the number. */
  lemma DigitsThen(s: string, k: nat, number: string, c: char)
    requires IsNumber(number) && !IsDigit(c)
    requires HoldsAt(s, number + [c, ' '], k)
    ensures DigitRun(s, k) == |number|
    ensures k + |number| + 2 <= |s| && s[k + |number|] == c && s[k + |number| + 1] == ' '
  {
    HoldsAtSplit(s, number, [c, ' '], k);
    HoldsAtChars(s, number, k);
    HoldsAtChars(s, [c, ' '], k + |number|);
    assert s[k + |number| + 0] == c && s[k + |number| + 1] == ' ';
    forall t | k <= t < k + |number| ensures IsDigit(s[t]) {
      assert s[k + (t - k)] == number[t - k];
    }
    DigitRunOf(s, k, |number|);
  }

  /** `number` followed by `c` and a space, at index `k`, is read as a number and its separator. */
  lemma NumberThenOf(s: string, k: nat, number: string, c: char)
    requires IsNumber(number) && !IsDigit(c)
    requires HoldsAt(s, number + [c, ' '], k)
    ensures NumberThen(s, k, c) == Some(k + |number| + 2)
  {
    DigitsThen(s, k, number, c);
  }

  /** Where `Perspective ` stands, the prefix test of `LabelEnd` passes. */
  lemma PrefixAt(s: string, i: nat)
    requires HoldsAt(s, PerspectivePrefix, i)
    ensures i + |PerspectivePrefix| <= |s| && s[i..i + |PerspectivePrefix|] == PerspectivePrefix
  {
    HoldsAtChars(s, PerspectivePrefix, i);
    forall t | 0 <= t < |PerspectivePrefix| ensures s[i..i + |PerspectivePrefix|][t] == PerspectivePrefix[t] {
      assert s[i + t] == PerspectivePrefix[t];
    }
  }

  /** Where a well-formed label stands, it ends where the group begins, at `j`. */
  lemma LabelEndOfLabel(p: Pattern, s: string, i: nat, number: string) returns (j: nat)
    requires IsNumber(number)
    requires HoldsAt(s, Label(p, number), i)
    ensures j == i + |Label(p, number)| && LabelEnd(p, s, i) == Some(j)
  {
    j := i + |Label(p, number)|;
    match p
    case PerspectiveLine =>
      PerspectiveParts(s, i, number);
      NumberThenOf(s, i + |PerspectivePrefix|, number, ':');
      PerspectiveLabelEnd(s, i, |number|);
    case NumberedLine =>
      NumberedLabelAt(s, i, number);
  }

  lemma PerspectiveLabelEnd(s: string, i: nat, n: nat)
    requires i + |PerspectivePrefix| <= |s| && s[i..i + |PerspectivePrefix|] == PerspectivePrefix
    requires NumberThen(s, i + |PerspectivePrefix|, ':') == Some(i + |PerspectivePrefix| + n + 2)
    ensures LabelEnd(PerspectiveLine, s, i) == Some(i + |PerspectivePrefix| + n + 2)
  {
  }

  /** The two parts of a perspective label: the literal prefix, then the number and its separator. */
  lemma PerspectiveParts(s: string, i: nat, number: string)
    requires HoldsAt(s, PerspectivePrefix + (number + ": "), i)
    ensures i + |PerspectivePrefix| <= |s| && s[i..i + |PerspectivePrefix|] == PerspectivePrefix
    ensures HoldsAt(s, number + [':', ' '], i + |PerspectivePrefix|)
  {
    assert ": " == [':', ' '];
    HoldsAtSplit(s, PerspectivePrefix, number + [':', ' '], i);
    PrefixAt(s, i);
  }

  lemma NumberedLabelAt(s: string, i: nat, number: string)
    requires IsNumber(number)
    requires HoldsAt(s, number + ". ", i)
    ensures LabelEnd(NumberedLine, s, i) == Some(i + |number| + 2)
  {
    assert ". " == ['.', ' '];
    NumberThenOf(s, i, number, '.');
  }

  /** Where a text without newlines stands followed by a newline, the line ends at that newline, `e`. */
  lemma LineEndOfText(s: string, j: nat, text: string) returns (e: nat)
    requires '\n' !in text
    requires HoldsAt(s, text + "\n", j)
    ensures e == j + |text| && LineEnd(s, j) == Some(e) && s[j..e] == text
  {
    HoldsAtSplit(s, text, "\n", j);
    HoldsAtChars(s, text, j);
    HoldsAtChars(s, "\n", j + |text|);
    assert s[j + |text| + 0] == '\n';
    forall t | j <= t < j + |text| ensures s[t] != '\n' {
      assert s[j + (t - j)] == text[t - j];
    }
    LineEndOf(s, j, j + |text|);
    forall t | 0 <= t < |text| ensures s[j..j + |text|][t] == text[t] {
      assert s[j + t] == text[t];
    }
    e := j + |text|;
  }

  /** A well-formed line is matched whole, up to `e`, and its group is its text. */
  lemma MatchAtLine(p: Pattern, s: string, i: nat, number: string, text: string) returns (e: nat)
    requires IsNumber(number) && '\n' !in text
    requires HoldsAt(s, Line(p, number, text), i)
    ensures e == i + |Line(p, number, text)|
    ensures MatchAt(p, s, i) == Some(Match(e, text))
  {
    var j := SplitAt(s, Label(p, number), text + "\n", i);
    var j' := LabelEndOfLabel(p, s, i, number);
    assert j' == j;
    var t := LineEndOfText(s, j, text);
    e := t + 1;
  }

  /** A match at `i` contributes its group and scanning resumes just past it. */
  lemma FindAllFromMatch(p: Pattern, s: string, i: nat)
    requires i <= |s| && MatchAt(p, s, i).Some?
    ensures FindAllFrom(p, s, i) == [MatchAt(p, s, i).value.group] + FindAllFrom(p, s, MatchAt(p, s, i).value.end)
  {
  }

  /** Extraction takes a well-formed line's text and carries on at `e`, just past the line. */
  lemma FindAllLine(p: Pattern, s: string, i: nat, number: string, text: string) returns (e: nat)
    requires IsNumber(number) && '\n' !in text
    requires HoldsAt(s, Line(p, number, text), i)
    ensures e == i + |Line(p, number, text)| <= |s|
    ensures FindAllFrom(p, s, i) == [text] + FindAllFrom(p, s, e)
  {
    e := MatchAtLine(p, s, i, number, text);
    FindAllFromMatch(p, s, i);
  }

  /** The first of several lines: its text is extracted and the other lines follow it at `j`. */
  lemma FirstLine(p: Pattern, s: string, i: nat, number: string, text: string, more: string) returns (j: nat)
    requires IsNumber(number) && '\n' !in text
    requires HoldsAt(s, Line(p, number, text) + more, i)
    ensures j == i + |Line(p, number, text)|
    ensures HoldsAt(s, more, j)
    ensures FindAllFrom(p, s, i) == [text] + FindAllFrom(p, s, j)
  {
    j := SplitAt(s, Line(p, number, text), more, i);
    var e := FindAllLine(p, s, i, number, text);
    assert e == j;
  }

  lemma Assemble<T>(a: seq<T>, b: seq<T>, c: seq<T>, t: T, rest: seq<T>, ts: seq<T>)
    requires ts == [t] + rest && a == [t] + b && b == rest + c
    ensures a == ts + c
  {
  }

  /**
   * Extraction over rendered items yields the items' texts, in order,
   * whatever they contain apart from newlines, and then carries on at `e`,
   * just past them.
   */
  lemma {:induction false} ListingAt(p: Pattern, s: string, i: nat, e: nat, l: Listing)
    requires WellNumbered(l)
    requires HoldsAt(s, RenderListing(p, l), i)
    requires e == i + |RenderListing(p, l)|
    ensures e <= |s|
    ensures FindAllFrom(p, s, i) == Texts(l) + FindAllFrom(p, s, e)
    decreases l
  {
    match l
    case Done =>
    case Item(n, t, r) =>
      var j := FirstLine(p, s, i, n, t, RenderListing(p, r));
      ListingAt(p, s, j, e, r);
      Assemble(FindAllFrom(p, s, i), FindAllFrom(p, s, j), FindAllFrom(p, s, e), t, Texts(r), Texts(l));
  }

  /**
   * Round trip: rendering items as labelled lines and extracting them gives
   * their texts back; a remainder without a newline (an unterminated last
   * line, say) contributes nothing.
   */
  lemma ListingRoundTrip(p: Pattern, l: Listing, tail: string)
    requires WellNumbered(l)
    requires '\n' !in tail
    ensures FindAll(p, RenderListing(p, l) + tail) == Texts(l)
  {
    var L := RenderListing(p, l);
    var s := L + tail;
    var e := |L|;
    HoldsPrefix(L, tail);
    ListingAt(p, s, 0, e, l);
    NoNewlineAfter(L, tail);
    NoNewlineNoMatches(p, s, e);
    assert Texts(l) + [] == Texts(l);
  }

  lemma NoNewlineAfter(a: string, b: string)
    requires '\n' !in b
    ensures forall t :: |a| <= t < |a + b| ==> (a + b)[t] != '\n'
  {
    forall t | |a| <= t < |a + b| ensures (a + b)[t] != '\n' {
      assert (a + b)[t] == b[t - |a|];
    }
  }

  // ---------------------------------------------------- the question segment

  /**
   * Questions come from between the first and the second marker: the
   * segment starts right after the first marker, contains no marker, and is
   * followed by the next marker or by the end of the answer.
   */
  lemma SegmentBetweenMarkers(answer: string)
    requires Contains(answer, QuestionsMarker)
    ensures var after := answer[Find(answer, QuestionsMarker).value + |QuestionsMarker|..];
            var seg := QuestionSegment(answer);
            && seg <= after
            && !Contains(seg, QuestionsMarker)
            && (seg == after || QuestionsMarker <= after[|seg|..])
  {
    var i := Find(answer, QuestionsMarker).value;
    var after := answer[i + |QuestionsMarker|..];
    SplitSecondOf(answer, QuestionsMarker, i, after);
    SplitHeadFirst(after, QuestionsMarker);
  }

  /** Without the marker there are no questions, whatever the answer holds. */
  lemma NoMarkerNoQuestions(answer: string)
    requires !Contains(answer, QuestionsMarker)
    ensures ParseAnswer(answer).discussionQuestions == []
  {
  }

  /**
   * A reply that heads its questions `[Discussion Questions]`, as the
   * answer prompt's template does, yields no questions: the header lacks the
   * colon that `split` looks for.
   */
  lemma BracketedHeaderNoQuestions(P: string, Q: string)
    requires !Contains(P, QuestionsMarker) && !Contains(Q, QuestionsMarker)
    ensures ParseAnswer(P + "[Discussion Questions]" + Q).discussionQuestions == []
  {
    var header := "[Discussion Questions";
    var tail := "]" + Q;
    assert P + "[Discussion Questions]" + Q == P + (header + tail);
    MarkerChars();
    assert tail[1..] == Q;
    ContainsTail(tail, QuestionsMarker);
    HeaderLacksMarker();
    ContainsConcat(header, tail, QuestionsMarker);
    ContainsConcat(P, header + tail, QuestionsMarker);
    NoMarkerNoQuestions(P + (header + tail));
  }

  lemma MarkerChars()
    ensures |QuestionsMarker| == 21 && QuestionsMarker[0] == 'D'
    ensures '[' !in QuestionsMarker && ']' !in QuestionsMarker
  {
  }

  /** The bracketed header without its `]` is as long as the marker but begins differently. */
  lemma HeaderLacksMarker()
    ensures !Contains("[Discussion Questions", QuestionsMarker)
  {
    var header := "[Discussion Questions";
    MarkerChars();
    assert |header[1..]| < |QuestionsMarker|;
    ContainsTail(header, QuestionsMarker);
  }

  /** The segment is what follows the first marker when no second marker follows. */
  lemma SegmentOf(answer: string, i: nat, Q: string)
    requires Find(answer, QuestionsMarker) == Some(i)
    requires i + |QuestionsMarker| <= |answer| && answer[i + |QuestionsMarker|..] == Q
    requires !Contains(Q, QuestionsMarker)
    ensures QuestionSegment(answer) == Q
  {
    SplitSecondOf(answer, QuestionsMarker, i, Q);
    SplitHeadWhole(Q, QuestionsMarker);
  }

  /**
   * Perspective lines followed by text that never says `Perspective `:
   * exactly the lines' texts are extracted.
   */
  lemma PerspectivesOf(answer: string, perspectives: Listing, marker: string, Q: string)
    requires WellNumbered(perspectives)
    requires answer == RenderListing(PerspectiveLine, perspectives) + marker + Q
    requires forall k :: |RenderListing(PerspectiveLine, perspectives)| <= k <= |answer| ==> !OccursAt(answer, PerspectivePrefix, k)
    ensures FindAll(PerspectiveLine, answer) == Texts(perspectives)
  {
    var P := RenderListing(PerspectiveLine, perspectives);
    var rest := marker + Q;
    assert answer == P + rest;
    var e := |P|;
    HoldsPrefix(P, rest);
    ListingAt(PerspectiveLine, answer, 0, e, perspectives);
    PerspectivesNeedPrefix(answer, e);
    assert Texts(perspectives) + [] == Texts(perspectives);
  }

  /**
   * An answer made of perspective lines back to back, then the literal
   * `Discussion Questions:`, then numbered question lines.  Both lists are
   * extracted exactly, provided the marker first occurs where it is placed,
   * the question lines do not repeat it, and the text from the marker on
   * never says `Perspective `.  The prompt's own template differs: it puts a
   * citation line under each perspective and heads the questions
   * `[Discussion Questions]` (see `BracketedHeaderNoQuestions`).
   */
  lemma WellFormedAnswer(answer: string, perspectives: Listing, questions: Listing)
    requires WellNumbered(perspectives) && WellNumbered(questions)
    requires answer == RenderListing(PerspectiveLine, perspectives) + QuestionsMarker + RenderListing(NumberedLine, questions)
    requires Find(answer, QuestionsMarker) == Some(|RenderListing(PerspectiveLine, perspectives)|)
    requires !Contains(RenderListing(NumberedLine, questions), QuestionsMarker)
    requires forall k :: |RenderListing(PerspectiveLine, perspectives)| <= k <= |answer| ==> !OccursAt(answer, PerspectivePrefix, k)
    ensures ParseAnswer(answer) == AnswerFormat(Texts(perspectives), Texts(questions))
  {
    PerspectivesOf(answer, perspectives, QuestionsMarker, RenderListing(NumberedLine, questions));
    QuestionsOf(answer, RenderListing(PerspectiveLine, perspectives), questions);
  }

  /** Numbered lines right after the first marker, with no marker among them, are the questions. */
  lemma QuestionsOf(answer: string, P: string, questions: Listing)
    requires WellNumbered(questions)
    requires answer == P + QuestionsMarker + RenderListing(NumberedLine, questions)
    requires Find(answer, QuestionsMarker) == Some(|P|)
    requires !Contains(RenderListing(NumberedLine, questions), QuestionsMarker)
    ensures FindAll(NumberedLine, QuestionSegment(answer)) == Texts(questions)
  {
    var Q := RenderListing(NumberedLine, questions);
    DropTwo(P, QuestionsMarker, Q);
    SegmentOf(answer, |P|, Q);
    ListingRoundTrip(NumberedLine, questions, "");
    assert Q + "" == Q;
  }

  lemma DropTwo(a: string, b: string, c: string)
    ensures |a| + |b| <= |a + b + c| && (a + b + c)[|a| + |b|..] == c
  {
  }

  /** Even an answer with no perspective at all passes validation, with two empty lists. */
  lemma EmptyAnswerAccepted()
    ensures ParseAnswer("") == AnswerFormat([], [])
    ensures ValidateAnswerFormat("")
  {
  }
}
