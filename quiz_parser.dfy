/**
 * The quiz-text parser of `start_quiz`: the generator's free text is split on
 * `Q<digits>.` markers and every block that has a question line, four option
 * lines and an `Answer:` letter becomes one question; at most five are kept.
 */
module QuizParser {
  import opened Wrappers
  import opened AsciiText
  import opened Seqs

  /** The question dictionary `{"question", "options", "answer"}`. */
  datatype Question = Question(question: string, options: seq<string>, answer: char)

  const MaxQuestions := 5

  // ---------------------------------------------------------------------
  // re.split(r'Q\d+\.', text, flags=re.IGNORECASE)
  // ---------------------------------------------------------------------

  /** Number of leading ASCII digits of `s`. */
  function DigitRun(s: string): (n: nat)
    ensures n <= |s|
  {
    if s != [] && IsDigit(s[0]) then 1 + DigitRun(s[1..]) else 0
  }

  /** Length of the match of `Q\d+\.` (either case of `Q`) at the very start
      of `s`, or 0 when there is none. The greedy `\d+` gains nothing by
      backtracking: giving back a digit leaves a digit where the dot must be. */
  function MarkerLength(s: string): (n: nat)
    ensures n == 0 || (3 <= n <= |s| && s[n - 1] == '.')
  {
    if s != [] && (s[0] == 'Q' || s[0] == 'q') then
      var k := DigitRun(s[1..]);
      if k > 0 && 1 + k < |s| && s[1 + k] == '.' then k + 2 else 0
    else 0
  }

  /** No marker match starts anywhere in `s`. */
  predicate NoMarker(s: string) {
    forall i :: 0 <= i < |s| ==> MarkerLength(s[i..]) == 0
  }

  /** The list `re.split` returns: the text before the first match, between
      successive leftmost non-overlapping matches, and after the last one. */
  function SplitMarkers(s: string): (r: seq<string>)
    ensures |r| >= 1
    decreases |s|
  {
    if s == [] then [""]
    else if MarkerLength(s) > 0 then [""] + SplitMarkers(s[MarkerLength(s)..])
    else
      var rest := SplitMarkers(s[1..]);
      [[s[0]] + rest[0]] + rest[1..]
  }

  /** The texts `re.split` matched and dropped, in order. */
  function Markers(s: string): seq<string>
    decreases |s|
  {
    if s == [] then []
    else if MarkerLength(s) > 0 then [s[..MarkerLength(s)]] + Markers(s[MarkerLength(s)..])
    else Markers(s[1..])
  }

  /** Pieces and the matches between them, put back together. */
  function Weave(pieces: seq<string>, markers: seq<string>): string
    requires |pieces| == |markers| + 1
  {
    if markers == [] then pieces[0]
    else pieces[0] + markers[0] + Weave(pieces[1..], markers[1..])
  }

  /** The split loses nothing: the pieces interleaved with the matched markers
      give back the text. */
  lemma {:induction false} SplitMarkersWeave(s: string)
    ensures |SplitMarkers(s)| == |Markers(s)| + 1
    ensures Weave(SplitMarkers(s), Markers(s)) == s
    decreases |s|
  {
    if s != [] {
      var n := MarkerLength(s);
      if n > 0 {
        SplitMarkersWeave(s[n..]);
        SplitAtMarker(s);
        WeaveAfterMarker(s[..n], SplitMarkers(s[n..]), Markers(s[n..]));
        TakeDrop(s, n);
      } else {
        SplitMarkersWeave(s[1..]);
        SplitAtChar(s);
        WeaveAfterChar(s[0], SplitMarkers(s[1..]), Markers(s[1..]));
        TakeDrop(s, 1);
      }
    }
  }

  lemma TakeDrop(s: string, n: nat)
    requires n <= |s|
    ensures s[..n] + s[n..] == s && (n == 1 ==> [s[0]] + s[1..] == s)
  {
  }

  /** The split and the matches of text that starts with a marker. */
  lemma SplitAtMarker(s: string)
    requires MarkerLength(s) > 0
    ensures var n := MarkerLength(s);
            && SplitMarkers(s) == [""] + SplitMarkers(s[n..])
            && Markers(s) == [s[..n]] + Markers(s[n..])
  {
  }

  /** The split and the matches of text that does not start with a marker. */
  lemma SplitAtChar(s: string)
    requires s != [] && MarkerLength(s) == 0
    ensures var p := SplitMarkers(s[1..]);
            && SplitMarkers(s) == [[s[0]] + p[0]] + p[1..]
            && Markers(s) == Markers(s[1..])
  {
  }

  lemma WeaveAfterMarker(m: string, ps: seq<string>, ms: seq<string>)
    requires |ps| == |ms| + 1
    ensures Weave([""] + ps, [m] + ms) == m + Weave(ps, ms)
  {
    assert ([""] + ps)[1..] == ps;
    assert ([m] + ms)[1..] == ms;
  }

  lemma WeaveAfterChar(c: char, ps: seq<string>, ms: seq<string>)
    requires |ps| == |ms| + 1
    ensures Weave([[c] + ps[0]] + ps[1..], ms) == [c] + Weave(ps, ms)
  {
    if ms != [] {
      var w := Weave(ps[1..], ms[1..]);
      assert ([[c] + ps[0]] + ps[1..])[1..] == ps[1..];
      assert ([c] + ps[0]) + ms[0] + w == [c] + (ps[0] + ms[0] + w);
    }
  }

  /** Each text the split drops is one whole marker. */
  lemma {:induction false} MarkersAreWhole(s: string)
    ensures forall k :: 0 <= k < |Markers(s)| ==> MarkerLength(Markers(s)[k]) == |Markers(s)[k]|
    decreases |s|
  {
    if s != [] {
      var n := MarkerLength(s);
      if n > 0 {
        MarkersAreWhole(s[n..]);
        MarkerTake(s);
        assert Markers(s) == [s[..n]] + Markers(s[n..]);
      } else {
        MarkersAreWhole(s[1..]);
      }
    }
  }

  /** A digit run that stops inside a prefix stops at the same place in the
      whole string. */
  lemma {:induction false} DigitRunPrefix(p: string, s: string)
    requires p <= s && DigitRun(p) < |p|
    ensures DigitRun(s) == DigitRun(p)
  {
    if DigitRun(p) > 0 {
      DigitRunPrefix(p[1..], s[1..]);
    }
  }

  /** Cutting a string after the end of its digit run keeps the run. */
  lemma {:induction false} DigitRunTake(s: string, m: nat)
    requires DigitRun(s) < m <= |s|
    ensures DigitRun(s[..m]) == DigitRun(s)
  {
    if DigitRun(s) > 0 {
      assert s[..m][1..] == s[1..][..m - 1];
      DigitRunTake(s[1..], m - 1);
    }
  }

  /** The marker at the start of a string is matched in full by itself. */
  lemma MarkerTake(s: string)
    requires MarkerLength(s) > 0
    ensures MarkerLength(s[..MarkerLength(s)]) == MarkerLength(s)
  {
    var n := MarkerLength(s);
    assert s[..n][1..] == s[1..][..n - 1];
    DigitRunTake(s[1..], n - 1);
  }

  /** A marker matched at the start of a prefix is matched, unchanged, at the
      start of the whole string. */
  lemma MarkerPrefix(s: string, p: string)
    requires p <= s && MarkerLength(p) > 0
    ensures MarkerLength(s) == MarkerLength(p)
  {
    DigitRunPrefix(p[1..], s[1..]);
  }

  /** The first piece of a split is a prefix of the text. */
  lemma {:induction false} FirstPiecePrefix(s: string)
    ensures SplitMarkers(s)[0] <= s
    decreases |s|
  {
    if s != [] && MarkerLength(s) == 0 {
      FirstPiecePrefix(s[1..]);
    }
  }

  lemma NoMarkerCons(c: char, x: string)
    requires MarkerLength([c] + x) == 0 && NoMarker(x)
    ensures NoMarker([c] + x)
  {
    forall i | 0 < i < |x| + 1 ensures MarkerLength(([c] + x)[i..]) == 0 {
      assert ([c] + x)[i..] == x[i - 1..];
    }
  }

  /** Every piece of the split is free of markers: `re.split` found them all. */
  lemma {:induction false} PiecesHaveNoMarker(s: string)
    ensures forall k :: 0 <= k < |SplitMarkers(s)| ==> NoMarker(SplitMarkers(s)[k])
    decreases |s|
  {
    if s != [] {
      var n := MarkerLength(s);
      if n > 0 {
        PiecesHaveNoMarker(s[n..]);
      } else {
        PiecesHaveNoMarker(s[1..]);
        var rest := SplitMarkers(s[1..]);
        var first := [s[0]] + rest[0];
        FirstPiecePrefix(s[1..]);
        assert first <= s;
        if MarkerLength(first) > 0 {
          MarkerPrefix(s, first);
        }
        NoMarkerCons(s[0], rest[0]);
        assert SplitMarkers(s) == [first] + rest[1..];
      }
    }
  }

  // ---------------------------------------------------------------------
  // One block: question line, option lines, answer line
  // ---------------------------------------------------------------------

  /** `re.match(r"^[A-D]\.\s", line)`: case-sensitive, on the line as split,
      before any stripping. */
  predicate IsOptionLine(line: string) {
    |line| >= 3 && 'A' <= line[0] <= 'D' && line[1] == '.' && IsSpace(line[2])
  }

  /** The options appended from `lines[1:5]`: every matching line, stripped,
      in order. */
  function OptionsOf(lines: seq<string>): (r: seq<string>)
    ensures |r| <= |lines|
  {
    if lines == [] then []
    else
      var last := lines[|lines| - 1];
      var prev := OptionsOf(lines[..|lines| - 1]);
      if IsOptionLine(last) then prev + [Strip(last)] else prev
  }

  /** A letter the capture group `([A-D])` accepts under IGNORECASE. */
  predicate IsAnswerLetter(c: char) {
    'A' <= c <= 'D' || 'a' <= c <= 'd'
  }

  const Keyword := "answer:"

  /** `s` begins with `Answer:` in any mix of letter cases. */
  predicate StartsWithKeyword(s: string) {
    |s| >= |Keyword| && forall i :: 0 <= i < |Keyword| ==> LowerChar(s[i]) == Keyword[i]
  }

  /** The captured letter of `Answer:\s*([A-D])` (IGNORECASE) matched at the
      very start of `s`. `\s*` is greedy and backtracking into it would leave
      a whitespace character where the letter must be, so only the maximal
      whitespace run matters. */
  function AnswerAt(s: string): (r: Option<char>)
    ensures r.Some? ==> IsAnswerLetter(r.value)
  {
    if StartsWithKeyword(s) then
      var rest := TrimLeft(s[|Keyword|..], Whitespace);
      if rest != [] && IsAnswerLetter(rest[0]) then Some(rest[0]) else None
    else None
  }

  /** `re.search`: the letter of the leftmost match in `s`, if any. */
  function FindAnswer(s: string): (r: Option<char>)
    ensures r.Some? ==> IsAnswerLetter(r.value)
    decreases |s|
  {
    if s == [] then None
    else if AnswerAt(s).Some? then AnswerAt(s)
    else FindAnswer(s[1..])
  }

  /** `block.strip().split("\n")`. */
  function BlockLines(block: string): seq<string> {
    SplitOn(Strip(block), '\n')
  }

  function Min(a: int, b: int): int {
    if a < b then a else b
  }

  /** The body of the `for block in blocks` loop: the question a block
      contributes, or `None` when it is skipped or discarded. */
  function ParseBlock(block: string): (r: Option<Question>)
    ensures r.Some? ==> r.value.question != [] && |r.value.options| == 4 && 'A' <= r.value.answer <= 'D'
  {
    if Strip(block) == [] then None
    else
      var lines := BlockLines(block);
      var question := Strip(lines[0]);
      var options := OptionsOf(lines[1..Min(5, |lines|)]);
      var answer := FindAnswer(Strip(lines[|lines| - 1]));
      if question != [] && |options| == 4 && answer.Some? then
        Some(Question(question, options, UpperChar(answer.value)))
      else None
  }

  /** The questions kept from a list of blocks, in block order. */
  function ParseBlocks(blocks: seq<string>): seq<Question> {
    FilterMap(ParseBlock, blocks)
  }

  /** `questions[:5]`. */
  function Truncate(qs: seq<Question>): seq<Question> {
    if |qs| <= MaxQuestions then qs else qs[..MaxQuestions]
  }

  /** What the parsing part of `start_quiz` produces for a generator text. */
  function Parse(text: string): (r: seq<Question>)
    ensures |r| <= MaxQuestions
  {
    Truncate(ParseBlocks(SplitMarkers(text)))
  }

  // ---------------------------------------------------------------------
  // The imperative parser
  // ---------------------------------------------------------------------

  /** The parsing loop of `start_quiz`: every block in turn, then the cut to
      five. */
  method ParseQuiz(text: string) returns (questions: seq<Question>)
    ensures questions == Parse(text)
    ensures |questions| <= MaxQuestions
    ensures forall k :: 0 <= k < |questions| ==> WellFormed(questions[k])
  {
    questions := [];
    var blocks := SplitMarkers(text);
    var i := 0;
    while i < |blocks|
      invariant 0 <= i <= |blocks|
      invariant questions == ParseBlocks(blocks[..i])
    {
      var q := ParseQuizBlock(blocks[i]);
      FilterMapPrefix(ParseBlock, blocks, i);
      if q.Some? {
        questions := questions + [q.value];
      }
      i := i + 1;
    }
    assert blocks[..i] == blocks;
    if |questions| > MaxQuestions {
      questions := questions[..MaxQuestions];
    }
    ParseShape(text);
  }

  /** One more line of the window adds its option, if it is one. */
  lemma OptionsOfStep(lines: seq<string>, j: nat)
    requires 1 <= j < |lines|
    ensures OptionsOf(lines[1..j + 1])
         == OptionsOf(lines[1..j]) + (if IsOptionLine(lines[j]) then [Strip(lines[j])] else [])
  {
    assert lines[1..j + 1][..j - 1] == lines[1..j];
  }

  /** One pass of the loop body: skip a blank block, otherwise take the
      question line, collect the option lines among `lines[1:5]`, search the
      last line for the answer, and keep the question only if all three are
      there. */
  method ParseQuizBlock(block: string) returns (q: Option<Question>)
    ensures q == ParseBlock(block)
    ensures q.Some? ==> WellFormed(q.value)
  {
    if Strip(block) == [] {
      return None;
    }
    var lines := SplitOn(Strip(block), '\n');
    var question := Strip(lines[0]);
    var options: seq<string> := [];
    var j := 1;
    while j < |lines| && j < 5
      invariant 1 <= j <= Min(5, |lines|)
      invariant options == OptionsOf(lines[1..j])
    {
      OptionsOfStep(lines, j);
      if IsOptionLine(lines[j]) {
        options := options + [Strip(lines[j])];
      }
      j := j + 1;
    }
    assert j == Min(5, |lines|) && lines == BlockLines(block);
    var answer := FindAnswer(Strip(lines[|lines| - 1]));
    if question != [] && |options| == 4 && answer.Some? {
      q := Some(Question(question, options, UpperChar(answer.value)));
    } else {
      q := None;
    }
    if q.Some? {
      BlockShape(block);
    }
  }

  // ---------------------------------------------------------------------
  // Properties
  // ---------------------------------------------------------------------

  /** An option as stored: stripped, beginning with a capital A-D and a dot,
      followed by whitespace unless the option is only those two
      characters. */
  predicate StoredOption(o: string) {
    |o| >= 2 && 'A' <= o[0] <= 'D' && o[1] == '.' && (|o| == 2 || IsSpace(o[2]))
    && !IsSpace(o[|o| - 1])
  }

  /** The shape every kept question has. */
  predicate WellFormed(q: Question) {
    && q.question != [] && !IsSpace(q.question[0]) && !IsSpace(q.question[|q.question| - 1])
    && |q.options| == 4
    && (forall k :: 0 <= k < 4 ==> StoredOption(q.options[k]))
    && 'A' <= q.answer <= 'D'
  }

  /** Stripping a matching option line keeps its letter and dot. */
  lemma OptionShape(line: string)
    requires IsOptionLine(line)
    ensures StoredOption(Strip(line)) && Strip(line)[..2] == line[..2]
  {
    assert TrimLeft(line, Whitespace) == line;
    TrimRightPrefix(line, Whitespace);
  }

  lemma {:induction false} OptionsShape(lines: seq<string>)
    ensures forall k :: 0 <= k < |OptionsOf(lines)| ==> StoredOption(OptionsOf(lines)[k])
  {
    if lines != [] {
      OptionsShape(lines[..|lines| - 1]);
      if IsOptionLine(lines[|lines| - 1]) {
        OptionShape(lines[|lines| - 1]);
      }
    }
  }

  lemma BlockShape(block: string)
    requires ParseBlock(block).Some?
    ensures WellFormed(ParseBlock(block).value)
  {
    var lines := BlockLines(block);
    StripShape(lines[0]);
    OptionsShape(lines[1..Min(5, |lines|)]);
  }

  lemma ParseBlocksShape(blocks: seq<string>)
    ensures forall k :: 0 <= k < |ParseBlocks(blocks)| ==> WellFormed(ParseBlocks(blocks)[k])
  {
    forall b | ParseBlock(b).Some? ensures WellFormed(ParseBlock(b).value) {
      BlockShape(b);
    }
    FilterMapAll(ParseBlock, blocks, WellFormed);
  }

  /** Output shape: at most five questions, each with a non-empty stripped
      question text, exactly four stored options and a capital answer
      letter. */
  lemma ParseShape(text: string)
    ensures |Parse(text)| <= MaxQuestions
    ensures forall k :: 0 <= k < |Parse(text)| ==> WellFormed(Parse(text)[k])
  {
    ParseBlocksShape(SplitMarkers(text));
  }

  /** Questions come out in block order, at most one per block: the k-th
      question is what the k-th accepted block gives, a block is accepted
      exactly when it yields a question, and the result is the first five of
      them. */
  lemma ParseBlockOrder(text: string)
    ensures var blocks := SplitMarkers(text);
            var from := Accepted(ParseBlock, blocks);
            var all := ParseBlocks(blocks);
            && Parse(text) == all[..Min(MaxQuestions, |all|)]
            && |all| == |from|
            && (forall k :: 0 <= k < |all| ==> ParseBlock(blocks[from[k]]) == Some(all[k]))
            && (forall j :: 0 <= j < |blocks| ==> (ParseBlock(blocks[j]).Some? <==> j in from))
  {
    FilterMapAccepted(ParseBlock, SplitMarkers(text));
  }

  /** The options kept from at most four lines number four exactly when all
      four lines match, and are then those lines stripped. */
  lemma {:induction false} OptionsCount(lines: seq<string>)
    ensures |OptionsOf(lines)| == |lines| <==> forall j :: 0 <= j < |lines| ==> IsOptionLine(lines[j])
    ensures (forall j :: 0 <= j < |lines| ==> IsOptionLine(lines[j])) ==>
              forall j :: 0 <= j < |lines| ==> OptionsOf(lines)[j] == Strip(lines[j])
  {
    if lines != [] {
      var init, last := lines[..|lines| - 1], lines[|lines| - 1];
      OptionsCount(init);
      var prev := OptionsOf(init);
      if IsOptionLine(last) {
        assert OptionsOf(lines) == prev + [Strip(last)];
        if forall j :: 0 <= j < |init| ==> IsOptionLine(init[j]) {
          forall j | 0 <= j < |lines| ensures IsOptionLine(lines[j]) && OptionsOf(lines)[j] == Strip(lines[j]) {
            if j < |init| {
              assert lines[j] == init[j];
            }
          }
        } else {
          var j :| 0 <= j < |init| && !IsOptionLine(init[j]);
          assert !IsOptionLine(lines[j]);
        }
      } else {
        assert OptionsOf(lines) == prev;
      }
    }
  }

  /** The first line of a non-blank block has a non-empty stripped text. */
  lemma QuestionLineNonEmpty(block: string)
    requires Strip(block) != []
    ensures Strip(BlockLines(block)[0]) != []
  {
    var t := Strip(block);
    StripShape(block);
    var lines := BlockLines(block);
    assert lines[0] != [] && lines[0][0] == t[0] by {
      var rest := SplitOn(t[1..], '\n');
      assert lines == [[t[0]] + rest[0]] + rest[1..];
    }
    StripShape(lines[0]);
  }

  /** Block acceptance, in both directions: a block yields a question exactly
      when it is not blank, has at least five lines, lines 1 to 4 all match
      the option pattern and the last line has an `Answer:` letter; the
      question is then the stripped first line, the four stripped option
      lines and the upper-cased letter. */
  lemma BlockAcceptance(block: string)
    ensures ParseBlock(block).Some? <==>
      && Strip(block) != []
      && |BlockLines(block)| >= 5
      && (forall j :: 1 <= j <= 4 ==> IsOptionLine(BlockLines(block)[j]))
      && FindAnswer(Strip(BlockLines(block)[|BlockLines(block)| - 1])).Some?
    ensures ParseBlock(block).Some? ==>
      var lines := BlockLines(block);
      ParseBlock(block).value == Question(
        Strip(lines[0]),
        [Strip(lines[1]), Strip(lines[2]), Strip(lines[3]), Strip(lines[4])],
        UpperChar(FindAnswer(Strip(lines[|lines| - 1])).value))
  {
    if Strip(block) != [] {
      QuestionLineNonEmpty(block);
      OptionsWindow(BlockLines(block));
    }
  }

  /** Lines 1 to 4 give four options exactly when there are at least five
      lines and all four match; the options are then those lines
      stripped. */
  lemma OptionsWindow(lines: seq<string>)
    requires |lines| >= 1
    ensures var options := OptionsOf(lines[1..Min(5, |lines|)]);
            && (|options| == 4 <==> |lines| >= 5 && forall j :: 1 <= j <= 4 ==> IsOptionLine(lines[j]))
            && (|options| == 4 ==>
                  options == [Strip(lines[1]), Strip(lines[2]), Strip(lines[3]), Strip(lines[4])])
  {
    if |lines| >= 5 {
      var window := lines[1..5];
      assert window == [lines[1], lines[2], lines[3], lines[4]];
      OptionsCount(window);
    }
  }

  /** A block in which one of lines 1 to 4 is indented or starts with a
      lower-case letter contributes nothing: option matching is
      case-sensitive and anchored on the unstripped line. */
  lemma IndentedOrLowercaseOptionRejected(block: string, j: int)
    requires 1 <= j <= 4 && j < |BlockLines(block)|
    requires BlockLines(block)[j] != []
    requires var c := BlockLines(block)[j][0]; IsSpace(c) || 'a' <= c <= 'z'
    ensures ParseBlock(block) == None
  {
    BlockAcceptance(block);
  }

  /** A match of `Answer:\s*([A-D])` (IGNORECASE) at the front of `t` whose
      letter `c` sits at position `n`: the keyword in any letter case, only
      whitespace between it and `n`. */
  predicate MatchAt(t: string, n: int, c: char) {
    && |Keyword| <= n < |t|
    && Lower(t[..|Keyword|]) == Keyword
    && IsBlank(t[|Keyword|..n])
    && t[n] == c && IsAnswerLetter(c)
  }

  lemma KeywordPrefix(t: string)
    requires |t| >= |Keyword|
    ensures StartsWithKeyword(t) <==> Lower(t[..|Keyword|]) == Keyword
  {
    var k := Lower(t[..|Keyword|]);
    if StartsWithKeyword(t) {
      assert forall i :: 0 <= i < |Keyword| ==> k[i] == Keyword[i];
    }
  }

  lemma AnswerAtGivesMatch(t: string, c: char)
    requires AnswerAt(t) == Some(c)
    ensures MatchAt(t, |t| - |TrimLeft(t[|Keyword|..], Whitespace)|, c)
  {
    KeywordPrefix(t);
    var tail := t[|Keyword|..];
    var rest := TrimLeft(tail, Whitespace);
    TrimLeftSuffix(tail, Whitespace);
    assert t[|Keyword|..|t| - |rest|] == tail[..|tail| - |rest|];
  }

  lemma MatchGivesAnswerAt(t: string, n: int, c: char)
    requires MatchAt(t, n, c)
    ensures AnswerAt(t) == Some(c)
  {
    KeywordPrefix(t);
    var gap := t[|Keyword|..n];
    assert t[|Keyword|..] == gap + t[n..];
    assert !IsSpace(c);
    TrimLeftPadded(gap, t[n..], Whitespace);
  }

  /** `AnswerAt` captures `c` exactly when a match starts at the front of `t`
      with `c` as its letter. */
  lemma AnswerAtMatch(t: string, c: char)
    ensures AnswerAt(t) == Some(c) <==> exists n :: MatchAt(t, n, c)
  {
    if AnswerAt(t) == Some(c) {
      AnswerAtGivesMatch(t, c);
    }
    if n :| MatchAt(t, n, c) {
      MatchGivesAnswerAt(t, n, c);
    }
  }

  /** No match starts before position `i`. */
  predicate NoMatchBefore(s: string, i: int) {
    forall j :: 0 <= j < i && j <= |s| ==> AnswerAt(s[j..]).None?
  }

  lemma NoMatchBeforeShift(s: string, i: int)
    requires s != [] && 0 <= i
    ensures NoMatchBefore(s, i + 1) <==> AnswerAt(s).None? && NoMatchBefore(s[1..], i)
  {
    assert s[0..] == s;
    assert forall j :: 0 <= j < |s| ==> s[1..][j..] == s[j + 1..];
    if AnswerAt(s).None? && NoMatchBefore(s[1..], i) {
      forall j | 0 <= j < i + 1 && j <= |s| ensures AnswerAt(s[j..]).None? {
        if j > 0 {
          assert s[j..] == s[1..][j - 1..];
        }
      }
    }
  }

  /** `re.search` reports the letter of the leftmost match: `FindAnswer`
      finds `c` exactly when a match with letter `c` starts at some `i` and
      none starts earlier, and finds nothing exactly when no match starts
      anywhere. */
  lemma {:induction false} FindAnswerLeftmost(s: string, c: char)
    ensures FindAnswer(s) == Some(c) <==>
              exists i :: 0 <= i < |s| && AnswerAt(s[i..]) == Some(c) && NoMatchBefore(s, i)
    ensures FindAnswer(s).None? <==> NoMatchBefore(s, |s|)
    decreases |s|
  {
    if s == [] {
    } else {
      FindAnswerLeftmost(s[1..], c);
      assert s[0..] == s;
      assert NoMatchBefore(s, 0);
      NoMatchBeforeShift(s, |s| - 1);
      if AnswerAt(s).None? {
        if i :| 0 <= i < |s[1..]| && AnswerAt(s[1..][i..]) == Some(c) && NoMatchBefore(s[1..], i) {
          NoMatchBeforeShift(s, i);
          assert s[i + 1..] == s[1..][i..];
        }
        if i :| 0 <= i < |s| && AnswerAt(s[i..]) == Some(c) && NoMatchBefore(s, i) {
          assert i > 0;
          NoMatchBeforeShift(s, i - 1);
          assert s[1..][i - 1..] == s[i..];
        }
      }
    }
  }

  /** A line holding `Answer:` in any letter case, any whitespace, then a
      letter in either case, after text in which no match starts and before
      anything at all, yields that letter. */
  lemma AnswerLineAccepted(pre: string, keyword: string, gap: string, letter: char, post: string)
    requires |keyword| == |Keyword| && Lower(keyword) == Keyword
    requires IsBlank(gap) && IsAnswerLetter(letter)
    requires NoMatchBefore(pre + keyword + gap + [letter] + post, |pre|)
    ensures FindAnswer(pre + keyword + gap + [letter] + post) == Some(letter)
  {
    var s := pre + keyword + gap + [letter] + post;
    var t := s[|pre|..];
    assert t == keyword + gap + [letter] + post;
    assert t[..|Keyword|] == keyword && t[|Keyword|..|Keyword| + |gap|] == gap;
    assert MatchAt(t, |Keyword| + |gap|, letter);
    AnswerAtMatch(t, letter);
    FindAnswerLeftmost(s, letter);
  }

  /** No match can start inside text without an `a` or `A`, so for instance
      `Correct answer: b.` yields `b`. */
  lemma AnswerAfterPlainText(pre: string, keyword: string, gap: string, letter: char, post: string)
    requires |keyword| == |Keyword| && Lower(keyword) == Keyword
    requires IsBlank(gap) && IsAnswerLetter(letter)
    requires forall j :: 0 <= j < |pre| ==> LowerChar(pre[j]) != 'a'
    ensures FindAnswer(pre + keyword + gap + [letter] + post) == Some(letter)
  {
    var s := pre + keyword + gap + [letter] + post;
    forall j | 0 <= j < |pre| && j <= |s| ensures AnswerAt(s[j..]).None? {
      assert s[j..][0] == pre[j];
    }
    AnswerLineAccepted(pre, keyword, gap, letter, post);
  }

  /** A lower-case answer letter is stored upper-cased. */
  lemma LowercaseAnswerUppercased(block: string)
    requires ParseBlock(block).Some?
    ensures var lines := BlockLines(block);
            var c := FindAnswer(Strip(lines[|lines| - 1])).value;
            ParseBlock(block).value.answer == UpperChar(c)
            && ('a' <= c <= 'd' ==> ParseBlock(block).value.answer as int == c as int - 32)
  {
    BlockAcceptance(block);
  }

}
