/**
 * Generator text in the format the quiz prompt shows (`Q<n>.` markers, a
 * question line, four option lines and an `Answer:` line), written without the
 * indentation of the prompt's literal, and the proof that the parser reads
 * such text back as the questions it was written from. An indented copy
 * parses to nothing (`QuizParser.IndentedOrLowercaseOptionRejected`).
 */
module QuizRender {
  import opened Wrappers
  import opened AsciiText
  import opened Seqs
  import opened QuizParser

  /** An option line the parser keeps verbatim. */
  predicate RenderableOption(o: string) {
    IsOptionLine(o) && !IsSpace(o[|o| - 1]) && '\n' !in o && NoMarker(o)
  }

  /** A question that can be written as one block of generator text: one-line
      texts without a `Q<digits>.` marker inside, already stripped. */
  predicate Renderable(q: Question) {
    && q.question != [] && !IsSpace(q.question[0]) && !IsSpace(q.question[|q.question| - 1])
    && '\n' !in q.question && NoMarker(q.question)
    && |q.options| == 4 && (forall k :: 0 <= k < 4 ==> RenderableOption(q.options[k]))
    && 'A' <= q.answer <= 'D'
  }

  function AnswerLine(q: Question): string {
    "Answer: " + [q.answer]
  }

  /** The six lines of a question block. */
  function BlockLineList(q: Question): seq<string>
  {
    [q.question] + q.options + [AnswerLine(q)]
  }

  /** The text that follows a marker: a space, the six lines, a line break. */
  function Block(q: Question): string
  {
    " " + Join(BlockLineList(q), '\n') + "\n"
  }

  /** `Q<n>.` */
  function Marker(n: nat): string {
    "Q" + NatToDecimal(n) + "."
  }

  /** The questions written out one after another, numbered from `n`. */
  function Render(qs: seq<Question>, n: nat): string
  {
    if qs == [] then "" else Marker(n) + Block(qs[0]) + Render(qs[1..], n + 1)
  }

  function Blocks(qs: seq<Question>): seq<string>
  {
    if qs == [] then [] else [Block(qs[0])] + Blocks(qs[1..])
  }

  // ---------------------------------------------------------------------
  // Markers and concatenation
  // ---------------------------------------------------------------------

  /** A character that cannot continue a marker that began earlier. */
  predicate EndsMarkerRun(c: char) {
    !IsDigit(c) && c != '.'
  }

  /** What follows a string matters to a marker at its start only through the
      first following character. */
  lemma MarkerLengthAppend(x: string, y: string)
    requires x != []
    requires y != [] ==> EndsMarkerRun(y[0])
    ensures MarkerLength(x + y) == MarkerLength(x)
  {
    var s := x + y;
    if s[0] == 'Q' || s[0] == 'q' {
      var k := DigitRun(x[1..]);
      assert s[1..] == x[1..] + y;
      if k < |x[1..]| {
        DigitRunPrefix(x[1..], s[1..]);
      } else {
        assert x[1..] <= s[1..];
        DigitRunAtEnd(x[1..], y);
      }
    }
  }

  lemma {:induction false} DigitRunAtEnd(d: string, y: string)
    requires DigitRun(d) == |d|
    requires y != [] ==> !IsDigit(y[0])
    ensures DigitRun(d + y) == |d|
  {
    if d == [] {
      assert d + y == y;
    } else {
      assert (d + y)[1..] == d[1..] + y;
      DigitRunAtEnd(d[1..], y);
    }
  }

  /** Marker-free strings stay marker-free when joined at a character that
      ends any digit run. */
  lemma NoMarkerAppend(x: string, y: string)
    requires NoMarker(x) && NoMarker(y)
    requires y != [] ==> EndsMarkerRun(y[0])
    ensures NoMarker(x + y)
  {
    forall i | 0 <= i < |x + y| ensures MarkerLength((x + y)[i..]) == 0 {
      if i < |x| {
        assert (x + y)[i..] == x[i..] + y;
        MarkerLengthAppend(x[i..], y);
      } else {
        assert (x + y)[i..] == y[i - |x|..];
      }
    }
  }

  /** A string without any `Q` or `q` has no marker. */
  lemma NoMarkerWithoutQ(s: string)
    requires forall i :: 0 <= i < |s| ==> s[i] != 'Q' && s[i] != 'q'
    ensures NoMarker(s)
  {
    forall i | 0 <= i < |s| ensures MarkerLength(s[i..]) == 0 {
      assert s[i..][0] == s[i];
    }
  }

  lemma {:induction false} NoMarkerJoin(pieces: seq<string>)
    requires |pieces| >= 1
    requires forall k :: 0 <= k < |pieces| ==> NoMarker(pieces[k])
    ensures NoMarker(Join(pieces, '\n'))
  {
    if |pieces| > 1 {
      var rest := Join(pieces[1..], '\n');
      NoMarkerJoin(pieces[1..]);
      NoMarkerCons('\n', rest);
      NoMarkerAppend(pieces[0], "\n" + rest);
      assert pieces[0] + ['\n'] + rest == pieces[0] + ("\n" + rest);
    }
  }

  lemma AnswerLineNoMarker(q: Question)
    requires 'A' <= q.answer <= 'D'
    ensures NoMarker(AnswerLine(q))
  {
    var s := AnswerLine(q);
    assert forall i :: 0 <= i < 8 ==> s[i] == "Answer: "[i];
    NoMarkerWithoutQ(s);
  }

  lemma BlockNoMarker(q: Question)
    requires Renderable(q)
    ensures NoMarker(Block(q))
  {
    var lines := BlockLineList(q);
    AnswerLineNoMarker(q);
    assert forall k :: 0 <= k < |lines| ==> NoMarker(lines[k]) by {
      assert forall k :: 1 <= k < 5 ==> lines[k] == q.options[k - 1];
    }
    NoMarkerJoin(lines);
    var text := Join(lines, '\n');
    NoMarkerCons(' ', text);
    NoMarkerWithoutQ("\n");
    NoMarkerAppend(" " + text, "\n");
  }

  /** A marker followed by a line that starts with a space is matched in
      full. */
  lemma MarkerMatched(n: nat, rest: string)
    requires rest != [] && rest[0] == ' '
    ensures MarkerLength(Marker(n) + rest) == |Marker(n)|
  {
    var d := NatToDecimal(n);
    var s := Marker(n) + rest;
    assert s[1..] == d + ("." + rest);
    DigitRunAtEnd(d, "." + rest) by {
      DigitRunAll(d);
    }
    assert s[1 + |d|] == '.';
  }

  lemma {:induction false} DigitRunAll(d: string)
    requires forall i :: 0 <= i < |d| ==> IsDigit(d[i])
    ensures DigitRun(d) == |d|
  {
    if d != [] {
      DigitRunAll(d[1..]);
    }
  }

  /** No marker starts in the first `n` characters of `s`. */
  predicate NoMarkerBefore(s: string, n: nat)
    requires n <= |s|
    decreases n
  {
    n == 0 || (MarkerLength(s) == 0 && NoMarkerBefore(s[1..], n - 1))
  }

  lemma {:induction false} NoMarkerTail(s: string)
    requires s != [] && NoMarker(s)
    ensures MarkerLength(s) == 0 && NoMarker(s[1..])
  {
    assert s[0..] == s;
    forall i | 0 <= i < |s| - 1 ensures MarkerLength(s[1..][i..]) == 0 {
      assert s[1..][i..] == s[i + 1..];
    }
  }

  lemma SplitCons(c: char, t: string)
    requires MarkerLength([c] + t) == 0
    ensures SplitMarkers([c] + t) == [[c] + SplitMarkers(t)[0]] + SplitMarkers(t)[1..]
  {
    assert ([c] + t)[1..] == t;
  }

  /** Splitting text that begins with a marker-free string: that string opens
      the first piece. */
  lemma {:induction false} SplitAfterMarkerFree(x: string, y: string)
    requires NoMarkerBefore(x + y, |x|)
    ensures SplitMarkers(x + y) == [x + SplitMarkers(y)[0]] + SplitMarkers(y)[1..]
  {
    var p := SplitMarkers(y);
    if x == [] {
      assert x + y == y && x + p[0] == p[0];
      assert p == [p[0]] + p[1..];
    } else {
      assert (x + y)[1..] == x[1..] + y;
      SplitAfterMarkerFree(x[1..], y);
      SplitAfterStep(x, y);
    }
  }

  lemma SplitAfterStep(x: string, y: string)
    requires x != [] && MarkerLength(x + y) == 0
    requires SplitMarkers(x[1..] + y) == [x[1..] + SplitMarkers(y)[0]] + SplitMarkers(y)[1..]
    ensures SplitMarkers(x + y) == [x + SplitMarkers(y)[0]] + SplitMarkers(y)[1..]
  {
    var p := SplitMarkers(y);
    var t := x[1..] + y;
    ConsAppend(x, y);
    SplitCons(x[0], t);
    ConsAppend(x, p[0]);
  }

  lemma ConsAppend(x: string, z: string)
    requires x != []
    ensures [x[0]] + (x[1..] + z) == x + z
  {
    assert x == [x[0]] + x[1..];
  }

  lemma MarkerFreeHead(b: string, rest: string)
    requires b != [] && MarkerLength(b) == 0
    requires rest != [] ==> EndsMarkerRun(rest[0])
    ensures MarkerLength(b + rest) == 0 && (b + rest)[1..] == b[1..] + rest
  {
    MarkerLengthAppend(b, rest);
  }

  /** A marker-free string followed by text that cannot extend a marker has
      no marker starting inside it. */
  lemma {:induction false} MarkerFreeThen(b: string, rest: string)
    requires NoMarker(b)
    requires rest != [] ==> EndsMarkerRun(rest[0])
    ensures NoMarkerBefore(b + rest, |b|)
  {
    if b != [] {
      NoMarkerTail(b);
      MarkerFreeHead(b, rest);
      MarkerFreeThen(b[1..], rest);
    }
  }

  /** Rendered text is empty or starts with a marker. */
  lemma RenderStart(qs: seq<Question>, n: nat)
    ensures Render(qs, n) != [] ==> Render(qs, n)[0] == 'Q'
  {
    if qs != [] {
      var b := Block(qs[0]) + Render(qs[1..], n + 1);
      assert Render(qs, n) == Marker(n) + b;
    }
  }

  /** The split of rendered text: an empty piece before the first marker, then
      one block per question. */
  lemma {:induction false} SplitRender(qs: seq<Question>, n: nat)
    requires forall k :: 0 <= k < |qs| ==> Renderable(qs[k])
    ensures SplitMarkers(Render(qs, n)) == [""] + Blocks(qs)
  {
    if qs != [] {
      var rest := Render(qs[1..], n + 1);
      SplitRender(qs[1..], n + 1);
      RenderStart(qs[1..], n + 1);
      SplitRenderStep(qs[0], n, rest, Blocks(qs[1..]));
      assert Render(qs, n) == Marker(n) + (Block(qs[0]) + rest);
    }
  }

  /** One rendered question in front of text that splits as `[""] + tail`. */
  lemma SplitRenderStep(q: Question, n: nat, rest: string, tail: seq<string>)
    requires Renderable(q)
    requires SplitMarkers(rest) == [""] + tail
    requires rest != [] ==> rest[0] == 'Q'
    ensures SplitMarkers(Marker(n) + (Block(q) + rest)) == [""] + ([Block(q)] + tail)
  {
    var b := Block(q);
    var s := Marker(n) + (b + rest);
    MarkerMatched(n, b + rest);
    assert s[|Marker(n)|..] == b + rest;
    BlockNoMarker(q);
    MarkerFreeThen(b, rest);
    SplitAfterMarkerFree(b, rest);
    assert b + "" == b;
  }

  // ---------------------------------------------------------------------
  // One block
  // ---------------------------------------------------------------------

  /** Pieces without the separator come back from a split of their join. */
  lemma {:induction false} SplitJoin(pieces: seq<string>, sep: char)
    requires |pieces| >= 1
    requires forall k :: 0 <= k < |pieces| ==> sep !in pieces[k]
    ensures SplitOn(Join(pieces, sep), sep) == pieces
  {
    if |pieces| == 1 {
      SplitOnNone(pieces[0], sep);
    } else {
      SplitJoin(pieces[1..], sep);
      SplitOnFirst(pieces[0], sep, Join(pieces[1..], sep));
    }
  }

  lemma JoinFirst(pieces: seq<string>, sep: char)
    requires |pieces| >= 1 && pieces[0] != []
    ensures Join(pieces, sep) != [] && Join(pieces, sep)[0] == pieces[0][0]
  {
  }

  lemma {:induction false} JoinLast(pieces: seq<string>, sep: char)
    requires |pieces| >= 1 && pieces[|pieces| - 1] != []
    ensures var j := Join(pieces, sep);
            j != [] && j[|j| - 1] == pieces[|pieces| - 1][|pieces[|pieces| - 1]| - 1]
  {
    if |pieces| > 1 {
      JoinLast(pieces[1..], sep);
    }
  }

  lemma AnswerLineParsed(q: Question)
    requires 'A' <= q.answer <= 'D'
    ensures Strip(AnswerLine(q)) == AnswerLine(q)
    ensures FindAnswer(AnswerLine(q)) == Some(q.answer)
  {
    assert AnswerLine(q) == [] + "Answer:" + " " + [q.answer] + [];
    AnswerAfterPlainText([], "Answer:", " ", q.answer, []);
  }

  lemma AnswerLineNoNewline(q: Question)
    requires 'A' <= q.answer <= 'D'
    ensures '\n' !in AnswerLine(q)
  {
    assert forall i :: 0 <= i < 8 ==> AnswerLine(q)[i] == "Answer: "[i];
  }

  /** The lines of a rendered block are the six lines it was written from. */
  lemma BlockLinesRendered(q: Question)
    requires Renderable(q)
    ensures Strip(Block(q)) == Join(BlockLineList(q), '\n') != []
    ensures BlockLines(Block(q)) == BlockLineList(q)
  {
    var lines := BlockLineList(q);
    assert forall k :: 1 <= k < 5 ==> lines[k] == q.options[k - 1];
    var text := Join(lines, '\n');
    JoinFirst(lines, '\n');
    JoinLast(lines, '\n');
    assert lines[|lines| - 1] == AnswerLine(q);
    StripPadded(" ", text, "\n");
    assert Block(q) == " " + text + "\n";
    AnswerLineNoNewline(q);
    SplitJoin(lines, '\n');
  }

  /** The option lines of a rendered block are kept as written. */
  lemma OptionsRendered(q: Question)
    requires Renderable(q)
    ensures OptionsOf(BlockLineList(q)[1..5]) == q.options
  {
    assert BlockLineList(q)[1..5] == q.options;
    forall k | 0 <= k < 4 ensures Strip(q.options[k]) == q.options[k] {
      StripUnpadded(q.options[k]);
    }
    OptionsCount(q.options);
  }

  /** A rendered block parses back to its question. */
  lemma BlockRoundTrip(q: Question)
    requires Renderable(q)
    ensures ParseBlock(Block(q)) == Some(q)
  {
    var lines := BlockLineList(q);
    BlockLinesRendered(q);
    assert |lines| == 6 && lines[0] == q.question && lines[5] == AnswerLine(q);
    AnswerLineParsed(q);
    StripUnpadded(q.question);
    OptionsRendered(q);
    assert Min(5, |lines|) == 5;
  }

  lemma {:induction false} ParseBlocksRendered(qs: seq<Question>)
    requires forall k :: 0 <= k < |qs| ==> Renderable(qs[k])
    ensures ParseBlocks(Blocks(qs)) == qs
  {
    if qs != [] {
      ParseBlocksRendered(qs[1..]);
      ParseBlocksCons(qs[0], Blocks(qs[1..]));
      assert [qs[0]] + qs[1..] == qs;
    }
  }

  lemma ParseBlocksCons(q: Question, bs: seq<string>)
    requires Renderable(q)
    ensures ParseBlocks([Block(q)] + bs) == [q] + ParseBlocks(bs)
  {
    BlockRoundTrip(q);
    FilterMapAppend(ParseBlock, [Block(q)], bs);
    assert FilterMap(ParseBlock, [Block(q)]) == [q] by {
      assert [Block(q)][..0] == [];
    }
  }

  /** The blocks of rendered text parse back to all the questions, before the
      cut to five. */
  lemma ParseRenderedBlocks(qs: seq<Question>, n: nat)
    requires forall k :: 0 <= k < |qs| ==> Renderable(qs[k])
    ensures ParseBlocks(SplitMarkers(Render(qs, n))) == qs
  {
    var bs := Blocks(qs);
    SplitRender(qs, n);
    FilterMapAppend(ParseBlock, [""], bs);
    EmptyBlockSkipped();
    ParseBlocksRendered(qs);
  }

  /** Round trip: text written in the prompt's format, with any number of
      questions, parses back to those questions, cut to the first five. */
  lemma ParseRender(qs: seq<Question>, n: nat)
    requires forall k :: 0 <= k < |qs| ==> Renderable(qs[k])
    ensures Parse(Render(qs, n)) == qs[..Min(MaxQuestions, |qs|)]
  {
    ParseRenderedBlocks(qs, n);
  }

  lemma EmptyBlockSkipped()
    ensures FilterMap(ParseBlock, [""]) == []
  {
    assert ParseBlock("") == None;
    assert [""][..0] == [];
  }

}
