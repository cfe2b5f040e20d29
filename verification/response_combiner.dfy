/**
  The pure string helpers of the dual-pass composer (chains/response_combiner.py): joining the
  factual and engagement replies, pulling follow-up questions out of a reply, and laying out a
  professional reply with an enumerated question list.
 */
module ResponseCombiner {
  import opened Text

  // ---------------------------------------------------------------------------
  // combine_responses

  /** The factual reply, a blank line, the engagement reply; whitespace trimmed at both ends. */
  function CombineResponses(factual: string, engagement: string): (r: string)
    ensures IsTrimmed(r)
    ensures |r| <= |factual| + 2 + |engagement|
  {
    Strip(factual + "\n\n" + engagement)
  }

  /** Two non-empty trimmed replies are kept verbatim, separated by one blank line. */
  lemma CombineTrimmedReplies(factual: string, engagement: string)
    requires factual != "" && engagement != ""
    requires IsTrimmed(factual) && IsTrimmed(engagement)
    ensures CombineResponses(factual, engagement) == factual + "\n\n" + engagement
  {
    var whole := factual + "\n\n" + engagement;
    assert whole[0] == factual[0] && whole[|whole| - 1] == engagement[|engagement| - 1];
    assert "" + whole + "" == whole;
    StripUnique("", whole, "");
  }

  /** With no factual reply the result is the stripped engagement reply. */
  lemma CombineWithoutFactual(engagement: string)
    ensures CombineResponses("", engagement) == Strip(engagement)
  {
    assert "" + "\n\n" + engagement == "\n\n" + engagement;
    StripIgnoresLeadingSpace("\n\n", engagement);
  }

  /** With no engagement reply the result is the stripped factual reply. */
  lemma CombineWithoutEngagement(factual: string)
    ensures CombineResponses(factual, "") == Strip(factual)
  {
    assert factual + "\n\n" + "" == factual + "\n\n";
    StripIgnoresTrailingSpace(factual, "\n\n");
  }

  // ---------------------------------------------------------------------------
  // extract_follow_up_questions

  /** `a` is `b` with some elements left out, order kept. */
  predicate SubsequenceOf(a: seq<string>, b: seq<string>)
    decreases |b|
  {
    |a| == 0 || (|b| > 0 && ((a[0] == b[0] && SubsequenceOf(a[1..], b[1..])) || SubsequenceOf(a, b[1..])))
  }

  /** Each fragment stripped, in order. */
  function StripAll(fragments: seq<string>): (r: seq<string>)
    ensures |r| == |fragments|
  {
    if |fragments| == 0 then [] else [Strip(fragments[0])] + StripAll(fragments[1..])
  }

  /** The i-th stripped fragment is the i-th fragment stripped. */
  lemma {:induction false} StripAllAt(fragments: seq<string>, i: nat)
    requires i < |fragments|
    ensures StripAll(fragments)[i] == Strip(fragments[i])
    decreases i
  {
    if i > 0 {
      StripAllAt(fragments[1..], i - 1);
      assert fragments[1..][i - 1] == fragments[i];
    }
  }

  /** `q.endswith('?')`. */
  predicate IsQuestion(q: string) {
    |q| > 0 && q[|q| - 1] == '?'
  }

  /** The pieces that end with '?', in order. */
  function KeepQuestions(pieces: seq<string>): (qs: seq<string>)
    ensures |qs| <= |pieces|
  {
    if |pieces| == 0 then []
    else if IsQuestion(pieces[0]) then [pieces[0]] + KeepQuestions(pieces[1..])
    else KeepQuestions(pieces[1..])
  }

  /** A piece is kept exactly when it ends with '?'. */
  lemma {:induction false} KeptMembers(pieces: seq<string>, q: string)
    ensures q in KeepQuestions(pieces) <==> q in pieces && IsQuestion(q)
    decreases |pieces|
  {
    if |pieces| > 0 {
      KeptMembers(pieces[1..], q);
      ConcatShape([pieces[0]], pieces[1..]);
    }
  }

  /** The kept pieces keep their order. */
  lemma {:induction false} KeptInOrder(pieces: seq<string>)
    ensures SubsequenceOf(KeepQuestions(pieces), pieces)
    decreases |pieces|
  {
    if |pieces| > 0 {
      KeptInOrder(pieces[1..]);
      var rest := KeepQuestions(pieces[1..]);
      if IsQuestion(pieces[0]) {
        ConcatShape([pieces[0]], rest);
      } else if |rest| > 0 {
        assert SubsequenceOf(rest, pieces[1..]);
      }
    }
  }

  /** As many pieces are kept as there are positions, from `lo` on, holding a question. */
  lemma {:induction false} KeptCount(pieces: seq<string>, lo: nat)
    requires lo <= |pieces|
    ensures |KeepQuestions(pieces[lo..])| == |set j | lo <= j < |pieces| && IsQuestion(pieces[j])|
    decreases |pieces| - lo
  {
    var here := set j | lo <= j < |pieces| && IsQuestion(pieces[j]);
    if lo == |pieces| {
      assert here == {};
    } else {
      KeptCount(pieces, lo + 1);
      var later := set j | lo + 1 <= j < |pieces| && IsQuestion(pieces[j]);
      assert pieces[lo..][0] == pieces[lo] && pieces[lo..][1..] == pieces[lo + 1..];
      if IsQuestion(pieces[lo]) {
        assert here == {lo} + later;
        assert lo !in later;
      } else {
        assert here == later;
      }
    }
  }

  /** The loop of extract_follow_up_questions over the fragments: keep each stripped fragment
      that ends with '?'. */
  function Questions(fragments: seq<string>): (qs: seq<string>)
    ensures |qs| <= |fragments|
  {
    KeepQuestions(StripAll(fragments))
  }

  /** Some fragment strips to `q`, and `q` ends with '?'. */
  predicate IsQuestionPiece(fragments: seq<string>, q: string) {
    q in StripAll(fragments) && IsQuestion(q)
  }

  /** A string is an extracted question exactly when some fragment strips to it and it ends with '?'. */
  lemma QuestionsMembers(fragments: seq<string>, q: string)
    ensures q in Questions(fragments) <==> IsQuestionPiece(fragments, q)
  {
    KeptMembers(StripAll(fragments), q);
  }

  /** The extracted questions keep the order of the fragments they come from. */
  lemma QuestionsInOrder(fragments: seq<string>)
    ensures SubsequenceOf(Questions(fragments), StripAll(fragments))
  {
    KeptInOrder(StripAll(fragments));
  }

  /** Every extracted question is some fragment stripped. */
  lemma QuestionIsStrippedFragment(fragments: seq<string>, q: string)
    requires q in Questions(fragments)
    ensures IsQuestion(q) && exists j :: 0 <= j < |fragments| && q == Strip(fragments[j])
  {
    KeptMembers(StripAll(fragments), q);
    var j :| 0 <= j < |StripAll(fragments)| && StripAll(fragments)[j] == q;
    StripAllAt(fragments, j);
  }

  /** Every extracted question is trimmed and ends with '?'. */
  lemma QuestionsAreTrimmed(fragments: seq<string>)
    ensures forall i :: 0 <= i < |Questions(fragments)| ==>
      IsQuestion(Questions(fragments)[i]) && IsTrimmed(Questions(fragments)[i])
  {
    forall i | 0 <= i < |Questions(fragments)|
      ensures IsQuestion(Questions(fragments)[i]) && IsTrimmed(Questions(fragments)[i])
    {
      QuestionIsStrippedFragment(fragments, Questions(fragments)[i]);
    }
  }

  /** extract_follow_up_questions: the text is cut at every '.', each piece stripped, and the
      pieces ending in '?' kept. A question followed by more text before the next '.' is not
      found, because its piece does not end in '?'. */
  function ExtractFollowUpQuestions(response: string): (qs: seq<string>)
    ensures forall i :: 0 <= i < |qs| ==> IsQuestion(qs[i]) && IsTrimmed(qs[i]) && '.' !in qs[i]
    ensures |qs| <= Count(response, '.') + 1
  {
    var fragments := Split(response, '.');
    QuestionsAvoid(fragments, '.');
    QuestionsAreTrimmed(fragments);
    Questions(fragments)
  }

  /** A character no fragment holds is in no extracted question. */
  lemma QuestionsAvoid(fragments: seq<string>, c: char)
    requires forall i :: 0 <= i < |fragments| ==> c !in fragments[i]
    ensures forall i :: 0 <= i < |Questions(fragments)| ==> c !in Questions(fragments)[i]
  {
    forall i | 0 <= i < |Questions(fragments)|
      ensures c !in Questions(fragments)[i]
    {
      var q := Questions(fragments)[i];
      QuestionIsStrippedFragment(fragments, q);
      var j :| 0 <= j < |fragments| && q == Strip(fragments[j]);
      StripKeepsAbsent(fragments[j], c);
    }
  }

  /** Which questions are found, and in what order: exactly the stripped '.'-pieces that end
      with '?', in the order of the pieces, one for every such piece. */
  lemma ExtractedQuestionsAreEndingPieces(response: string, q: string)
    ensures q in ExtractFollowUpQuestions(response) <==> IsQuestionPiece(Split(response, '.'), q)
    ensures SubsequenceOf(ExtractFollowUpQuestions(response), StripAll(Split(response, '.')))
    ensures |ExtractFollowUpQuestions(response)|
      == |set j | 0 <= j < |Split(response, '.')| && IsQuestion(Strip(Split(response, '.')[j]))|
  {
    var fragments := Split(response, '.');
    assert ExtractFollowUpQuestions(response) == Questions(fragments);
    QuestionsMembers(fragments, q);
    QuestionsInOrder(fragments);
    QuestionsCount(fragments);
  }

  /** One question for every fragment that strips to a question. */
  lemma QuestionsCount(fragments: seq<string>)
    ensures |Questions(fragments)| == |set j | 0 <= j < |fragments| && IsQuestion(Strip(fragments[j]))|
  {
    var pieces := StripAll(fragments);
    KeptCount(pieces, 0);
    assert pieces[0..] == pieces;
    var byPiece := set j | 0 <= j < |pieces| && IsQuestion(pieces[j]);
    var byFragment := set j | 0 <= j < |fragments| && IsQuestion(Strip(fragments[j]));
    forall j | 0 <= j < |pieces|
      ensures j in byPiece <==> j in byFragment
    {
      StripAllAt(fragments, j);
    }
    assert byPiece == byFragment;
  }

  lemma QuestionsCons(x: string, rest: seq<string>)
    ensures Questions([x] + rest) == (if IsQuestion(Strip(x)) then [Strip(x)] else []) + Questions(rest)
  {
    var all := StripAll([x] + rest);
    assert all == [Strip(x)] + StripAll(rest);
    ConcatShape([Strip(x)], StripAll(rest));
  }

  lemma SplitTwoDots(a: string, b: string)
    requires '.' !in a && '.' !in b
    ensures Split(a + "." + b + ".", '.') == [a, b, ""]
  {
    var parts := [a, b, ""];
    assert parts[1..] == [b, ""];
    assert [b, ""][1..] == [""];
    assert Join([""], ".") == "";
    assert Join([b, ""], ".") == b + "." + "";
    assert Join(parts, ".") == a + "." + (b + "." + "");
    assert a + "." + (b + "." + "") == a + "." + b + ".";
    SplitJoin(parts, '.');
  }

  /** Two '.'-terminated sentences whose pieces do not end in '?' give no questions, even when
      a '?' sits inside a piece. */
  lemma TwoStatementsGiveNoQuestions(a: string, b: string)
    requires '.' !in a && '.' !in b
    requires !IsQuestion(Strip(a)) && !IsQuestion(Strip(b))
    ensures ExtractFollowUpQuestions(a + "." + b + ".") == []
  {
    var r := a + "." + b + ".";
    SplitTwoDots(a, b);
    NoQuestionInEmpty();
    QuestionsCons(b, [""]);
    QuestionsCons(a, [b, ""]);
    ExtractIsQuestionsOfSplit(r);
  }

  lemma NoQuestionInEmpty()
    ensures Questions([""]) == []
  {
    QuestionsCons("", []);
  }

  lemma ExtractIsQuestionsOfSplit(response: string)
    ensures ExtractFollowUpQuestions(response) == Questions(Split(response, '.'))
  {
  }

  /** The question in "Hello there. How are you? I am fine." is missed: its piece is
      " How are you? I am fine", which does not end in '?'. */
  lemma QuestionBeforeMoreTextIsMissed(response: string)
    requires response == "Hello there" + "." + " How are you? I am fine" + "."
    ensures ExtractFollowUpQuestions(response) == []
  {
    var a, b := "Hello there", " How are you? I am fine";
    PlainSentence(a);
    TrimmedStripsToItself(a);
    SpacedStatement(b);
    OneLeadingSpace(b);
    TwoStatementsGiveNoQuestions(a, b);
  }

  /** A trimmed piece strips to itself. */
  lemma TrimmedStripsToItself(m: string)
    requires IsTrimmed(m)
    ensures Strip(m) == m
  {
    StripUnique("", m, "");
    assert "" + m + "" == m;
  }

  /** A piece that is one space and then trimmed text strips to that text. */
  lemma OneLeadingSpace(b: string)
    requires |b| > 0 && b[0] == ' ' && IsTrimmed(b[1..])
    ensures Strip(b) == b[1..]
  {
    StripUnique(" ", b[1..], "");
    assert " " + b[1..] + "" == b;
  }

  /** The first sentence of the examples is a trimmed statement without a '.'. */
  lemma PlainSentence(a: string)
    requires a == "Hello there"
    ensures IsTrimmed(a) && '.' !in a && !IsQuestion(a)
  {
  }

  /** The second piece of the first example is a space, then a trimmed statement without a '.'. */
  lemma SpacedStatement(b: string)
    requires b == " How are you? I am fine"
    ensures '.' !in b && b[0] == ' ' && IsTrimmed(b[1..]) && !IsQuestion(b[1..])
  {
  }

  /** A sentence followed by a piece ending in '?' gives exactly that question, trimmed. */
  lemma StatementThenQuestion(a: string, b: string)
    requires '.' !in a && '.' !in b
    requires !IsQuestion(Strip(a)) && IsQuestion(Strip(b))
    ensures ExtractFollowUpQuestions(a + "." + b) == [Strip(b)]
  {
    SplitOneDot(a, b);
    ExtractIsQuestionsOfSplit(a + "." + b);
    OneQuestion(b);
    QuestionsCons(a, [b]);
  }

  lemma SplitOneDot(a: string, b: string)
    requires '.' !in a && '.' !in b
    ensures Split(a + "." + b, '.') == [a, b]
  {
    var parts := [a, b];
    assert parts[1..] == [b];
    assert Join(parts, ".") == a + "." + b;
    SplitJoin(parts, '.');
  }

  lemma OneQuestion(b: string)
    requires IsQuestion(Strip(b))
    ensures Questions([b]) == [Strip(b)]
  {
    var p := StripAll([b]);
    assert p == [Strip(b)];
    assert p[1..] == [];
  }

  /** A question that ends its piece is found, trimmed. */
  lemma QuestionAtEndIsFound(response: string)
    requires response == "Hello there" + "." + " How are you?"
    ensures ExtractFollowUpQuestions(response) == ["How are you?"]
  {
    var a, b := "Hello there", " How are you?";
    PlainSentence(a);
    TrimmedStripsToItself(a);
    SpacedQuestion(b);
    OneLeadingSpace(b);
    StatementThenQuestion(a, b);
  }

  /** The second piece of the second example is a space, then a question without a '.'. */
  lemma SpacedQuestion(b: string)
    requires b == " How are you?"
    ensures '.' !in b && b[0] == ' ' && IsTrimmed(b[1..]) && IsQuestion(b[1..]) && b[1..] == "How are you?"
  {
  }

  // ---------------------------------------------------------------------------
  // format_professional_response

  const QuestionsHeader := "**Some questions to consider:**"

  /** `f"{i}. {question}"` for each question, numbered from `first` in order. */
  function NumberedQuestions(questions: seq<string>, first: nat): (items: seq<string>)
    ensures |items| == |questions|
    ensures forall i :: 0 <= i < |questions| ==> items[i] == NatToString(first + i) + ". " + questions[i]
  {
    if |questions| == 0 then []
    else [NatToString(first) + ". " + questions[0]] + NumberedQuestions(questions[1..], first + 1)
  }

  /** The `response_parts` list: the factual text, the empathy text behind a newline when it is
      non-empty, and the header and numbered questions when there are any. */
  function ResponseParts(factual: string, empathy: string, followUps: seq<string>): seq<string> {
    [factual]
    + (if empathy != "" then ["\n" + empathy] else [])
    + (if |followUps| > 0 then ["\n" + QuestionsHeader] + NumberedQuestions(followUps, 1) else [])
  }

  lemma {:induction false} JoinStartsWithFirst(parts: seq<string>, sep: string)
    requires |parts| > 0
    ensures StartsWith(Join(parts, sep), parts[0])
  {
  }

  /** format_professional_response: the parts joined by newlines. The reply always opens with
      the factual text, and is exactly the factual text when there is nothing to add. */
  function FormatProfessionalResponse(factual: string, empathy: string, followUps: seq<string>): (r: string)
    ensures StartsWith(r, factual)
    ensures empathy == "" && |followUps| == 0 ==> r == factual
  {
    var parts := ResponseParts(factual, empathy, followUps);
    JoinStartsWithFirst(parts, "\n");
    Join(parts, "\n")
  }

  /** The parts list for any heading and items, before the heading is fixed. */
  function PartsWith(factual: string, empathy: string, heading: string, items: seq<string>): seq<string> {
    [factual]
    + (if empathy != "" then ["\n" + empathy] else [])
    + (if |items| > 0 then ["\n" + heading] + items else [])
  }

  lemma ResponsePartsWith(factual: string, empathy: string, followUps: seq<string>)
    ensures ResponseParts(factual, empathy, followUps)
      == PartsWith(factual, empathy, QuestionsHeader, NumberedQuestions(followUps, 1))
  {
  }

  /** The factual text and the optional empathy part, joined. */
  lemma JoinFront(factual: string, empathy: string)
    ensures Join([factual] + (if empathy != "" then ["\n" + empathy] else []), "\n")
      == factual + (if empathy != "" then "\n\n" + empathy else "")
  {
    if empathy != "" {
      JoinCons(factual, ["\n" + empathy], "\n");
      assert Join(["\n" + empathy], "\n") == "\n" + empathy;
      assert factual + "\n" + ("\n" + empathy) == factual + "\n\n" + empathy;
    } else {
      assert [factual] + [] == [factual];
    }
  }

  /** The heading block, joined. */
  lemma JoinHeaded(heading: string, items: seq<string>)
    requires |items| > 0
    ensures Join(["\n" + heading] + items, "\n") == "\n" + heading + "\n" + Join(items, "\n")
  {
    JoinCons("\n" + heading, items, "\n");
  }

  lemma Regroup(x: string, h: string, r: string)
    ensures x + "\n" + ("\n" + h + "\n" + r) == x + ("\n\n" + h + "\n" + r)
  {
    assert "\n" + h + "\n" + r == "\n" + (h + "\n" + r);
    assert "\n\n" + h + "\n" + r == "\n\n" + (h + "\n" + r);
    assert x + "\n" + ("\n" + (h + "\n" + r)) == x + ("\n\n" + (h + "\n" + r));
  }

  lemma JoinPartsWith(factual: string, empathy: string, heading: string, items: seq<string>)
    ensures Join(PartsWith(factual, empathy, heading, items), "\n") ==
      factual
      + (if empathy != "" then "\n\n" + empathy else "")
      + (if |items| > 0 then "\n\n" + heading + "\n" + Join(items, "\n") else "")
  {
    var front := [factual] + (if empathy != "" then ["\n" + empathy] else []);
    var frontText := factual + (if empathy != "" then "\n\n" + empathy else "");
    JoinFront(factual, empathy);
    if |items| > 0 {
      var q := ["\n" + heading] + items;
      var rest := Join(items, "\n");
      assert PartsWith(factual, empathy, heading, items) == front + q;
      JoinAppend(front, q, "\n");
      JoinHeaded(heading, items);
      Regroup(frontText, heading, rest);
    } else {
      assert PartsWith(factual, empathy, heading, items) == front;
      assert frontText + "" == frontText;
    }
  }

  /** The reply written out for any replies and questions: the factual text; a blank line and
      the empathy text when there is any; a blank line, the header, a line break and the
      numbered questions joined by line breaks when there are any. */
  lemma FormatProfessionalText(factual: string, empathy: string, followUps: seq<string>)
    ensures FormatProfessionalResponse(factual, empathy, followUps) ==
      factual
      + (if empathy != "" then "\n\n" + empathy else "")
      + (if |followUps| > 0 then "\n\n" + QuestionsHeader + "\n" + Join(NumberedQuestions(followUps, 1), "\n") else "")
  {
    ResponsePartsWith(factual, empathy, followUps);
    JoinPartsWith(factual, empathy, QuestionsHeader, NumberedQuestions(followUps, 1));
  }

  /** A line break in front adds one empty line in front. */
  lemma LinesOfNewlinePrefixed(x: string)
    ensures Lines("\n" + x) == [""] + Lines(x)
  {
    assert "\n" + x == "" + ['\n'] + x;
    SplitConcat("", x, '\n');
    SplitNoSep("", '\n');
  }

  lemma HeaderIsOneLine()
    ensures '\n' !in QuestionsHeader
  {
  }

  /** The lines of a heading block: an empty line, the heading, then the items' lines. */
  lemma HeadedBlockLines(heading: string, items: seq<string>)
    requires '\n' !in heading
    ensures LinesOfAll(["\n" + heading] + items) == ["", heading] + LinesOfAll(items)
  {
    LinesOfAllAppend(["\n" + heading], items);
    LinesOfNewlinePrefixed(heading);
    SplitNoSep(heading, '\n');
    assert LinesOfAll(["\n" + heading]) == Lines("\n" + heading) + LinesOfAll([]);
  }

  /** The lines of the factual text and the optional empathy part. */
  lemma FrontLines(factual: string, empathy: string)
    ensures LinesOfAll([factual] + (if empathy != "" then ["\n" + empathy] else []))
      == Lines(factual) + (if empathy != "" then [""] + Lines(empathy) else [])
  {
    var e := if empathy != "" then ["\n" + empathy] else [];
    LinesOfAllAppend([factual], e);
    assert LinesOfAll([factual]) == Lines(factual) + LinesOfAll([]);
    if empathy != "" {
      LinesOfNewlinePrefixed(empathy);
      assert LinesOfAll(e) == Lines("\n" + empathy) + LinesOfAll([]);
    }
  }

  lemma PartsWithLines(factual: string, empathy: string, heading: string, items: seq<string>)
    requires '\n' !in heading
    ensures LinesOfAll(PartsWith(factual, empathy, heading, items)) ==
      Lines(factual)
      + (if empathy != "" then [""] + Lines(empathy) else [])
      + (if |items| > 0 then ["", heading] + LinesOfAll(items) else [])
  {
    var front := [factual] + (if empathy != "" then ["\n" + empathy] else []);
    var q := if |items| > 0 then ["\n" + heading] + items else [];
    assert PartsWith(factual, empathy, heading, items) == front + q;
    LinesOfAllAppend(front, q);
    FrontLines(factual, empathy);
    if |items| > 0 {
      HeadedBlockLines(heading, items);
    }
  }

  /** Read line by line, for any replies and questions: the factual text's lines; an empty line
      and the empathy text's lines when there is empathy; an empty line, the header and the
      numbered questions' lines when there are questions. */
  lemma FormatProfessionalLines(factual: string, empathy: string, followUps: seq<string>)
    ensures Lines(FormatProfessionalResponse(factual, empathy, followUps)) ==
      Lines(factual)
      + (if empathy != "" then [""] + Lines(empathy) else [])
      + (if |followUps| > 0 then ["", QuestionsHeader] + LinesOfAll(NumberedQuestions(followUps, 1)) else [])
  {
    LinesOfJoin(ResponseParts(factual, empathy, followUps));
    ResponsePartsWith(factual, empathy, followUps);
    HeaderIsOneLine();
    PartsWithLines(factual, empathy, QuestionsHeader, NumberedQuestions(followUps, 1));
  }

  /** Whenever there are follow-up questions the header is a line of the reply. */
  lemma FollowUpsGiveHeader(factual: string, empathy: string, followUps: seq<string>)
    requires |followUps| > 0
    ensures QuestionsHeader in Lines(FormatProfessionalResponse(factual, empathy, followUps))
  {
    FormatProfessionalLines(factual, empathy, followUps);
    var front := Lines(factual) + (if empathy != "" then [""] + Lines(empathy) else []);
    var block := ["", QuestionsHeader] + LinesOfAll(NumberedQuestions(followUps, 1));
    assert (front + block)[|front| + 1] == QuestionsHeader;
  }

  /** The header line is present exactly when there are follow-up questions, for replies that
      do not themselves hold a line equal to the header. */
  lemma HeaderIffFollowUps(factual: string, empathy: string, followUps: seq<string>)
    requires QuestionsHeader !in Lines(factual) + Lines(empathy)
    ensures QuestionsHeader in Lines(FormatProfessionalResponse(factual, empathy, followUps)) <==> |followUps| > 0
  {
    if |followUps| > 0 {
      FollowUpsGiveHeader(factual, empathy, followUps);
    } else {
      FormatProfessionalLines(factual, empathy, followUps);
      assert QuestionsHeader !in Lines(factual) && QuestionsHeader !in Lines(empathy);
    }
  }
}
