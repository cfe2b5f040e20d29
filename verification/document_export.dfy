/**
  document_export.py: the report text is cut into lines, each line classified as blank, heading
  or body text, runs of body lines grouped into paragraphs, and the result laid out behind a
  fixed title block; and the RTF fallback that wraps the escaped text in a fixed header.
 */
module DocumentExport {
  import opened Text

  // ---------------------------------------------------------------------------
  // Line classification

  /** Number of decimal digits at the start of `s`. */
  function LeadingDigits(s: string): (n: nat)
    ensures n <= |s|
    ensures forall j :: 0 <= j < n ==> IsDigit(s[j])
    ensures n < |s| ==> !IsDigit(s[n])
  {
    if |s| > 0 && IsDigit(s[0]) then
      var n := 1 + LeadingDigits(s[1..]);
      assert forall j :: 1 <= j < n ==> s[j] == s[1..][j - 1];
      n
    else 0
  }

  /** `re.match(r'^\d+\.', line)`, computed: the run of leading digits is non-empty and a '.' follows it. */
  predicate StartsWithNumbering(line: string) {
    var n := LeadingDigits(line);
    0 < n < |line| && line[n] == '.'
  }

  /** What the regular expression `^\d+\.` accepts: some non-empty all-digit prefix followed by '.'. */
  predicate MatchesNumberingPattern(line: string) {
    exists k :: 1 <= k < |line| && AllDigits(line[..k]) && line[k] == '.'
  }

  /** The computed test agrees with the regular expression on every line. */
  lemma NumberingIffPattern(line: string)
    ensures StartsWithNumbering(line) <==> MatchesNumberingPattern(line)
  {
    var n := LeadingDigits(line);
    if StartsWithNumbering(line) {
      assert AllDigits(line[..n]);
    }
    if MatchesNumberingPattern(line) {
      var k :| 1 <= k < |line| && AllDigits(line[..k]) && line[k] == '.';
      assert !IsDigit(line[k]);
    }
  }

  /** The heading test of the parsing loop: upper-case text, a leading '#', a leading number
      with a '.', or a trailing ':' on a line shorter than 100 characters. `and` binds tighter
      than `or`, so the length bound applies to the ':' case only. */
  predicate IsHeadingLine(line: string) {
    IsUpperText(line) || (|line| > 0 && line[0] == '#') || StartsWithNumbering(line)
    || (|line| > 0 && line[|line| - 1] == ':' && |line| < 100)
  }

  /** `line.replace('#', '').strip()`: the heading's text is the line with every '#' removed,
      then stripped. */
  function HeadingText(line: string): (r: string)
    ensures r == Strip(RemoveChar(line, '#'))
    ensures '#' !in r
    ensures IsTrimmed(r)
  {
    var plain := ReplaceAll(line, "#", "");
    ReplaceByNothing(line, '#');
    StripKeepsAbsent(plain, '#');
    Strip(plain)
  }

  /** A line of body text: non-blank, trimmed, not a heading. */
  predicate IsBodyLine(line: string) {
    line != "" && IsTrimmed(line) && !IsHeadingLine(line)
  }

  /** How the loop treats one raw line once it is stripped. */
  datatype LineKind = Blank | Head(line: string) | Body(line: string)

  /** The stripped line is blank, a heading, or body text. */
  function Classify(raw: string): (k: LineKind)
    ensures k.Blank? <==> AllSpace(raw)
    ensures !k.Blank? ==> k.line == Strip(raw) && k.line != ""
    ensures k.Head? <==> !AllSpace(raw) && IsHeadingLine(Strip(raw))
    ensures KindOk(k)
  {
    var line := Strip(raw);
    StripEmptyIffAllSpace(raw);
    if line == "" then Blank else if IsHeadingLine(line) then Head(line) else Body(line)
  }

  /** What a classified line guarantees about its text. */
  predicate KindOk(k: LineKind) {
    match k
    case Blank => true
    case Head(l) => l != "" && IsTrimmed(l) && IsHeadingLine(l)
    case Body(l) => IsBodyLine(l)
  }

  function ClassifyAll(lines: seq<string>): (ks: seq<LineKind>)
    ensures |ks| == |lines|
  {
    MapSeq(Classify, lines)
  }

  function MapSeq<A, B>(f: A -> B, s: seq<A>): (r: seq<B>)
    ensures |r| == |s|
  {
    if |s| == 0 then [] else [f(s[0])] + MapSeq(f, s[1..])
  }

  lemma {:induction false} MapAppend<A, B>(f: A -> B, a: seq<A>, b: seq<A>)
    ensures MapSeq(f, a + b) == MapSeq(f, a) + MapSeq(f, b)
  {
    if |a| == 0 {
      assert a + b == b;
    } else {
      assert (a + b)[1..] == a[1..] + b;
      MapAppend(f, a[1..], b);
    }
  }

  lemma {:induction false} MapAt<A, B>(f: A -> B, s: seq<A>, i: int)
    requires 0 <= i < |s|
    ensures MapSeq(f, s)[i] == f(s[i])
  {
    if i > 0 {
      MapAt(f, s[1..], i - 1);
    }
  }

  lemma ClassifyAllAppend(a: seq<string>, b: seq<string>)
    ensures ClassifyAll(a + b) == ClassifyAll(a) + ClassifyAll(b)
  {
    MapAppend(Classify, a, b);
  }

  lemma ClassifyAllAt(lines: seq<string>, i: int)
    requires 0 <= i < |lines|
    ensures ClassifyAll(lines)[i] == Classify(lines[i])
  {
    MapAt(Classify, lines, i);
  }

  lemma {:induction false} MapAround<A, B>(f: A -> B, a: seq<A>, x: A, b: seq<A>)
    ensures MapSeq(f, a + [x] + b) == MapSeq(f, a) + [f(x)] + MapSeq(f, b)
  {
    MapAppend(f, a + [x], b);
    MapAppend(f, a, [x]);
    assert MapSeq(f, [x]) == [f(x)] + MapSeq(f, [x][1..]);
  }

  /** The kinds of `a`, one line, and `b`. */
  lemma ClassifyAround(a: seq<string>, x: string, b: seq<string>)
    ensures ClassifyAll(a + [x] + b) == ClassifyAll(a) + [Classify(x)] + ClassifyAll(b)
  {
    MapAround(Classify, a, x, b);
  }

  // ---------------------------------------------------------------------------
  // Grouping lines into chunks

  /** One heading line, or a run of body lines that becomes one paragraph. */
  datatype Chunk = HeadingLine(line: string) | BodyLines(lines: seq<string>)

  /** The pending paragraph, if any (`if current_paragraph: ...`). */
  function Flush(current: seq<string>): (r: seq<Chunk>)
    ensures |r| <= 1
    ensures |r| == 1 <==> |current| > 0
  {
    if |current| > 0 then [BodyLines(current)] else []
  }

  /** The parsing loop from some line on, with `current` the body lines collected so far: a blank
      line ends the pending paragraph; a heading line ends it and stands alone; any other line
      joins it. */
  function GroupFrom(kinds: seq<LineKind>, current: seq<string>): seq<Chunk>
    decreases |kinds|
  {
    if |kinds| == 0 then Flush(current)
    else
      match kinds[0]
      case Blank => Flush(current) + GroupFrom(kinds[1..], [])
      case Head(l) => Flush(current) + [HeadingLine(l)] + GroupFrom(kinds[1..], [])
      case Body(l) => GroupFrom(kinds[1..], current + [l])
  }

  function GroupKinds(kinds: seq<LineKind>): seq<Chunk> {
    GroupFrom(kinds, [])
  }

  /** The chunks of a text given as lines. */
  function Group(lines: seq<string>): seq<Chunk> {
    GroupKinds(ClassifyAll(lines))
  }

  /** The stripped lines that are not blank, in order. */
  function NonBlankLines(lines: seq<string>): (r: seq<string>)
    ensures |r| <= |lines|
  {
    if |lines| == 0 then []
    else if Strip(lines[0]) == "" then NonBlankLines(lines[1..])
    else [Strip(lines[0])] + NonBlankLines(lines[1..])
  }

  /** Every kept line is stripped and not empty. */
  lemma {:induction false} NonBlankLinesTrimmed(lines: seq<string>)
    ensures forall i :: 0 <= i < |NonBlankLines(lines)| ==>
      NonBlankLines(lines)[i] != "" && IsTrimmed(NonBlankLines(lines)[i])
  {
    if |lines| > 0 {
      NonBlankLinesTrimmed(lines[1..]);
    }
  }

  /** The texts of the non-blank classified lines, in order. */
  function KindTexts(kinds: seq<LineKind>): seq<string> {
    if |kinds| == 0 then []
    else if kinds[0].Blank? then KindTexts(kinds[1..])
    else [kinds[0].line] + KindTexts(kinds[1..])
  }

  lemma {:induction false} KindTextsOfLines(lines: seq<string>)
    ensures KindTexts(ClassifyAll(lines)) == NonBlankLines(lines)
  {
    if |lines| > 0 {
      var ks := ClassifyAll(lines);
      assert ks[1..] == ClassifyAll(lines[1..]);
      StripEmptyIffAllSpace(lines[0]);
      KindTextsOfLines(lines[1..]);
    }
  }

  /** The lines a chunk sequence holds, in order. */
  function Flatten(chunks: seq<Chunk>): seq<string> {
    if |chunks| == 0 then []
    else
      match chunks[0]
      case HeadingLine(l) => [l] + Flatten(chunks[1..])
      case BodyLines(ls) => ls + Flatten(chunks[1..])
  }

  lemma {:induction false} FlattenAppend(a: seq<Chunk>, b: seq<Chunk>)
    ensures Flatten(a + b) == Flatten(a) + Flatten(b)
  {
    ConcatShape(a, b);
    if |a| > 0 {
      FlattenAppend(a[1..], b);
      FlattenCons(a + b);
      FlattenCons(a);
      ConcatAssoc(ChunkTexts(a[0]), Flatten(a[1..]), Flatten(b));
    }
  }

  /** The lines one chunk holds. */
  function ChunkTexts(c: Chunk): seq<string> {
    match c
    case HeadingLine(l) => [l]
    case BodyLines(ls) => ls
  }

  lemma FlattenCons(chunks: seq<Chunk>)
    requires |chunks| > 0
    ensures Flatten(chunks) == ChunkTexts(chunks[0]) + Flatten(chunks[1..])
  {
  }

  lemma FlattenFlush(current: seq<string>)
    ensures Flatten(Flush(current)) == current
  {
    if |current| > 0 {
      assert [BodyLines(current)][1..] == [];
    }
  }

  lemma {:induction false} FlattenGroupFrom(kinds: seq<LineKind>, current: seq<string>)
    ensures Flatten(GroupFrom(kinds, current)) == current + KindTexts(kinds)
    decreases |kinds|
  {
    if |kinds| == 0 {
      FlattenFlush(current);
      assert current + [] == current;
    } else {
      var rest := kinds[1..];
      GroupFromStep(kinds, 0, current, StepEmitted(kinds[0], current), StepPending(kinds[0], current));
      assert kinds[0..] == kinds && kinds[0 + 1..] == rest;
      FlattenFlush(current);
      match kinds[0]
      case Blank =>
        FlattenGroupFrom(rest, []);
        FlattenAppend(Flush(current), GroupFrom(rest, []));
        assert current + ([] + KindTexts(rest)) == current + KindTexts(rest);
      case Head(l) =>
        FlattenGroupFrom(rest, []);
        FlattenAppend(Flush(current) + [HeadingLine(l)], GroupFrom(rest, []));
        FlattenAppend(Flush(current), [HeadingLine(l)]);
        assert Flatten([HeadingLine(l)]) == [l];
        ConcatAssoc(current, [l], [] + KindTexts(rest));
      case Body(l) =>
        FlattenGroupFrom(rest, current + [l]);
        ConcatAssoc(current, [l], KindTexts(rest));
    }
  }

  /** What the loop emits for one classified line. */
  function StepEmitted(k: LineKind, current: seq<string>): seq<Chunk> {
    match k
    case Blank => Flush(current)
    case Head(l) => Flush(current) + [HeadingLine(l)]
    case Body(_) => []
  }

  /** The pending paragraph the loop keeps after one classified line. */
  function StepPending(k: LineKind, current: seq<string>): seq<string> {
    match k
    case Blank => []
    case Head(_) => []
    case Body(l) => current + [l]
  }

  /** Every non-blank line appears exactly once, stripped, and in its original order, either as a
      heading or inside a paragraph. */
  lemma LinesKeptInOrder(lines: seq<string>)
    ensures Flatten(Group(lines)) == NonBlankLines(lines)
  {
    FlattenGroupFrom(ClassifyAll(lines), []);
    KindTextsOfLines(lines);
    assert [] + NonBlankLines(lines) == NonBlankLines(lines);
  }

  /** Headings are non-blank trimmed heading lines; paragraphs are non-empty runs of body lines. */
  predicate WellFormed(c: Chunk) {
    match c
    case HeadingLine(l) => l != "" && IsTrimmed(l) && IsHeadingLine(l)
    case BodyLines(ls) => |ls| > 0 && forall i :: 0 <= i < |ls| ==> IsBodyLine(ls[i])
  }

  lemma {:induction false} GroupFromWellFormed(kinds: seq<LineKind>, current: seq<string>)
    requires forall i :: 0 <= i < |kinds| ==> KindOk(kinds[i])
    requires forall i :: 0 <= i < |current| ==> IsBodyLine(current[i])
    ensures forall i :: 0 <= i < |GroupFrom(kinds, current)| ==> WellFormed(GroupFrom(kinds, current)[i])
    decreases |kinds|
  {
    if |kinds| > 0 {
      assert KindOk(kinds[0]);
      match kinds[0]
      case Blank =>
        GroupFromWellFormed(kinds[1..], []);
      case Head(l) =>
        GroupFromWellFormed(kinds[1..], []);
      case Body(l) =>
        GroupFromWellFormed(kinds[1..], current + [l]);
    }
  }

  /** Every chunk is well formed: no empty paragraph, no body line inside a paragraph that would
      have been a heading. */
  lemma GroupWellFormed(lines: seq<string>)
    ensures forall i :: 0 <= i < |Group(lines)| ==> WellFormed(Group(lines)[i])
  {
    ClassifyAllOk(lines);
    GroupFromWellFormed(ClassifyAll(lines), []);
  }

  lemma ClassifyAllOk(lines: seq<string>)
    ensures forall i :: 0 <= i < |lines| ==> KindOk(ClassifyAll(lines)[i])
  {
    forall i | 0 <= i < |lines|
      ensures KindOk(ClassifyAll(lines)[i])
    {
      ClassifyAllAt(lines, i);
    }
  }

  /** A chunk boundary (a blank or a heading line) cuts the grouping in two. */
  lemma {:induction false} GroupFromCut(a: seq<LineKind>, k: LineKind, b: seq<LineKind>, current: seq<string>)
    requires !k.Body?
    ensures GroupFrom(a + [k] + b, current) ==
      GroupFrom(a, current) + (if k.Head? then [HeadingLine(k.line)] else []) + GroupKinds(b)
    decreases |a|
  {
    AroundShape(a, k, b);
    var h: seq<Chunk> := if k.Head? then [HeadingLine(k.line)] else [];
    if |a| > 0 {
      match a[0]
      case Blank =>
        GroupFromCut(a[1..], k, b, []);
        ConcatAssoc(Flush(current), GroupFrom(a[1..], []) + h, GroupKinds(b));
        ConcatAssoc(Flush(current), GroupFrom(a[1..], []), h);
      case Head(l) =>
        GroupFromCut(a[1..], k, b, []);
        ConcatAssoc(Flush(current) + [HeadingLine(l)], GroupFrom(a[1..], []) + h, GroupKinds(b));
        ConcatAssoc(Flush(current) + [HeadingLine(l)], GroupFrom(a[1..], []), h);
      case Body(l) =>
        GroupFromCut(a[1..], k, b, current + [l]);
    }
  }

  /** A blank line cuts the text into two independently grouped halves. */
  lemma BlankLineSplits(a: seq<string>, blank: string, b: seq<string>)
    requires AllSpace(blank)
    ensures Group(a + [blank] + b) == Group(a) + Group(b)
  {
    ClassifyAround(a, blank, b);
    GroupFromCut(ClassifyAll(a), Blank, ClassifyAll(b), []);
  }

  /** A heading line cuts the text too, and stands as its own chunk between the halves. */
  lemma HeadingLineSplits(a: seq<string>, h: string, b: seq<string>)
    requires !AllSpace(h) && IsHeadingLine(Strip(h))
    ensures Group(a + [h] + b) == Group(a) + [HeadingLine(Strip(h))] + Group(b)
  {
    ClassifyAround(a, h, b);
    GroupFromCut(ClassifyAll(a), Classify(h), ClassifyAll(b), []);
  }

  /** Body lines in a row extend the pending paragraph into one chunk. */
  lemma {:induction false} GroupFromBodyRun(kinds: seq<LineKind>, current: seq<string>)
    requires forall i :: 0 <= i < |kinds| ==> kinds[i].Body?
    requires |current| + |kinds| > 0
    ensures GroupFrom(kinds, current) == [BodyLines(current + KindTexts(kinds))]
    decreases |kinds|
  {
    if |kinds| == 0 {
      assert current + [] == current;
    } else {
      var l := kinds[0].line;
      GroupFromBodyRun(kinds[1..], current + [l]);
      assert current + [l] + KindTexts(kinds[1..]) == current + KindTexts(kinds);
    }
  }

  /** Body lines with no blank line or heading between them make one paragraph of their texts. */
  lemma BodyRunIsOneParagraph(kinds: seq<LineKind>)
    requires |kinds| > 0
    requires forall i :: 0 <= i < |kinds| ==> kinds[i].Body?
    ensures GroupKinds(kinds) == [BodyLines(KindTexts(kinds))]
  {
    GroupFromBodyRun(kinds, []);
    assert [] + KindTexts(kinds) == KindTexts(kinds);
  }

  // ---------------------------------------------------------------------------
  // Blocks of the Word document

  /** A `doc.add_heading(text, level)` or a `doc.add_paragraph(text)`. */
  datatype Block = Heading(text: string, level: nat) | Paragraph(text: string)

  /** A chunk as the document receives it: a level-1 heading without '#', or the paragraph's
      lines joined by single spaces. */
  function Render(c: Chunk): Block {
    match c
    case HeadingLine(l) => Heading(HeadingText(l), 1)
    case BodyLines(ls) => Paragraph(Join(ls, " "))
  }

  function RenderAll(chunks: seq<Chunk>): (r: seq<Block>)
    ensures |r| == |chunks|
  {
    if |chunks| == 0 then [] else [Render(chunks[0])] + RenderAll(chunks[1..])
  }

  /** No empty paragraph comes from the content: a well-formed run starts with a non-empty line. */
  lemma RenderedParagraphNonEmpty(c: Chunk)
    requires WellFormed(c) && c.BodyLines?
    ensures Render(c).text != ""
  {
    var ls := c.lines;
    if |ls| > 1 {
      assert Join(ls, " ") == ls[0] + " " + Join(ls[1..], " ");
    }
  }

  const DocumentTitle := "EHC Assessment Report"

  /** The blocks placed before the content: the title, the child's name, the report id and a
      spacer paragraph. */
  function Preamble(childName: string, reportId: string): seq<Block> {
    [Heading(DocumentTitle, 0), Heading("Child: " + childName, 2), Paragraph("Report ID: " + reportId), Paragraph("")]
  }

  /** The parsing loop of create_word_document, over the classified lines of the report text:
      one pass with a pending paragraph, emitting a chunk wherever the source adds a paragraph or
      a heading to the document. It computes the grouping. */
  method GroupLines(lines: seq<string>) returns (chunks: seq<Chunk>)
    ensures chunks == Group(lines)
  {
    var kinds := ClassifyAll(lines);
    chunks := [];
    var current: seq<string> := [];
    var i := 0;
    while i < |lines|
      invariant 0 <= i <= |lines|
      invariant chunks + GroupFrom(kinds[i..], current) == Group(lines)
    {
      var emitted: seq<Chunk> := [];
      var pending := current;
      match kinds[i] {
        case Blank =>
          if |current| > 0 {
            emitted := [BodyLines(current)];
            pending := [];
          }
        case Head(line) =>
          if |current| > 0 {
            emitted := [BodyLines(current)];
            pending := [];
          }
          emitted := emitted + [HeadingLine(line)];
        case Body(line) =>
          pending := current + [line];
      }
      GroupFromStep(kinds, i, current, emitted, pending);
      ConcatAssoc(chunks, emitted, GroupFrom(kinds[i + 1..], pending));
      chunks := chunks + emitted;
      current := pending;
      i := i + 1;
    }
    assert kinds[i..] == [];
    if |current| > 0 {
      chunks := chunks + [BodyLines(current)];
    }
  }

  /** One line of the loop: what it emits, and the pending paragraph it leaves. */
  lemma GroupFromStep(kinds: seq<LineKind>, i: int, current: seq<string>, emitted: seq<Chunk>, pending: seq<string>)
    requires 0 <= i < |kinds|
    requires kinds[i].Blank? ==> emitted == Flush(current) && pending == []
    requires kinds[i].Head? ==> emitted == Flush(current) + [HeadingLine(kinds[i].line)] && pending == []
    requires kinds[i].Body? ==> emitted == [] && pending == current + [kinds[i].line]
    ensures GroupFrom(kinds[i..], current) == emitted + GroupFrom(kinds[i + 1..], pending)
  {
    assert kinds[i..][0] == kinds[i];
    assert kinds[i..][1..] == kinds[i + 1..];
  }

  /** create_word_document as a block sequence: the preamble, then the content's blocks. */
  method CreateWordDocument(reportContent: string, childName: string, reportId: string) returns (doc: seq<Block>)
    ensures |doc| >= 4 && doc[..4] == Preamble(childName, reportId)
    ensures doc[0] == Heading(DocumentTitle, 0)
    ensures doc[4..] == RenderAll(Group(Lines(reportContent)))
  {
    var chunks := GroupLines(Lines(reportContent));
    var content := RenderAll(chunks);
    doc := Preamble(childName, reportId) + content;
    assert doc[..4] == Preamble(childName, reportId);
    assert doc[4..] == content;
  }

  // ---------------------------------------------------------------------------
  // RTF fallback

  /** The RTF prologue: character set, the font table and the base font size. It contains a line break. */
  const RtfHeader := "{\\rtf1\\ansi\\deff0 {\\fonttbl {\\f0 Times New Roman;}}\n\\f0\\fs24 "
  const RtfFooter := "}"
  /** The title in bold at 14pt, back to plain 12pt, then a blank line. */
  const RtfTitle := "\\b\\fs28 " + DocumentTitle + "\\b0\\fs24" + ParBreak
  const ParBreak := "\\par\\par "
  const LineBreak := "\\par "

  /** Blank lines become double paragraph marks first, then remaining newlines single ones. */
  function RtfEscape(content: string): (r: string)
    ensures '\n' !in r
  {
    var paragraphs := ReplaceAll(content, "\n\n", ParBreak);
    ReplaceRemovesChar(paragraphs, '\n', LineBreak);
    ReplaceAll(paragraphs, "\n", LineBreak)
  }

  /** Everything after the header: bold title, child and id lines, escaped content, closing brace. */
  function RtfBody(reportContent: string, childName: string, reportId: string): string {
    RtfFront(childName, reportId) + RtfEscape(reportContent) + RtfFooter
  }

  function RtfFront(childName: string, reportId: string): string {
    RtfTitle + "Child: " + childName + LineBreak + "Report ID: " + reportId + ParBreak
  }

  /** create_rich_text_document (before its UTF-8 encoding): the fixed header, then the body. */
  function CreateRichTextDocument(reportContent: string, childName: string, reportId: string): (r: string)
    ensures StartsWith(r, RtfHeader)
    ensures |r| > 0 && r[|r| - 1] == '}'
    ensures EndsWith(r, RtfEscape(reportContent) + RtfFooter)
  {
    var tail := RtfEscape(reportContent) + RtfFooter;
    var r := RtfHeader + RtfFront(childName, reportId) + tail;
    assert r[..|RtfHeader|] == RtfHeader;
    assert r[|r| - |tail|..] == tail;
    r
  }

  /** Text without line breaks passes through the escaping unchanged. */
  lemma RtfEscapeSingleLine(content: string)
    requires '\n' !in content
    ensures RtfEscape(content) == content
  {
    ReplaceAbsentPair(content, '\n', ParBreak);
    ReplaceAbsentChar(content, '\n', LineBreak);
  }

  /** A blank line between two lines becomes a double paragraph mark. */
  lemma RtfEscapeBlankLine(x: string, y: string)
    requires '\n' !in x && '\n' !in y
    ensures RtfEscape(x + "\n\n" + y) == x + ParBreak + y
  {
    assert x + "\n\n" + y == x + ("\n\n" + y);
    ReplaceSkipsPrefix(x, "\n\n" + y, "\n\n", ParBreak);
    ReplaceAtStart("\n\n", y, ParBreak);
    ReplaceAbsentPair(y, '\n', ParBreak);
    var paragraphs := x + ParBreak + y;
    assert ReplaceAll(x + "\n\n" + y, "\n\n", ParBreak) == x + (ParBreak + y) == paragraphs;
    assert '\n' !in ParBreak;
    assert '\n' !in paragraphs;
    ReplaceAbsentChar(paragraphs, '\n', LineBreak);
  }

  /** A single line break becomes one paragraph mark. */
  lemma RtfEscapeLineBreak(x: string, y: string)
    requires '\n' !in x && '\n' !in y
    ensures RtfEscape(x + "\n" + y) == x + LineBreak + y
  {
    assert x + "\n" + y == x + ("\n" + y);
    ReplaceSkipsPrefix(x, "\n" + y, "\n\n", ParBreak);
    LoneNewlineKept(y);
    ReplaceSkipsPrefix(x, "\n" + y, "\n", LineBreak);
    ReplaceAtStart("\n", y, LineBreak);
    ReplaceAbsentChar(y, '\n', LineBreak);
  }

  /** Escaping consumes a text line by line: a blank line after a first line becomes a double
      paragraph mark, and the rest is escaped on its own. */
  lemma RtfEscapeParStep(x: string, y: string)
    requires '\n' !in x
    ensures RtfEscape(x + "\n\n" + y) == x + ParBreak + RtfEscape(y)
  {
    var first := ReplaceAll(y, "\n\n", ParBreak);
    assert x + "\n\n" + y == x + ("\n\n" + y);
    ReplaceSkipsPrefix(x, "\n\n" + y, "\n\n", ParBreak);
    ReplaceAtStart("\n\n", y, ParBreak);
    assert ReplaceAll(x + "\n\n" + y, "\n\n", ParBreak) == (x + ParBreak) + first;
    assert '\n' !in x + ParBreak;
    ReplaceSkipsPrefix(x + ParBreak, first, "\n", LineBreak);
  }

  /** A line break not followed by another becomes one paragraph mark, and the rest is escaped
      on its own. */
  lemma RtfEscapeLineStep(x: string, y: string)
    requires '\n' !in x
    requires |y| == 0 || y[0] != '\n'
    ensures RtfEscape(x + "\n" + y) == x + LineBreak + RtfEscape(y)
  {
    var first := ReplaceAll(y, "\n\n", ParBreak);
    assert x + "\n" + y == x + ("\n" + y);
    ReplaceSkipsPrefix(x, "\n" + y, "\n\n", ParBreak);
    ReplaceLoneChar('\n', y, ParBreak);
    assert ReplaceAll(x + "\n" + y, "\n\n", ParBreak) == x + ("\n" + first);
    ReplaceSkipsPrefix(x, "\n" + first, "\n", LineBreak);
    ReplaceAtStart("\n", first, LineBreak);
  }

  /** Three line breaks in a row: the first two make a double paragraph mark, the third a single
      one. */
  lemma RtfEscapeThreeNewlines()
    ensures RtfEscape("\n\n\n") == ParBreak + LineBreak
  {
    RtfEscapeParStep("", "\n");
    RtfEscapeLineStep("", "");
    RtfEscapeSingleLine("");
    assert "" + "\n\n" + "\n" == "\n\n\n";
    assert "" + "\n" + "" == "\n";
  }

  /** A newline not followed by another is left for the second pass. */
  lemma LoneNewlineKept(y: string)
    requires '\n' !in y
    ensures ReplaceAll("\n" + y, "\n\n", ParBreak) == "\n" + y
  {
    var s := "\n" + y;
    if |s| >= 2 {
      assert s[..2][1] == y[0];
      assert s[1..] == y;
      ReplaceAbsentPair(y, '\n', ParBreak);
    }
  }

  /** Apart from the header's own line break, the document is one line when the child's name
      and the report id are. */
  lemma RtfBodyIsOneLine(reportContent: string, childName: string, reportId: string)
    requires '\n' !in childName && '\n' !in reportId
    ensures '\n' !in CreateRichTextDocument(reportContent, childName, reportId)[|RtfHeader|..]
  {
    FrontIsOneLine(childName, reportId);
    var body := RtfBody(reportContent, childName, reportId);
    assert '\n' !in body;
    var r := CreateRichTextDocument(reportContent, childName, reportId);
    assert r == RtfHeader + body;
    assert r[|RtfHeader|..] == body;
  }

  lemma FrontIsOneLine(childName: string, reportId: string)
    requires '\n' !in childName && '\n' !in reportId
    ensures '\n' !in RtfFront(childName, reportId)
  {
    TitleIsOneLine();
    assert '\n' !in ParBreak && '\n' !in LineBreak && '\n' !in "Child: " && '\n' !in "Report ID: ";
  }

  lemma TitleIsOneLine()
    ensures '\n' !in RtfTitle
  {
    assert '\n' !in DocumentTitle && '\n' !in "\\b\\fs28 " && '\n' !in "\\b0\\fs24" && '\n' !in ParBreak;
  }
}
