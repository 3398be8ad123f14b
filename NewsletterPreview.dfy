/** The preview screen: the line-by-line markdown-ish renderer of the
    newsletter text, the email form's send guard and the sources list. */
module NewsletterPreview {
  import opened Types
  import opened Strings
  import GeminiService

  /** A run of text inside a bullet or a paragraph. */
  datatype Span = Plain(text: string) | Bold(text: string)

  /** What one line of the text renders to. */
  datatype Block = H2(text: string) | H3(text: string) | Bullet(spans: seq<Span>) | Paragraph(spans: seq<Span>) | Nothing

  const BoldMarker: string := "**"

  /** `s.split('**')` with every odd-indexed part in bold. */
  function Spans(s: string): (r: seq<Span>)
    ensures |r| == |Split(s, BoldMarker)|
    ensures forall i :: 0 <= i < |r| ==> r[i].text == Split(s, BoldMarker)[i] && (r[i].Bold? <==> i % 2 == 1)
  {
    var parts := Split(s, BoldMarker);
    seq(|parts|, i requires 0 <= i < |parts| => if i % 2 == 1 then Bold(parts[i]) else Plain(parts[i]))
  }

  /** The visible text of a run of spans, bold or not. */
  function Texts(spans: seq<Span>): string {
    if |spans| == 0 then "" else spans[0].text + Texts(spans[1..])
  }

  lemma {:induction false} TextsAreConcat(spans: seq<Span>, parts: seq<string>)
    requires |spans| == |parts|
    requires forall i :: 0 <= i < |spans| ==> spans[i].text == parts[i]
    ensures Texts(spans) == Concat(parts)
    decreases |spans|
  {
    if |spans| > 0 {
      TextsAreConcat(spans[1..], parts[1..]);
    }
  }

  /** The visible text of the spans is the input with every `**` deleted, and
      joining the span texts with `**` gives the input back. */
  lemma SpansDropMarkers(s: string)
    ensures Texts(Spans(s)) == RemoveAll(s, BoldMarker)
    ensures Join(seq(|Spans(s)|, i requires 0 <= i < |Spans(s)| => Spans(s)[i].text), BoldMarker) == s
  {
    var parts := Split(s, BoldMarker);
    TextsAreConcat(Spans(s), parts);
    ConcatSplit(s, BoldMarker);
    JoinSplit(s, BoldMarker);
    assert seq(|Spans(s)|, i requires 0 <= i < |Spans(s)| => Spans(s)[i].text) == parts;
  }

  /** Text without any `*` is one plain span. */
  lemma SpansWithoutStars(s: string)
    requires '*' !in s
    ensures Spans(s) == [Plain(s)]
  {
    forall p | 0 <= p < |s| ensures !StartsWith((s + BoldMarker)[p..], BoldMarker) {
      assert (s + BoldMarker)[p] == s[p];
    }
    SplitAlone(s, BoldMarker);
  }

  /** A line that starts with `### ` never passes the `## ` test. */
  lemma HeaderTestsExclusive(line: string)
    ensures StartsWith(line, "### ") ==> !StartsWith(line, "## ")
  {
    if StartsWith(line, "### ") {
      assert line[..4][2] == '#';
      assert line[..3][2] == line[..4][2];
    }
  }

  /** One line of `renderContent`. Header tests look at the raw line and keep
      the rest of it verbatim (no bold processing); the bullet test looks at
      the trimmed line; a line of whitespace renders nothing. */
  function RenderLine(line: string): (b: Block)
    ensures b.H2? <==> StartsWith(line, "## ")
    ensures b.H3? <==> StartsWith(line, "### ")
    ensures StartsWith(line, "## ") ==> b == H2(line[3..])
    ensures StartsWith(line, "### ") ==> b == H3(line[4..])
    ensures b.Bullet? <==>
      !StartsWith(line, "## ") && !StartsWith(line, "### ") &&
      (StartsWith(Trim(line), "* ") || StartsWith(Trim(line), "- "))
    ensures b.Bullet? ==> b.spans == Spans(Trim(line)[2..])
    ensures b.Paragraph? <==>
      !StartsWith(line, "## ") && !StartsWith(line, "### ") &&
      !(StartsWith(Trim(line), "* ") || StartsWith(Trim(line), "- ")) && !AllSpace(line)
    ensures b.Paragraph? ==> b.spans == Spans(line)
    ensures b.Nothing? <==> AllSpace(line)
  {
    HeaderTestsExclusive(line);
    if StartsWith(line, "## ") then
      assert "" + line[3..] == line[3..];
      assert line[..3][0] == '#';
      H2(ReplaceFirst(line, "## ", ""))
    else if StartsWith(line, "### ") then
      assert "" + line[4..] == line[4..];
      assert line[..4][0] == '#';
      H3(ReplaceFirst(line, "### ", ""))
    else
      var t := Trim(line);
      if StartsWith(t, "* ") || StartsWith(t, "- ") then Bullet(Spans(t[2..]))
      else if |t| > 0 then Paragraph(Spans(line))
      else Nothing
  }

  /** `renderContent(text)`: one block per line of `text`, so one more than the
      number of line feeds. */
  function Render(text: string): (blocks: seq<Block>)
    ensures |blocks| == Count(text, '\n') + 1
    ensures |blocks| == |Split(text, "\n")|
    ensures forall i :: 0 <= i < |blocks| ==> blocks[i] == RenderLine(Split(text, "\n")[i])
  {
    var lines := Split(text, "\n");
    SplitOnChar(text, '\n');
    seq(|lines|, i requires 0 <= i < |lines| => RenderLine(lines[i]))
  }

  /** The lines the renderer works on contain no line feed and give the text
      back when joined with line feeds. */
  lemma LinesOfText(text: string)
    ensures forall i :: 0 <= i < |Split(text, "\n")| ==> '\n' !in Split(text, "\n")[i]
    ensures Join(Split(text, "\n"), "\n") == text
  {
    SplitOnChar(text, '\n');
    JoinSplit(text, "\n");
  }

  /** An indented `## ` line is not a header: it is a paragraph of the whole line. */
  lemma IndentedHeaderIsParagraph(ws: string, rest: string)
    requires |ws| > 0 && AllSpace(ws)
    ensures RenderLine(ws + "## " + rest) == Paragraph(Spans(ws + "## " + rest))
  {
    var x := "## " + rest;
    assert ws + "## " + rest == ws + x;
    assert x[0] == '#';
    assert (ws + x)[0] == ws[0];
    NotHeader(ws + x);
    TrimKeepsFirst(ws, x);
    var t := Trim(ws + x);
    FirstCharMismatch(t, "* ");
    FirstCharMismatch(t, "- ");
    ParagraphLine(ws + x);
  }

  /** A line whose first character is not `#` passes neither header test. */
  lemma NotHeader(line: string)
    requires |line| > 0 && line[0] != '#'
    ensures !StartsWith(line, "## ") && !StartsWith(line, "### ")
  {
    FirstCharMismatch(line, "## ");
    FirstCharMismatch(line, "### ");
  }

  lemma ParagraphLine(line: string)
    requires !StartsWith(line, "## ") && !StartsWith(line, "### ")
    requires Trim(line) != [] && !StartsWith(Trim(line), "* ") && !StartsWith(Trim(line), "- ")
    ensures RenderLine(line) == Paragraph(Spans(line))
  {
  }

  lemma BulletLine(line: string)
    requires !StartsWith(line, "## ") && !StartsWith(line, "### ")
    requires StartsWith(Trim(line), "* ") || StartsWith(Trim(line), "- ")
    ensures RenderLine(line) == Bullet(Spans(Trim(line)[2..]))
  {
  }

  /** An indented `* ` or `- ` line is a bullet whose content is what follows
      the marker (up to trailing whitespace). */
  lemma IndentedBulletIsBullet(ws: string, marker: string, content: string)
    requires AllSpace(ws)
    requires marker == "* " || marker == "- "
    requires |content| > 0 && !IsSpace(content[|content| - 1])
    ensures RenderLine(ws + marker + content) == Bullet(Spans(content))
  {
    var line := ws + marker + content;
    MarkerLineTrims(ws, marker, content);
    NotHeader(line);
    BulletLine(line);
    assert Trim(line)[2..] == content;
  }

  lemma MarkerLineTrims(ws: string, marker: string, content: string)
    requires AllSpace(ws)
    requires marker == "* " || marker == "- "
    requires |content| > 0 && !IsSpace(content[|content| - 1])
    ensures |ws + marker + content| > 0 && (ws + marker + content)[0] != '#'
    ensures Trim(ws + marker + content) == marker + content
    ensures StartsWith(marker + content, marker) && (marker + content)[2..] == content
  {
    var x := marker + content;
    MarkerText(marker, content);
    assert ws + marker + content == ws + x;
    TrimIndented(ws, x);
    SpaceThenNoHash(ws, x);
  }

  /** A bullet marker followed by content neither starts nor ends with
      whitespace, does not start with `#`, and gives the content back after
      two characters. */
  lemma MarkerText(marker: string, content: string)
    requires marker == "* " || marker == "- "
    requires |content| > 0 && !IsSpace(content[|content| - 1])
    ensures |marker + content| > 0 && (marker + content)[0] != '#'
    ensures !IsSpace((marker + content)[0]) && !IsSpace((marker + content)[|marker + content| - 1])
    ensures StartsWith(marker + content, marker) && (marker + content)[2..] == content
  {
    var x := marker + content;
    assert x[0] == marker[0];
    assert x[|x| - 1] == content[|content| - 1];
    assert x[..2] == marker;
  }

  /** Whitespace followed by text that does not start with `#` does not start with `#`. */
  lemma SpaceThenNoHash(ws: string, x: string)
    requires AllSpace(ws) && |x| > 0 && x[0] != '#'
    ensures |ws + x| > 0 && (ws + x)[0] != '#'
  {
    if |ws| > 0 {
      assert (ws + x)[0] == ws[0];
    } else {
      assert (ws + x)[0] == x[0];
    }
  }

  /** `handleSend`: the address entered is passed to `onSend` only when it is not empty. */
  function HandleSend(email: string): (sent: Option<string>)
    ensures sent.Some? <==> email != ""
    ensures sent.Some? ==> sent.value == email
  {
    if email != "" then Some(email) else None
  }

  /** The text of a source link: its title, or its uri when the title is empty. */
  function LinkLabel(source: GroundingSource): (text: string)
    ensures source.title != "" ==> text == source.title
    ensures source.title == "" ==> text == source.uri
  {
    if source.title != "" then source.title else source.uri
  }

  /** The "Sources & Further Reading" block is shown only for a non-empty list. */
  function ShowsSources(data: NewsletterData): (shown: bool)
    ensures shown <==> data.sources != []
  {
    |data.sources| > 0
  }

  /** A newsletter built from a model response links every source by its title:
      extraction only keeps citations with a non-empty title. */
  lemma GeneratedLinksShowTitles(response: GeminiService.Response, now: Timestamp)
    ensures forall s :: s in GeminiService.NewsletterFrom(response, now).sources ==>
      LinkLabel(s) == s.title && s.uri != ""
  {
    var d := GeminiService.NewsletterFrom(response, now);
    forall s | s in d.sources ensures LinkLabel(s) == s.title && s.uri != "" {
      GeminiService.ExtractedMembers(GeminiService.RawChunks(response), s);
    }
  }
}
