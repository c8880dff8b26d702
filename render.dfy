/** The text that msg_to_pdf_bytes draws for one message: the defaulted fields,
    the header lines, and the body cut into paragraphs of at most MaxChars
    characters per drawn line. */
module Render {
  import opened Wrappers
  import opened Text
  import opened Lines
  import opened Wrapping

  /** What the message library reports for one message. None stands for Python's
      None; the date is given in its string form. */
  datatype Message = Message(
    sender: Option<string>,
    to: Option<string>,
    cc: Option<string>,
    subject: Option<string>,
    date: Option<string>,
    body: Option<string>)

  /** The fields once defaulted: none of them is absent any more. */
  datatype Fields = Fields(sender: string, to: string, cc: string, subject: string, date: string, body: string)

  /** Python truthiness of an optional string: None and "" are false. */
  predicate Truthy(v: Option<string>)
  {
    v.Some? && v.value != ""
  }

  /** Python's `v or ""`: the value when it is truthy, the empty string otherwise. */
  function OrEmpty(v: Option<string>): (r: string)
    ensures Truthy(v) ==> r == v.value
    ensures !Truthy(v) ==> r == ""
  {
    match v
    case Some(s) => s
    case None => ""
  }

  /** The `msg.x or ""` defaulting of every field, the body included. */
  function Defaulted(m: Message): (f: Fields)
    ensures f.sender == "" <==> !Truthy(m.sender)
    ensures f.to == "" <==> !Truthy(m.to)
    ensures f.cc == "" <==> !Truthy(m.cc)
    ensures f.subject == "" <==> !Truthy(m.subject)
    ensures f.date == "" <==> !Truthy(m.date)
    ensures f.body == "" <==> !Truthy(m.body)
    ensures Truthy(m.sender) ==> f.sender == m.sender.value
    ensures Truthy(m.to) ==> f.to == m.to.value
    ensures Truthy(m.cc) ==> f.cc == m.cc.value
    ensures Truthy(m.subject) ==> f.subject == m.subject.value
    ensures Truthy(m.date) ==> f.date == m.date.value
    ensures Truthy(m.body) ==> f.body == m.body.value
  {
    Fields(OrEmpty(m.sender), OrEmpty(m.to), OrEmpty(m.cc), OrEmpty(m.subject), OrEmpty(m.date), OrEmpty(m.body))
  }

  /** A labelled header line for a field that is shown only when it is non-empty. */
  function OptionalLine(caption: string, value: string): seq<string>
  {
    if value == "" then [] else [caption + value]
  }

  /** The header lines, as a reference definition: the three fixed lines, then the
      CC and Date lines for the fields that are non-empty. */
  function HeaderLines(f: Fields): (h: seq<string>)
    ensures 3 <= |h| <= 5
    ensures h[0] == "Subject: " + f.subject && h[1] == "From: " + f.sender && h[2] == "To: " + f.to
  {
    ["Subject: " + f.subject, "From: " + f.sender, "To: " + f.to]
      + OptionalLine("CC: ", f.cc) + OptionalLine("Date: ", f.date)
  }

  /** Builds header_lines as msg_to_pdf_bytes does: a three-element list, then one
      append per non-empty optional field. */
  method BuildHeaderLines(f: Fields) returns (lines: seq<string>)
    ensures lines == HeaderLines(f)
  {
    lines := ["Subject: " + f.subject, "From: " + f.sender, "To: " + f.to];
    if f.cc != "" {
      lines := lines + ["CC: " + f.cc];
    }
    if f.date != "" {
      lines := lines + ["Date: " + f.date];
    }
  }

  /** The header always opens with Subject, From and To in that order, and has
      three to five lines: one more for each non-empty optional field, CC before
      Date when both are there. */
  lemma HeaderLinesShape(f: Fields)
    ensures var h := HeaderLines(f);
      3 <= |h| <= 5 &&
      h[..3] == ["Subject: " + f.subject, "From: " + f.sender, "To: " + f.to] &&
      |h| == 3 + (if f.cc != "" then 1 else 0) + (if f.date != "" then 1 else 0) &&
      (f.cc != "" && f.date != "" ==> h[3..] == ["CC: " + f.cc, "Date: " + f.date])
  {
  }

  lemma LabelledLine(caption: string, value: string)
    ensures StartsWith(caption + value, caption)
  {
  }

  /** A line starting with "CC: " appears exactly when the CC field is non-empty,
      and then it is the fourth line. */
  lemma CcLineIff(f: Fields)
    ensures var h := HeaderLines(f);
      (exists i :: 0 <= i < |h| && StartsWith(h[i], "CC: ")) <==> f.cc != ""
    ensures f.cc != "" ==> HeaderLines(f)[3] == "CC: " + f.cc
  {
    var h := HeaderLines(f);
    if f.cc != "" {
      LabelledLine("CC: ", f.cc);
      assert StartsWith(h[3], "CC: ");
    } else {
      forall i | 0 <= i < |h| ensures !StartsWith(h[i], "CC: ") {
        assert h[i][0] != 'C';
      }
    }
  }

  /** A line starting with "Date: " appears exactly when the date is non-empty, and
      then it is the last line. */
  lemma DateLineIff(f: Fields)
    ensures var h := HeaderLines(f);
      (exists i :: 0 <= i < |h| && StartsWith(h[i], "Date: ")) <==> f.date != ""
    ensures f.date != "" ==> HeaderLines(f)[|HeaderLines(f)| - 1] == "Date: " + f.date
  {
    var h := HeaderLines(f);
    if f.date != "" {
      LabelledLine("Date: ", f.date);
      assert StartsWith(h[|h| - 1], "Date: ");
    } else {
      forall i | 0 <= i < |h| ensures !StartsWith(h[i], "Date: ") {
        assert h[i][0] != 'D';
      }
    }
  }

  /** The lines drawn for the body: its paragraphs (str.splitlines), each wrapped. */
  function BodyLines(body: string): seq<string>
  {
    WrapAll(SplitLines(body), MaxChars)
  }

  /** Draws the body as msg_to_pdf_bytes does: for each paragraph, while more than
      MaxChars characters remain, draw the first MaxChars and drop them; then draw
      what is left. */
  method DrawBody(body: string) returns (drawn: seq<string>)
    ensures drawn == BodyLines(body)
  {
    drawn := [];
    var paragraphs := SplitLines(body);
    for i := 0 to |paragraphs|
      invariant drawn == WrapAll(paragraphs[..i], MaxChars)
    {
      var paragraph := paragraphs[i];
      assert paragraphs[..i + 1][..i] == paragraphs[..i];
      while |paragraph| > MaxChars
        invariant drawn + Wrap(paragraph, MaxChars) == WrapAll(paragraphs[..i + 1], MaxChars)
        decreases |paragraph|
      {
        drawn := drawn + [paragraph[..MaxChars]];
        paragraph := paragraph[MaxChars..];
      }
      drawn := drawn + [paragraph];
    }
    assert paragraphs[..|paragraphs|] == paragraphs;
  }

  /** The drawn body loses nothing but the line boundaries, draws at least one line
      per paragraph, and no drawn line is longer than MaxChars or holds a boundary. */
  lemma BodyLinesFaithful(body: string)
    ensures var r := BodyLines(body);
      Concat(r) == RemoveBreaks(body) &&
      |r| >= |SplitLines(body)| &&
      forall k :: 0 <= k < |r| ==> |r[k]| <= MaxChars && NoBreaks(r[k])
  {
    WrapAllConcat(SplitLines(body), MaxChars);
    SplitLinesConcat(body);
    WrapAllLines(SplitLines(body), MaxChars);
  }

  const Title := "Email Message"
  const BodyTitle := "Body:"

  /** Every string msg_to_pdf_bytes passes to drawString, in order. */
  function PdfText(m: Message): (t: seq<string>)
    ensures |t| >= 5 && t[0] == Title && t[1] == "Subject: " + Defaulted(m).subject
    ensures var n := |HeaderLines(Defaulted(m))|; n + 1 < |t| && t[n + 1] == BodyTitle
  {
    var f := Defaulted(m);
    [Title] + HeaderLines(f) + [BodyTitle] + BodyLines(f.body)
  }

  /** msg_to_pdf_bytes, reduced to the strings it draws: the title, the header lines,
      the body title and the wrapped body. */
  method MsgToPdf(m: Message) returns (drawn: seq<string>)
    ensures drawn == PdfText(m)
  {
    var f := Defaulted(m);
    var header := BuildHeaderLines(f);
    var body := DrawBody(f.body);
    drawn := [Title] + header + [BodyTitle] + body;
  }

  /** Where each part sits in the drawn text: the title first, the header from the
      second line, then the body title, and after it the body's text. */
  lemma PdfTextLayout(m: Message)
    ensures var t := PdfText(m);
      var f := Defaulted(m);
      var n := |HeaderLines(f)|;
      4 <= n + 1 < |t| && t[0] == Title && t[1..n + 1] == HeaderLines(f) && t[n + 1] == BodyTitle &&
      Concat(t[n + 2..]) == RemoveBreaks(f.body)
  {
    var f := Defaulted(m);
    var t := PdfText(m);
    var n := |HeaderLines(f)|;
    HeaderLinesShape(f);
    BodyLinesFaithful(f.body);
    assert t[n + 2..] == BodyLines(f.body);
    assert t[1..n + 1] == HeaderLines(f);
  }
}
