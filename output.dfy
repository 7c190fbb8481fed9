/**
 * `create_structured_output`: the four-line training target rendered from the extracted
 * details, and the parse that reads those lines back.
 */
module StructuredOutput {
  import opened PyText
  import opened Extraction

  const LocationLabel: string := "Location: "
  const CategoryLabel: string := "Category: "
  const SeverityLabel: string := "Severity: "
  const ActionLabel: string := "Recommended Action: "

  /** The f-string of `create_structured_output`, for given details. */
  function Render(d: Details): string {
    LocationLabel + d.location + "\n" + CategoryLabel + d.category + "\n"
    + SeverityLabel + d.severity + "\n" + ActionLabel + d.action
  }

  /** `create_structured_output(transcript)`. */
  function CreateStructuredOutput(transcript: string): string {
    Render(ExtractDetails(transcript))
  }

  /** `line` begins with `prefix`. */
  predicate HasLabel(line: string, prefix: string) {
    |prefix| <= |line| && line[..|prefix|] == prefix
  }

  /** Reads the labelled lines back, as `output.split("\n", 3)` does: the first three lines are
      location, category and severity, and the rest is the action line. */
  function Parse(output: string): Option<Details> {
    var lines := SplitOn(output, "\n");
    if |lines| < 4 then None
    else
      var last := JoinWith(lines[3..], "\n");
      if && HasLabel(lines[0], LocationLabel) && HasLabel(lines[1], CategoryLabel)
         && HasLabel(lines[2], SeverityLabel) && HasLabel(last, ActionLabel)
      then Some(Details(
        lines[1][|CategoryLabel|..], lines[2][|SeverityLabel|..],
        lines[0][|LocationLabel|..], last[|ActionLabel|..]))
      else None
  }

  /** The location, category and severity hold no newline. */
  predicate SingleLineFields(d: Details) {
    '\n' !in d.category && '\n' !in d.severity && '\n' !in d.location
  }

  /** Three newline-free lines and a rest, joined by newlines, split into the three lines
      followed by the pieces of the rest. */
  lemma SplitThreeLines(a0: string, a1: string, a2: string, rest: string)
    requires '\n' !in a0 && '\n' !in a1 && '\n' !in a2
    ensures SplitOn(a0 + "\n" + (a1 + "\n" + (a2 + "\n" + rest)), "\n")
            == [a0] + ([a1] + ([a2] + SplitOn(rest, "\n")))
  {
    SplitOnCharCons(a2, '\n', rest);
    SplitOnCharCons(a1, '\n', a2 + "\n" + rest);
    SplitOnCharCons(a0, '\n', a1 + "\n" + (a2 + "\n" + rest));
  }

  /** The rendered text, grouped from the right. */
  lemma RenderGrouped(d: Details)
    ensures Render(d) == LocationLabel + d.location + "\n" + (CategoryLabel + d.category + "\n"
                         + (SeverityLabel + d.severity + "\n" + (ActionLabel + d.action)))
  {
  }

  /** The line labels are single lines. */
  lemma LabelsHaveNoNewline()
    ensures '\n' !in LocationLabel && '\n' !in CategoryLabel && '\n' !in SeverityLabel
  {
  }

  /** Three newline-free lines and a rest, joined by newlines, split back into the three lines
      and pieces that rejoin to the rest. */
  lemma ThreeLinesAndRest(a0: string, a1: string, a2: string, rest: string)
    requires '\n' !in a0 && '\n' !in a1 && '\n' !in a2
    ensures var lines := SplitOn(a0 + "\n" + (a1 + "\n" + (a2 + "\n" + rest)), "\n");
            && |lines| >= 4 && lines[0] == a0 && lines[1] == a1 && lines[2] == a2
            && JoinWith(lines[3..], "\n") == rest
  {
    SplitThreeLines(a0, a1, a2, rest);
    SplitOnJoin(rest, "\n");
    ConsLines(a0, a1, a2, SplitOn(rest, "\n"));
  }

  lemma ConsLines(a0: string, a1: string, a2: string, tail: seq<string>)
    requires |tail| >= 1
    ensures var lines := [a0] + ([a1] + ([a2] + tail));
            && |lines| >= 4 && lines[0] == a0 && lines[1] == a1 && lines[2] == a2 && lines[3..] == tail
  {
    var lines := [a0] + ([a1] + ([a2] + tail));
    assert lines[3..] == tail;
  }

  /** The rendered text begins with the location, category and severity lines, in that order,
      and its remaining lines rejoin to the action line, whenever those three fields hold no
      newline. */
  lemma RenderLines(d: Details)
    requires SingleLineFields(d)
    ensures var lines := SplitOn(Render(d), "\n");
            && |lines| >= 4
            && lines[0] == LocationLabel + d.location
            && lines[1] == CategoryLabel + d.category
            && lines[2] == SeverityLabel + d.severity
            && JoinWith(lines[3..], "\n") == ActionLabel + d.action
  {
    LabelsHaveNoNewline();
    RenderGrouped(d);
    ThreeLinesAndRest(LocationLabel + d.location, CategoryLabel + d.category,
                      SeverityLabel + d.severity, ActionLabel + d.action);
  }

  /** Parsing the rendered text gives the details back when the location, category and severity
      hold no newline. */
  lemma ParseRender(d: Details)
    requires SingleLineFields(d)
    ensures Parse(Render(d)) == Some(d)
  {
    RenderLines(d);
  }

  /** Category and severity labels are single words. */
  lemma LabelsSingleLine(category: string, severity: string)
    requires category in ["medical", "fire", "police", "traffic", "unknown"]
    requires severity in ["high", "medium", "low"]
    ensures '\n' !in category && '\n' !in severity
  {
  }

  /** For a transcript without a newline (every cleaned transcript), the structured output
      reads back as the extracted details. */
  lemma StructuredOutputRoundTrip(transcript: string)
    requires '\n' !in transcript
    ensures Parse(CreateStructuredOutput(transcript)) == Some(ExtractDetails(transcript))
  {
    ExtractLabelsSpec(transcript);
    ExtractLocationSpec(transcript);
    var d := ExtractDetails(transcript);
    LabelsSingleLine(d.category, d.severity);
    ParseRender(ExtractDetails(transcript));
  }
}
