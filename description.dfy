/**
 * `getDescription`: the text under the first heading of a document, up to
 * the next heading. A heading line here is any line that starts with `#`.
 */
module Description {
  import opened Text
  import opened Classify

  /** `lines.findIndex((line) => line.startsWith('#'))`: the index of the
      first heading line, or -1 when there is none. */
  function FindHeading(lines: seq<string>): (i: int)
    ensures -1 <= i < |lines|
    ensures i == -1 <==> forall j :: 0 <= j < |lines| ==> !IsHeadingLine(lines[j])
    ensures 0 <= i ==> IsHeadingLine(lines[i])
    ensures forall j :: 0 <= j < i ==> !IsHeadingLine(lines[j])
  {
    FindHeadingFrom(lines, 0)
  }

  /** The first heading line at or after `k`, or -1. */
  function FindHeadingFrom(lines: seq<string>, k: nat): (i: int)
    requires k <= |lines|
    ensures i == -1 || k <= i < |lines|
    ensures i == -1 ==> forall j :: k <= j < |lines| ==> !IsHeadingLine(lines[j])
    ensures 0 <= i ==> IsHeadingLine(lines[i])
    ensures forall j :: k <= j < i ==> !IsHeadingLine(lines[j])
    decreases |lines| - k
  {
    if k == |lines| then -1
    else if IsHeadingLine(lines[k]) then k
    else FindHeadingFrom(lines, k + 1)
  }

  /** The lines of a document: `markdown.split('\n')`. There is at least
      one, none holds a line break, and joined with line breaks they give
      the document back. */
  function Lines(markdown: string): (lines: seq<string>)
    ensures |lines| >= 1
    ensures forall k :: 0 <= k < |lines| ==> '\n' !in lines[k]
    ensures Join(lines, "\n") == markdown
  {
    JoinSplit(markdown, '\n');
    Split(markdown, '\n')
  }

  /** Lines `f + 1 .. e - 1` of `lines` are the description: `f` is the first
      heading line, and `e` is the next heading line after it or the end. */
  ghost predicate DescriptionSpan(lines: seq<string>, f: int, e: int)
  {
    && 0 <= f < e <= |lines|
    && IsHeadingLine(lines[f])
    && (forall j :: 0 <= j < f ==> !IsHeadingLine(lines[j]))
    && (forall j :: f < j < e ==> !IsHeadingLine(lines[j]))
    && (e == |lines| || IsHeadingLine(lines[e]))
  }

  /** `getDescription`. */
  function GetDescription(markdown: string): (r: string)
    ensures (forall j :: 0 <= j < |Lines(markdown)| - 1 ==> !IsHeadingLine(Lines(markdown)[j]))
            ==> r == ""
    ensures r == [] || (!IsWhitespace(r[0]) && !IsWhitespace(r[|r| - 1]))
  {
    DescriptionOfLines(Lines(markdown))
  }

  /** `getDescription` once the document is split into `lines`. */
  function DescriptionOfLines(lines: seq<string>): (r: string)
    ensures (forall j :: 0 <= j < |lines| - 1 ==> !IsHeadingLine(lines[j])) ==> r == ""
    ensures r == [] || (!IsWhitespace(r[0]) && !IsWhitespace(r[|r| - 1]))
  {
    var first := FindHeading(lines);
    if first == -1 || first == |lines| - 1 then ""
    else
      var after := lines[first + 1..];
      var next := FindHeading(after);
      if next == -1 then Trim(Join(after, "\n"))
      else Trim(Join(after[..next], "\n"))
  }

  /** The one span a document can have: it starts at the first heading line
      and ends at the next one, or at the end. */
  lemma SpanDetermined(lines: seq<string>, f: int, e: int)
    requires DescriptionSpan(lines, f, e)
    ensures f == FindHeading(lines)
    ensures var next := FindHeading(lines[f + 1..]);
            e == if next == -1 then |lines| else f + 1 + next
  {
    var after := lines[f + 1..];
    var next := FindHeading(after);
    if next != -1 {
      assert after[next] == lines[f + 1 + next];
    }
    if e < |lines| {
      assert after[e - f - 1] == lines[e];
    }
  }

  /** The description is the trimmed text of the lines strictly between the
      first heading line and the next one (or the end of the document). */
  lemma DescriptionBetweenHeadings(markdown: string, f: int, e: int)
    requires DescriptionSpan(Lines(markdown), f, e)
    ensures GetDescription(markdown) == Trim(Join(Lines(markdown)[f + 1..e], "\n"))
  {
    SpanDetermined(Lines(markdown), f, e);
    DescriptionAt(Lines(markdown), f, e);
  }

  lemma DescriptionAt(lines: seq<string>, f: int, e: int)
    requires 0 <= f < e <= |lines| && f == FindHeading(lines)
    requires var next := FindHeading(lines[f + 1..]);
             e == if next == -1 then |lines| else f + 1 + next
    ensures DescriptionOfLines(lines) == Trim(Join(lines[f + 1..e], "\n"))
  {
    var after := lines[f + 1..];
    var body := lines[f + 1..e];
    if f == |lines| - 1 {
      assert body == [];
      assert DescriptionOfLines(lines) == "";
    } else {
      var next := FindHeading(after);
      assert body == if next == -1 then after else after[..next];
      assert DescriptionOfLines(lines) == Trim(Join(if next == -1 then after else after[..next], "\n"));
    }
  }

  /** When the document has a heading line, its description span exists. */
  lemma DescriptionSpanExists(markdown: string)
    requires exists j :: 0 <= j < |Lines(markdown)| && IsHeadingLine(Lines(markdown)[j])
    ensures exists f, e :: DescriptionSpan(Lines(markdown), f, e)
  {
    var lines := Lines(markdown);
    var f := FindHeading(lines);
    var after := lines[f + 1..];
    var next := FindHeading(after);
    var e := if next == -1 then |lines| else f + 1 + next;
    forall j | f < j < e ensures !IsHeadingLine(lines[j]) {
      assert lines[j] == after[j - f - 1];
    }
    if next != -1 {
      assert lines[e] == after[next];
    }
    assert DescriptionSpan(lines, f, e);
  }
}
