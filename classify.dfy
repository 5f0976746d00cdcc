/**
 * Block classification (`getBlockType`) and heading levels
 * (`getHeadingLevel`). The two heading tests differ on purpose: a block is a
 * heading as soon as its first line starts with `#`, while a heading level
 * needs one to six `#` followed by a whitespace character.
 */
module Classify {
  import opened Text
  import opened Types

  /** `text.split('\n')[0]` */
  function FirstLine(text: string): (line: string)
    ensures '\n' !in line
    ensures line <= text
    ensures |line| < |text| ==> text[|line|] == '\n'
  {
    Split(text, '\n')[0]
  }

  predicate IsDigit(c: char)
  {
    '0' <= c <= '9'
  }

  /** The number of ASCII digits `s` starts with. */
  function LeadingDigits(s: string): (n: nat)
    ensures n <= |s|
    ensures forall i :: 0 <= i < n ==> IsDigit(s[i])
    ensures n < |s| ==> !IsDigit(s[n])
  {
    if |s| > 0 && IsDigit(s[0]) then 1 + LeadingDigits(s[1..]) else 0
  }

  // The tests of the first line, in the order `getBlockType` applies them.

  predicate IsHeadingLine(line: string)
  {
    StartsWith(line, "#")
  }

  predicate IsTaskItem(line: string)
  {
    StartsWith(line, "- [ ] ") || StartsWith(line, "- [x] ")
  }

  predicate IsBulletItem(line: string)
  {
    StartsWith(line, "- ") || StartsWith(line, "* ")
  }

  /** `/^\d+\.\s/.test(line)`, decided on the maximal run of leading digits. */
  predicate IsNumberedItem(line: string)
  {
    var n := LeadingDigits(line);
    1 <= n && n + 1 < |line| && line[n] == '.' && IsWhitespace(line[n + 1])
  }

  predicate IsQuoteLine(line: string)
  {
    StartsWith(line, ">")
  }

  predicate IsFenceLine(line: string)
  {
    StartsWith(line, "```")
  }

  predicate IsImageLine(line: string)
  {
    StartsWith(line, "![")
  }

  /** The pattern `/^\d+\.\s/` read literally: some positive number of digits,
      a dot and a whitespace character. */
  ghost predicate NumberedPrefix(line: string, k: nat)
  {
    1 <= k && k + 1 < |line| && (forall i :: 0 <= i < k ==> IsDigit(line[i]))
    && line[k] == '.' && IsWhitespace(line[k + 1])
  }

  /** Deciding the pattern on the maximal digit run loses no match: a dot is
      not a digit, so only the whole run can precede it. */
  lemma NumberedItemIsPattern(line: string)
    ensures IsNumberedItem(line) <==> exists k: nat :: NumberedPrefix(line, k)
  {
    var n := LeadingDigits(line);
    if IsNumberedItem(line) {
      assert NumberedPrefix(line, n);
    }
    forall k: nat | NumberedPrefix(line, k) ensures k == n {
    }
  }

  /** The precedence of the block types, as a table. */
  const Precedence: seq<BlockType> :=
    [Heading, TaskList, UnorderedList, OrderedList, Blockquote, Codeblock, Image, Paragraph]

  /** The place of `t` in the precedence table: every block type has one. */
  function Rank(t: BlockType): (i: nat)
    ensures i < |Precedence| && Precedence[i] == t
  {
    match t
    case Heading => 0
    case TaskList => 1
    case UnorderedList => 2
    case OrderedList => 3
    case Blockquote => 4
    case Codeblock => 5
    case Image => 6
    case Paragraph => 7
  }

  /** The test that admits a first line to each block type. */
  predicate Admits(t: BlockType, line: string)
  {
    match t
    case Heading => IsHeadingLine(line)
    case TaskList => IsTaskItem(line)
    case UnorderedList => IsBulletItem(line)
    case OrderedList => IsNumberedItem(line)
    case Blockquote => IsQuoteLine(line)
    case Codeblock => IsFenceLine(line)
    case Image => IsImageLine(line)
    case Paragraph => true
  }

  /** `getBlockType`: the type of a block, judged by its first line alone.
      It is the first entry of the precedence table whose test admits that
      line; a paragraph admits anything, so every text has a type. */
  function GetBlockType(text: string): (r: BlockType)
    ensures var line := FirstLine(text);
            exists i :: 0 <= i < |Precedence| && Precedence[i] == r && Admits(r, line)
                        && forall j :: 0 <= j < i ==> !Admits(Precedence[j], line)
  {
    var line := FirstLine(text);
    var r :=
      if IsHeadingLine(line) then Heading
      else if IsTaskItem(line) then TaskList
      else if IsBulletItem(line) then UnorderedList
      else if IsNumberedItem(line) then OrderedList
      else if IsQuoteLine(line) then Blockquote
      else if IsFenceLine(line) then Codeblock
      else if IsImageLine(line) then Image
      else Paragraph;
    var i := Rank(r);
    assert Admits(r, line);
    assert forall j :: 0 <= j < i ==> !Admits(Precedence[j], line);
    assert 0 <= i < |Precedence| && Precedence[i] == r;
    r
  }

  /** Only the text before the first line break matters. */
  lemma {:induction false} BlockTypeOfFirstLine(line: string, rest: string)
    requires '\n' !in line
    ensures GetBlockType(line + "\n" + rest) == GetBlockType(line)
  {
    SplitAtFirst(line, rest, '\n');
    SplitWithout(line, '\n');
  }

  /** A task item is never classified as a plain list item, although its
      first two characters are those of one. */
  lemma TaskItemIsTaskList(text: string)
    requires StartsWith(text, "- [ ] ") || StartsWith(text, "- [x] ")
    ensures GetBlockType(text) == TaskList
  {
    var line := FirstLine(text);
    assert text[..6] == line[..6];
  }

  /** A block is a heading exactly when its text starts with `#`. */
  lemma HeadingIffHash(text: string)
    ensures GetBlockType(text) == Heading <==> StartsWith(text, "#")
  {
    var line := FirstLine(text);
    if StartsWith(text, "#") {
      assert text[0] == '#';
      assert line != [];
      assert line[0] == text[0];
    }
    if GetBlockType(text) == Heading {
      assert line[0] == '#';
    }
  }

  /** The number of `#` characters `s` starts with. */
  function LeadingHashes(s: string): (n: nat)
    ensures n <= |s|
    ensures forall i :: 0 <= i < n ==> s[i] == '#'
    ensures n < |s| ==> s[n] != '#'
  {
    if |s| > 0 && s[0] == '#' then 1 + LeadingHashes(s[1..]) else 0
  }

  /** The pattern `/^(#{1,6})\s/` with a group of length `k`. */
  ghost predicate HeadingMarker(text: string, k: nat)
  {
    1 <= k <= 6 && k < |text| && (forall i :: 0 <= i < k ==> text[i] == '#')
    && IsWhitespace(text[k])
  }

  /** `getHeadingLevel`: the length of the matched group, or 0 when the
      pattern does not match. */
  function GetHeadingLevel(text: string): (level: nat)
    ensures level <= 6
    ensures forall k: nat :: HeadingMarker(text, k) <==> 1 <= k && level == k
  {
    var n := LeadingHashes(text);
    assert forall k: nat :: HeadingMarker(text, k) ==> k == n by {
      forall k: nat | HeadingMarker(text, k) ensures k == n {
      }
    }
    if 1 <= n <= 6 && n < |text| && IsWhitespace(text[n]) then n else 0
  }

  /** A line with a heading level is classified as a heading. */
  lemma LevelImpliesHeading(text: string)
    requires GetHeadingLevel(text) > 0
    ensures GetBlockType(text) == Heading
  {
    assert HeadingMarker(text, GetHeadingLevel(text));
    HeadingIffHash(text);
  }

  /** The converse fails: `#x` is a heading without a level. */
  lemma HeadingWithoutLevel()
    ensures GetBlockType("#x") == Heading && GetHeadingLevel("#x") == 0
  {
    HeadingIffHash("#x");
    assert !HeadingMarker("#x", 1);
  }
}
