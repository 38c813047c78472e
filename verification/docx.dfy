/**
 * The line-by-line Markdown to DOCX mapping of `convert_to_docx`, with the document
 * library's calls replaced by an abstract list of blocks: a heading of some level, or a
 * paragraph made of plain and bold runs.
 */
module Docx {
  import opened Text
  import opened Options

  datatype Run = Run(text: string, bold: bool)

  datatype Block = Heading(level: nat, text: string) | Paragraph(runs: seq<Run>)

  const Bold := "**"

  function Texts(runs: seq<Run>): (texts: seq<string>)
    ensures |texts| == |runs|
    ensures forall i :: 0 <= i < |runs| ==> texts[i] == runs[i].text
  {
    seq(|runs|, i requires 0 <= i < |runs| => runs[i].text)
  }

  /** Run i holds part i, bold exactly when i is odd. */
  function Alternate(parts: seq<string>): seq<Run>
  {
    seq(|parts|, i requires 0 <= i < |parts| => Run(parts[i], i % 2 == 1))
  }

  /**
   * The runs of a paragraph line: split at every "**", odd parts bold; a line without
   * "**" is one plain run. The run texts joined back with "**" give the line, their plain
   * concatenation is the line with every "**" deleted, there is one more run than there
   * are "**" markers, and the cuts are at the leftmost markers (`Leftmost`), which fixes
   * the run texts uniquely (`SplitUnique`).
   */
  function Runs(line: string): (runs: seq<Run>)
    ensures |runs| == Count(line, Bold) + 1
    ensures forall i :: 0 <= i < |runs| ==> runs[i].bold == (i % 2 == 1)
    ensures JoinWith(Texts(runs), Bold) == line
    ensures JoinWith(Texts(runs), "") == RemoveAll(line, Bold)
    ensures Leftmost(Texts(runs), Bold)
  {
    SplitLeftmost(line, Bold);
    SplitCount(line, Bold);
    JoinSplit(line, Bold);
    ConcatSplit(line, Bold);
    SplitWithoutSeparator(line, Bold);
    var runs := if Contains(line, Bold) then Alternate(Split(line, Bold)) else [Run(line, false)];
    assert Texts(runs) == Split(line, Bold);
    runs
  }

  /** "#" repeated `n` times. */
  function Hashes(n: nat): string
  {
    seq(n, _ => '#')
  }

  /**
   * The block one input line yields, if any: the line is stripped, then an empty line or a
   * code fence marker yields nothing, "# " to "#### " yield a heading of level 1 to 4 with
   * the marker removed, and anything else yields a paragraph.
   */
  function Classify(raw: string): Option<Block>
  {
    var line := Strip(raw);
    if line == "" then None
    else if StartsWith(line, "# ") then Some(Heading(1, line[2..]))
    else if StartsWith(line, "## ") then Some(Heading(2, line[3..]))
    else if StartsWith(line, "### ") then Some(Heading(3, line[4..]))
    else if StartsWith(line, "#### ") then Some(Heading(4, line[5..]))
    else if StartsWith(line, "```") then None
    else Some(Paragraph(Runs(line)))
  }

  /** The blocks of a sequence of lines, in order, skipped lines contributing nothing. */
  function Blocks(lines: seq<string>): seq<Block>
    decreases |lines|
  {
    if |lines| == 0 then []
    else
      var rest := Blocks(lines[1..]);
      match Classify(lines[0])
      case None => rest
      case Some(b) => [b] + rest
  }

  /** The document: a level-0 title heading, then the blocks of `content.split('\n')`. */
  function Document(title: string, content: string): seq<Block>
  {
    [Heading(0, title)] + Blocks(Split(content, "\n"))
  }

  // ---------------------------------------------------------------------------------------

  /** The level-n marker is a prefix for exactly one n: more hashes mean a '#' where a space would be. */
  lemma HeadingMarkerUnique(line: string, n: nat, m: nat)
    requires 1 <= n < m
    requires StartsWith(line, Hashes(m) + " ")
    ensures !StartsWith(line, Hashes(n) + " ")
  {
    assert line[n] == (Hashes(m) + " ")[n] == '#';
  }

  /**
   * A line yields a heading of level n and text t exactly when, stripped, it starts with
   * n hashes and a space, n is between 1 and 4, and t is what follows that marker.
   */
  lemma ClassifyHeading(raw: string, n: nat, t: string)
    ensures Classify(raw) == Some(Heading(n, t)) <==>
      && 1 <= n <= 4
      && StartsWith(Strip(raw), Hashes(n) + " ")
      && t == Strip(raw)[n + 1..]
  {
    var line := Strip(raw);
    assert Hashes(1) + " " == "# ";
    assert Hashes(2) + " " == "## ";
    assert Hashes(3) + " " == "### ";
    assert Hashes(4) + " " == "#### ";
    if 1 <= n <= 4 && StartsWith(line, Hashes(n) + " ") {
      forall m | 1 <= m < n
        ensures !StartsWith(line, Hashes(m) + " ")
      {
        HeadingMarkerUnique(line, m, n);
      }
    }
  }

  /** A line yields no block exactly when, stripped, it is empty or starts a code fence. */
  lemma ClassifySkip(raw: string)
    ensures Classify(raw).None? <==> Strip(raw) == "" || StartsWith(Strip(raw), "```")
  {
    var line := Strip(raw);
    if StartsWith(line, "```") {
      assert line[0] == '`';
    }
  }

  /**
   * Every other line yields one paragraph, whose runs are those of the stripped line.
   */
  lemma ClassifyParagraph(raw: string)
    requires Strip(raw) != "" && !StartsWith(Strip(raw), "```")
    requires forall n :: 1 <= n <= 4 ==> !StartsWith(Strip(raw), Hashes(n) + " ")
    ensures Classify(raw) == Some(Paragraph(Runs(Strip(raw))))
  {
    assert Hashes(1) + " " == "# ";
    assert Hashes(2) + " " == "## ";
    assert Hashes(3) + " " == "### ";
    assert Hashes(4) + " " == "#### ";
  }

  /** The blocks of two stretches of lines are the blocks of each, in order. */
  lemma {:induction false} BlocksAppend(a: seq<string>, b: seq<string>)
    ensures Blocks(a + b) == Blocks(a) + Blocks(b)
    decreases |a|
  {
    if |a| == 0 {
      assert a + b == b;
    } else {
      assert (a + b)[0] == a[0];
      assert (a + b)[1..] == a[1..] + b;
      BlocksAppend(a[1..], b);
    }
  }

  /** How many lines yield a block. */
  function Kept(lines: seq<string>): nat
    decreases |lines|
  {
    if |lines| == 0 then 0 else (if Classify(lines[0]).Some? then 1 else 0) + Kept(lines[1..])
  }

  /** A heading that a line yields has level 1 to 4. */
  lemma ClassifyLevel(raw: string)
    ensures Classify(raw).Some? && Classify(raw).value.Heading? ==> 1 <= Classify(raw).value.level <= 4
  {
  }

  /** One block per kept line, and every heading among them has level 1 to 4. */
  lemma {:induction false} BlocksShape(lines: seq<string>)
    ensures |Blocks(lines)| == Kept(lines)
    ensures forall i :: 0 <= i < |Blocks(lines)| ==>
      Blocks(lines)[i].Heading? ==> 1 <= Blocks(lines)[i].level <= 4
    decreases |lines|
  {
    if |lines| > 0 {
      var rest := Blocks(lines[1..]);
      BlocksShape(lines[1..]);
      ClassifyLevel(lines[0]);
      match Classify(lines[0])
      case None =>
        assert Blocks(lines) == rest;
      case Some(b) =>
        assert Blocks(lines) == [b] + rest;
    }
  }

  /**
   * The title is the one level-0 heading of the document: it comes first, every later
   * heading has level 1 to 4, and one block follows it for every line that is not skipped.
   */
  lemma DocumentShape(title: string, content: string)
    ensures var doc := Document(title, content);
      && doc[0] == Heading(0, title)
      && |doc| == 1 + Kept(Split(content, "\n"))
      && forall i :: 1 <= i < |doc| ==> doc[i].Heading? ==> 1 <= doc[i].level <= 4
  {
    var lines := Split(content, "\n");
    BlocksShape(lines);
    TitleFirst(title, Blocks(lines));
  }

  /** Putting the title heading first shifts every block by one and adds no other heading. */
  lemma TitleFirst(title: string, blocks: seq<Block>)
    requires forall i :: 0 <= i < |blocks| ==> blocks[i].Heading? ==> 1 <= blocks[i].level <= 4
    ensures var doc := [Heading(0, title)] + blocks;
      && |doc| == 1 + |blocks|
      && forall i :: 1 <= i < |doc| ==> doc[i].Heading? ==> 1 <= doc[i].level <= 4
  {
    var doc := [Heading(0, title)] + blocks;
    forall i | 1 <= i < |doc|
      ensures doc[i].Heading? ==> 1 <= doc[i].level <= 4
    {
      assert doc[i] == blocks[i - 1];
    }
  }

  /** Bold italics: `***bold***` gives a plain "", a bold "*bold" and a plain "*", as `split` cuts leftmost. */
  lemma BoldItalicRuns()
    ensures Runs("***bold***") == [Run("", false), Run("*bold", true), Run("*", false)]
  {
    var line := "***bold***";
    var parts := ["", "*bold", "*"];
    BoldItalicJoin();
    BoldItalicLeftmost();
    SplitUnique(parts, Bold);
    assert line[..2] == Bold;
    RunsWithMarker(line);
    AlternateThree(parts);
  }

  /** Three parts alternate plain, bold, plain. */
  lemma AlternateThree(parts: seq<string>)
    requires |parts| == 3
    ensures Alternate(parts) == [Run(parts[0], false), Run(parts[1], true), Run(parts[2], false)]
  {
    var a := Alternate(parts);
    assert a[0] == Run(parts[0], false) && a[1] == Run(parts[1], true) && a[2] == Run(parts[2], false);
  }

  /** A line holding "**" gets the alternating runs of its parts. */
  lemma RunsWithMarker(line: string)
    requires |line| >= 2 && line[..2] == Bold
    ensures Runs(line) == Alternate(Split(line, Bold))
  {
  }

  /** The three parts joined with "**" give the line back. */
  lemma BoldItalicJoin()
    ensures JoinWith(["", "*bold", "*"], Bold) == "***bold***"
  {
    var parts := ["", "*bold", "*"];
    JoinWithCons("", parts[1..], Bold);
    JoinWithCons("*bold", parts[2..], Bold);
    assert parts[1..] == ["*bold"] + parts[2..];
    assert [""] + parts[1..] == parts;
  }

  /** The three parts are cut at the leftmost "**": "*bold*" holds no "**". */
  lemma BoldItalicLeftmost()
    ensures Leftmost(["", "*bold", "*"], Bold)
  {
    var parts := ["", "*bold", "*"];
    assert Bold[..|Bold| - 1] == "*";
    assert parts[0] + "*" == "*" && parts[1] + "*" == "*bold*";
    assert !Contains("*", Bold);
    assert "d*"[1..] == "*" && "d*"[..2][0] == 'd';
    assert "ld*"[1..] == "d*" && "ld*"[..2][0] == 'l';
    assert "old*"[1..] == "ld*" && "old*"[..2][0] == 'o';
    assert "bold*"[1..] == "old*" && "bold*"[..2][0] == 'b';
    assert "*bold*"[1..] == "bold*" && "*bold*"[..2][1] == 'b';
  }
}
