/** Model of the constant exporter (cmd/back-to-front/main.go): the lines of the
    Go constants file that declare a constant are re-emitted, in order, as
    TypeScript `export` statements. Lines are the scanner's lines, without
    their terminators. */
module BackToFront {

  /** A line is exported iff it is longer than five characters and starts with "const". */
  predicate IsConstLine(line: string)
  {
    |line| > 5 && line[0..5] == "const"
  }

  /** The statement written for an exported line (one Fprintln call). */
  function ExportLine(line: string): (out: string)
    ensures |out| == |line| + 8
    ensures out[..7] == "export " && out[7..|out| - 1] == line && out[|out| - 1] == ';'
  {
    "export " + line + ";"
  }

  /** Recovers the declaration from an emitted statement. */
  function DeclarationOf(statement: string): (line: string)
    requires |statement| >= 8
    ensures |line| == |statement| - 8
  {
    statement[7..|statement| - 1]
  }

  lemma ExportLineRoundTrip(line: string)
    ensures DeclarationOf(ExportLine(line)) == line
  {
  }

  /** An exported constant line always yields a statement starting with "export const". */
  lemma ExportedConstStartsWithExportConst(line: string)
    requires IsConstLine(line)
    ensures ExportLine(line)[..12] == "export const"
  {
    assert ExportLine(line)[7..12] == line[0..5];
  }

  /** The kept lines, in input order. */
  function ConstLines(lines: seq<string>): (kept: seq<string>)
    ensures |kept| <= |lines|
    ensures forall j :: 0 <= j < |kept| ==> IsConstLine(kept[j])
  {
    if lines == [] then []
    else
      var last := lines[|lines| - 1];
      ConstLines(lines[..|lines| - 1]) + (if IsConstLine(last) then [last] else [])
  }

  lemma {:induction false} ConstLinesAppend(a: seq<string>, b: seq<string>)
    ensures ConstLines(a + b) == ConstLines(a) + ConstLines(b)
  {
    if b == [] {
      assert a + b == a;
    } else {
      var init := b[..|b| - 1];
      assert (a + b)[..|a + b| - 1] == a + init;
      ConstLinesAppend(a, init);
    }
  }

  /** A line is kept iff it is a constant line of the input. */
  lemma {:induction false} ConstLinesMembership(lines: seq<string>, line: string)
    ensures line in ConstLines(lines) <==> line in lines && IsConstLine(line)
  {
    if lines != [] {
      var init := lines[..|lines| - 1];
      ConstLinesMembership(init, line);
      assert lines == init + [lines[|lines| - 1]];
    }
  }

  /** A line that is not kept contributes nothing to the output. */
  lemma DroppedLineContributesNothing(a: seq<string>, line: string, b: seq<string>)
    requires !IsConstLine(line)
    ensures ConstLines(a + [line] + b) == ConstLines(a + b)
  {
    ConstLinesAppend(a + [line], b);
    ConstLinesAppend(a, [line]);
    ConstLinesAppend(a, b);
    assert [line][..0] == [];
  }

  /** "const" alone, or with leading white space, is not exported; the test is on
      the first five characters, not on a keyword, so "constant" would be. */
  lemma ConstLineExamples()
    ensures IsConstLine("const A = 1")
    ensures !IsConstLine("const")
    ensures !IsConstLine(" const A = 1")
    ensures IsConstLine("constant")
  {
    assert " const A = 1"[0] != "const"[0];
  }

  /** Both loops of main: collect the constant lines, then write one statement per line. */
  method ExportConstants(lines: seq<string>) returns (written: seq<string>)
    ensures |written| == |ConstLines(lines)| <= |lines|
    ensures forall j :: 0 <= j < |written| ==> written[j] == ExportLine(ConstLines(lines)[j])
  {
    var constantsToAdd: seq<string> := [];
    for i := 0 to |lines|
      invariant constantsToAdd == ConstLines(lines[..i])
    {
      var line := lines[i];
      assert lines[..i + 1][..i] == lines[..i];
      if |line| > 5 && line[0..5] == "const" {
        constantsToAdd := constantsToAdd + [line];
      }
    }
    assert lines[..|lines|] == lines;
    written := [];
    for i := 0 to |constantsToAdd|
      invariant |written| == i
      invariant forall j :: 0 <= j < i ==> written[j] == ExportLine(constantsToAdd[j])
    {
      written := written + ["export " + constantsToAdd[i] + ";"];
    }
  }
}
