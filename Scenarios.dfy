/**
 * End-to-end behaviour of the recognizer as configured by the command-line tool:
 * glyph height 4, the four-line digit catalog, and 'X' for an unknown glyph.
 */
module Scenarios {
  import opened Wrappers
  import opened Text
  import FourLinesCharacters
  import opened FileParser

  /** The configuration of `Program.Main` and of the tests. */
  function DigitConfig(): ParserConfiguration
  {
    ParserConfiguration(4, FourLinesCharacters.DetectChar, Some('X'))
  }

  /** A digit one: four rows of a single bar. */
  const One: seq<string> := ["|", "|", "|", "|"]

  /** A four, a five and an unknown glyph side by side, one blank column apart. */
  const FourFiveUnknown: seq<string> := [
    "|   | ----- #",
    "|___| |___  #",
    "    |     | #",
    "    | ____| #"
  ]

  /** A four, a five and a one side by side, one blank column apart. */
  const FourFiveOne: seq<string> := [
    "|   | ----- |",
    "|___| |___  |",
    "    |     | |",
    "    | ____| |"
  ]

  /** A file of exactly one clean, padded group of four lines is that group's recognized line. */
  lemma ParseSingleGroup(lines: seq<string>)
    requires |lines| == 4 && Padded(lines)
    requires forall k :: 0 <= k < |lines| ==> |lines[k]| > 0 && '\t' !in lines[k]
    ensures Parse(lines, DigitConfig()) == Success([RecognizeBlock(lines, DigitConfig())])
  {
    NormalizeKeepsCleanLines(lines);
    PadBlockKeepsPadded(lines);
    assert Chunk(lines, 4) == [lines];
    var blocks := ImageLines(lines, 4);
    assert |blocks| == 1 && blocks[0] == lines;
    assert blocks == [lines];
    var out := RecognizeAll(blocks, DigitConfig());
    assert |out| == 1 && out[0] == RecognizeBlock(lines, DigitConfig());
    assert out == [RecognizeBlock(lines, DigitConfig())];
    assert Normalize(lines) == lines && |lines| % DigitConfig().lineHeight == 0;
  }

  /** A slice is determined row by row. */
  lemma SliceRows(block: seq<string>, span: Span, image: seq<string>)
    requires SpanFits(block, span) && |image| == |block|
    requires forall r :: 0 <= r < |block| ==> block[r][span.start .. span.End()] == image[r]
    ensures Slice(block, span) == image
  {
  }

  /** A box whose image is a catalog shape resolves to that shape's key. */
  lemma ResolveShape(block: seq<string>, span: Span, image: seq<string>, i: int)
    requires SpanFits(block, span) && Slice(block, span) == image
    requires 0 <= i < |FourLinesCharacters.KnownChars|
    requires FourLinesCharacters.KnownChars[i].1 == Join('\n', image)
    ensures Resolve(block, span, DigitConfig()) == Some(FourLinesCharacters.KnownChars[i].0)
  {
  }

  /** A box whose image is no catalog shape resolves to the fallback 'X'. */
  lemma ResolveUnknown(block: seq<string>, span: Span, image: seq<string>)
    requires SpanFits(block, span) && Slice(block, span) == image
    requires forall i :: 0 <= i < |FourLinesCharacters.KnownChars| ==>
      FourLinesCharacters.KnownChars[i].1 != Join('\n', image)
    ensures Resolve(block, span, DigitConfig()) == Some('X')
  {
  }

  /** A signal of one inked column is one box. */
  lemma SingleRun(a: seq<bool>)
    requires |a| == 1 && a[0]
    ensures Segments(a) == [Span(0, 1)]
  {
    TrueRunExact(a, 0, 1);
    assert Runs(a, 0) == [Span(0, 1)] + Runs(a, 1);
  }

  /** A signal of thirteen columns, blank at 5 and 11, is three boxes. */
  lemma ThreeRuns(a: seq<bool>)
    requires |a| == 13
    requires forall k :: 0 <= k < 13 ==> (a[k] <==> k != 5 && k != 11)
    ensures Segments(a) == [Span(0, 5), Span(6, 5), Span(12, 1)]
  {
    assert !a[5] && !a[11];
    TrueRunExact(a, 0, 5);
    TrueRunExact(a, 6, 11);
    TrueRunExact(a, 12, 13);
    assert Runs(a, 12) == [Span(12, 1)] + Runs(a, 13);
    assert Runs(a, 11) == Runs(a, 12);
    assert Runs(a, 6) == [Span(6, 5)] + Runs(a, 11);
    assert Runs(a, 5) == Runs(a, 6);
    assert Runs(a, 0) == [Span(0, 5)] + Runs(a, 5);
  }

  /** The one-bar image is a single box. */
  lemma OneBoxes()
    ensures ImageBoxes(One) == [Span(0, 1)]
  {
    OneClean();
    assert One[0][0] != ' ';
    assert HasInk(One, 0);
    SingleRun(ColumnSignal(One));
  }

  lemma OneShape()
    ensures Join('\n', One) == FourLinesCharacters.KnownChars[0].1
  {
    assert Join('\n', One[3..]) == "|";
    assert Join('\n', One[2..]) == "|\n|";
    assert Join('\n', One[1..]) == "|\n|\n|";
  }

  /** A padded block with a single box reads as that box's character. */
  lemma RecognizeSingleBox(b: seq<string>, span: Span, c: char)
    requires Padded(b) && ImageBoxes(b) == [span] && SpanFits(b, span)
    requires Resolve(b, span, DigitConfig()) == Some(c)
    ensures RecognizeBlock(b, DigitConfig()) == [c]
  {
    BoxesFit(b);
    var line := Classify(b, [span], DigitConfig());
    assert |line| == 1 && Resolve(b, span, DigitConfig()) == Some(line[0]);
  }

  /** The single box of the one-bar image resolves to '1'. */
  lemma OneGlyph()
    ensures SpanFits(One, Span(0, 1))
    ensures Resolve(One, Span(0, 1), DigitConfig()) == Some('1')
  {
    var span := Span(0, 1);
    assert One[0][0..1] == One[0] && One[1][0..1] == One[1];
    assert One[2][0..1] == One[2] && One[3][0..1] == One[3];
    SliceRows(One, span, One);
    OneShape();
    ResolveShape(One, span, One, 0);
  }

  /** The one-bar image read as a whole block. */
  lemma RecognizeOne()
    ensures RecognizeBlock(One, DigitConfig()) == "1"
  {
    OneClean();
    OneBoxes();
    OneGlyph();
    RecognizeSingleBox(One, Span(0, 1), '1');
  }

  /** A clean, padded group of four lines whose block reads as `line` parses to that one line. */
  lemma ParseGroupAs(lines: seq<string>, line: string)
    requires |lines| == 4 && Padded(lines)
    requires forall k :: 0 <= k < |lines| ==> |lines[k]| > 0 && '\t' !in lines[k]
    requires RecognizeBlock(lines, DigitConfig()) == line
    ensures Parse(lines, DigitConfig()) == Success([line])
  {
    ParseSingleGroup(lines);
  }

  /** Rows of one common width are padded, and that width is the longest. */
  lemma SameWidthPadded(block: seq<string>, w: nat)
    requires |block| > 0 && forall r :: 0 <= r < |block| ==> |block[r]| == w
    ensures Padded(block) && MaxLength(block) == w
  {
    PaddedWidth(block);
  }

  /** A group of four non-empty tab-free rows of one width. */
  lemma FourCleanRows(block: seq<string>, w: nat)
    requires |block| == 4 && w > 0
    requires |block[0]| == w && |block[1]| == w && |block[2]| == w && |block[3]| == w
    requires '\t' !in block[0] && '\t' !in block[1] && '\t' !in block[2] && '\t' !in block[3]
    ensures Padded(block) && MaxLength(block) == w
    ensures forall k :: 0 <= k < |block| ==> |block[k]| > 0 && '\t' !in block[k]
  {
    SameWidthPadded(block, w);
  }

  /** The one-bar image is a clean, padded group of four lines. */
  lemma OneClean()
    ensures |One| == 4 && Padded(One) && MaxLength(One) == 1
    ensures forall k :: 0 <= k < |One| ==> |One[k]| > 0 && '\t' !in One[k]
  {
    var b := One;
    assert |b[0]| == 1 && |b[1]| == 1 && |b[2]| == 1 && |b[3]| == 1;
    assert '\t' !in b[0] && '\t' !in b[1] && '\t' !in b[2] && '\t' !in b[3];
    FourCleanRows(b, 1);
  }

  lemma ParseOne()
    ensures Parse(One, DigitConfig()) == Success(["1"])
  {
    OneClean();
    RecognizeOne();
    ParseGroupAs(One, "1");
  }

  const FourImage: seq<string> := ["|   |", "|___|", "    |", "    |"]
  const FiveImage: seq<string> := ["-----", "|___ ", "    |", "____|"]
  const UnknownImage: seq<string> := ["#", "#", "#", "#"]

  /**
   * `b` draws the four, a blank column, the five, a blank column, and then `third`,
   * a glyph one column wide with ink in every row.
   */
  predicate FourFiveThen(b: seq<string>, third: seq<string>)
  {
    && |b| == 4 && |third| == 4
    && forall r :: 0 <= r < 4 ==>
         && |third[r]| == 1 && third[r][0] != ' ' && third[r][0] != '\t'
         && b[r] == FourImage[r] + " " + FiveImage[r] + " " + third[r]
  }

  /** The rows of the four and the five: five columns wide and free of tabs. */
  lemma FourFiveRows()
    ensures |FourImage| == 4 && |FiveImage| == 4
    ensures forall r :: 0 <= r < 4 ==> |FourImage[r]| == 5 && '\t' !in FourImage[r]
    ensures forall r :: 0 <= r < 4 ==> |FiveImage[r]| == 5 && '\t' !in FiveImage[r]
  {
    assert '\t' !in FourImage[0] && '\t' !in FourImage[1] && '\t' !in FourImage[2] && '\t' !in FourImage[3];
    assert '\t' !in FiveImage[0] && '\t' !in FiveImage[1] && '\t' !in FiveImage[2] && '\t' !in FiveImage[3];
  }

  /** The columns of one row: the four's, a space, the five's, a space, the third glyph's. */
  lemma RowColumns(x: string, y: string, z: string)
    requires |x| == 5 && |y| == 5 && |z| == 1
    ensures |x + " " + y + " " + z| == 13
    ensures (x + " " + y + " " + z)[5] == ' ' && (x + " " + y + " " + z)[11] == ' '
    ensures (x + " " + y + " " + z)[0..5] == x
    ensures (x + " " + y + " " + z)[6..11] == y
    ensures (x + " " + y + " " + z)[12..13] == z
  {
    var row := x + " " + y + " " + z;
    assert row == x + (" " + (y + (" " + z)));
  }

  /** Such a block is a clean, padded group of four lines, thirteen columns wide. */
  lemma FourFiveThenClean(b: seq<string>, third: seq<string>)
    requires FourFiveThen(b, third)
    ensures Padded(b) && MaxLength(b) == 13
    ensures forall k :: 0 <= k < |b| ==> |b[k]| > 0 && '\t' !in b[k]
  {
    FourFiveRows();
    forall r | 0 <= r < 4 ensures |b[r]| == 13 && '\t' !in b[r] {
      RowColumns(FourImage[r], FiveImage[r], third[r]);
      assert '\t' !in third[r];
    }
    FourCleanRows(b, 13);
  }

  /** Such a block has three boxes: the four, the five and the third glyph. */
  lemma FourFiveThenBoxes(b: seq<string>, third: seq<string>)
    requires FourFiveThen(b, third)
    ensures ImageBoxes(b) == [Span(0, 5), Span(6, 5), Span(12, 1)]
  {
    FourFiveThenClean(b, third);
    FourFiveRows();
    forall r | 0 <= r < 4 ensures b[r][5] == ' ' && b[r][11] == ' ' {
      RowColumns(FourImage[r], FiveImage[r], third[r]);
    }
    RowColumns(FourImage[0], FiveImage[0], third[0]);
    RowColumns(FourImage[1], FiveImage[1], third[1]);
    var row0, row1 := b[0], b[1];
    forall c | 0 <= c < 13 ensures HasInk(b, c) <==> c != 5 && c != 11 {
      if c == 5 || c == 11 {
        assert b[0][c] == ' ' && b[1][c] == ' ' && b[2][c] == ' ' && b[3][c] == ' ';
      } else if c < 5 {
        assert row1[c] == row1[0..5][c] == FourImage[1][c];
      } else if c < 11 {
        assert row0[c] == row0[6..11][c - 6] == FiveImage[0][c - 6];
      } else {
        assert row0[c] == row0[12..13][0] == third[0][0];
      }
    }
    ThreeRuns(ColumnSignal(b));
  }

  /** The three boxes of such a block are the four, the five and the third glyph. */
  lemma FourFiveThenSlices(b: seq<string>, third: seq<string>)
    requires FourFiveThen(b, third)
    ensures SpanFits(b, Span(0, 5)) && SpanFits(b, Span(6, 5)) && SpanFits(b, Span(12, 1))
    ensures Slice(b, Span(0, 5)) == FourImage
    ensures Slice(b, Span(6, 5)) == FiveImage
    ensures Slice(b, Span(12, 1)) == third
  {
    FourFiveRows();
    forall r | 0 <= r < 4
      ensures |b[r]| == 13 && b[r][0..5] == FourImage[r]
      ensures b[r][6..11] == FiveImage[r] && b[r][12..13] == third[r]
    {
      RowColumns(FourImage[r], FiveImage[r], third[r]);
    }
    SliceRows(b, Span(0, 5), FourImage);
    SliceRows(b, Span(6, 5), FiveImage);
    SliceRows(b, Span(12, 1), third);
  }

  lemma FourShape()
    ensures Join('\n', FourImage) == FourLinesCharacters.KnownChars[3].1
  {
    assert Join('\n', FourImage[3..]) == "    |";
    assert Join('\n', FourImage[2..]) == "    |\n    |";
    assert Join('\n', FourImage[1..]) == "|___|\n    |\n    |";
  }

  lemma FiveShape()
    ensures Join('\n', FiveImage) == FourLinesCharacters.KnownChars[4].1
  {
    assert Join('\n', FiveImage[3..]) == "____|";
    assert Join('\n', FiveImage[2..]) == "    |\n____|";
    assert Join('\n', FiveImage[1..]) == "|___ \n    |\n____|";
  }

  /** A column of '#' is no catalog shape: every shape starts with another character. */
  lemma UnknownShape()
    ensures forall i :: 0 <= i < |FourLinesCharacters.KnownChars| ==>
      FourLinesCharacters.KnownChars[i].1 != Join('\n', UnknownImage)
  {
    assert Join('\n', UnknownImage[3..]) == "#";
    assert Join('\n', UnknownImage[2..]) == "#\n#";
    assert Join('\n', UnknownImage[1..]) == "#\n#\n#";
    var joined := Join('\n', UnknownImage);
    assert joined[0] == '#';
    forall i | 0 <= i < |FourLinesCharacters.KnownChars|
      ensures FourLinesCharacters.KnownChars[i].1 != joined
    {
      assert FourLinesCharacters.KnownChars[i].1[0] != '#';
    }
  }

  /** With a fallback configured, three boxes that resolve to three characters give those three, in order. */
  lemma ClassifyThree(block: seq<string>, spans: seq<Span>, config: ParserConfiguration, line: string)
    requires SpansFit(block, spans) && |spans| == 3 && config.unknownDetectedCharacter.Some?
    requires |line| == 3
    requires forall k :: 0 <= k < 3 ==> Resolve(block, spans[k], config) == Some(line[k])
    ensures Classify(block, spans, config) == line
  {
    var got := Classify(block, spans, config);
    assert |got| == 3;
    forall k | 0 <= k < 3 ensures got[k] == line[k] {
      assert Resolve(block, spans[k], config) == Some(got[k]);
    }
  }

  /** The first two boxes of such a block resolve to '4' and '5'. */
  lemma FourFiveThenGlyphs(b: seq<string>, third: seq<string>)
    requires FourFiveThen(b, third)
    ensures SpanFits(b, Span(0, 5)) && SpanFits(b, Span(6, 5))
    ensures Resolve(b, Span(0, 5), DigitConfig()) == Some('4')
    ensures Resolve(b, Span(6, 5), DigitConfig()) == Some('5')
  {
    FourFiveThenSlices(b, third);
    FourShape();
    ResolveShape(b, Span(0, 5), FourImage, 3);
    FiveShape();
    ResolveShape(b, Span(6, 5), FiveImage, 4);
  }

  /** A padded block with three boxes reads as the three characters they resolve to. */
  lemma RecognizeThreeBoxes(b: seq<string>, line: string)
    requires Padded(b) && ImageBoxes(b) == [Span(0, 5), Span(6, 5), Span(12, 1)] && |line| == 3
    requires SpanFits(b, Span(0, 5)) && SpanFits(b, Span(6, 5)) && SpanFits(b, Span(12, 1))
    requires Resolve(b, Span(0, 5), DigitConfig()) == Some(line[0])
    requires Resolve(b, Span(6, 5), DigitConfig()) == Some(line[1])
    requires Resolve(b, Span(12, 1), DigitConfig()) == Some(line[2])
    ensures RecognizeBlock(b, DigitConfig()) == line
  {
    BoxesFit(b);
    ClassifyThree(b, [Span(0, 5), Span(6, 5), Span(12, 1)], DigitConfig(), line);
  }

  /** A four, a five and a third glyph that resolves to `c` read as "45" followed by `c`. */
  lemma RecognizeFourFiveThen(b: seq<string>, third: seq<string>, c: char)
    requires FourFiveThen(b, third) && SpanFits(b, Span(12, 1))
    requires Resolve(b, Span(12, 1), DigitConfig()) == Some(c)
    ensures RecognizeBlock(b, DigitConfig()) == ['4', '5', c]
  {
    FourFiveThenClean(b, third);
    FourFiveThenBoxes(b, third);
    FourFiveThenGlyphs(b, third);
    RecognizeThreeBoxes(b, ['4', '5', c]);
  }

  /** The four-five-unknown image is a four and a five followed by the '#' column. */
  lemma FourFiveUnknownLayout()
    ensures FourFiveThen(FourFiveUnknown, UnknownImage)
  {
    assert FourFiveUnknown[0] == FourImage[0] + " " + FiveImage[0] + " " + UnknownImage[0];
    assert FourFiveUnknown[1] == FourImage[1] + " " + FiveImage[1] + " " + UnknownImage[1];
    assert FourFiveUnknown[2] == FourImage[2] + " " + FiveImage[2] + " " + UnknownImage[2];
    assert FourFiveUnknown[3] == FourImage[3] + " " + FiveImage[3] + " " + UnknownImage[3];
  }

  /** The four-five-one image is a four and a five followed by the one-bar glyph. */
  lemma FourFiveOneLayout()
    ensures FourFiveThen(FourFiveOne, One)
  {
    assert FourFiveOne[0] == FourImage[0] + " " + FiveImage[0] + " " + One[0];
    assert FourFiveOne[1] == FourImage[1] + " " + FiveImage[1] + " " + One[1];
    assert FourFiveOne[2] == FourImage[2] + " " + FiveImage[2] + " " + One[2];
    assert FourFiveOne[3] == FourImage[3] + " " + FiveImage[3] + " " + One[3];
  }

  lemma RecognizeFourFiveUnknown()
    ensures RecognizeBlock(FourFiveUnknown, DigitConfig()) == "45X"
  {
    var b := FourFiveUnknown;
    FourFiveUnknownLayout();
    FourFiveThenSlices(b, UnknownImage);
    UnknownShape();
    ResolveUnknown(b, Span(12, 1), UnknownImage);
    RecognizeFourFiveThen(b, UnknownImage, 'X');
  }

  lemma RecognizeFourFiveOne()
    ensures RecognizeBlock(FourFiveOne, DigitConfig()) == "451"
  {
    var b := FourFiveOne;
    FourFiveOneLayout();
    FourFiveThenSlices(b, One);
    OneShape();
    ResolveShape(b, Span(12, 1), One, 0);
    RecognizeFourFiveThen(b, One, '1');
  }

  /** One group of a four, a five and an unknown glyph reads as "45X". */
  lemma ParseFourFiveUnknown()
    ensures Parse(FourFiveUnknown, DigitConfig()) == Success(["45X"])
  {
    FourFiveUnknownLayout();
    FourFiveThenClean(FourFiveUnknown, UnknownImage);
    RecognizeFourFiveUnknown();
    ParseGroupAs(FourFiveUnknown, "45X");
  }

  /** One group of a four, a five and a one reads as "451". */
  lemma ParseFourFiveOne()
    ensures Parse(FourFiveOne, DigitConfig()) == Success(["451"])
  {
    FourFiveOneLayout();
    FourFiveThenClean(FourFiveOne, One);
    RecognizeFourFiveOne();
    ParseGroupAs(FourFiveOne, "451");
  }

  /** A file that parses, written twice, parses to its lines twice. */
  lemma ParseRepeated(raw: seq<string>, config: ParserConfiguration, out: seq<string>)
    requires config.lineHeight > 0 && Parse(raw, config) == Success(out)
    ensures Parse(raw + raw, config) == Success(out + out)
  {
    assert |Normalize(raw)| % config.lineHeight == 0;
    ParseIndependentGroups(raw, raw, config);
  }

  /** Two four-five-one groups read as two lines, each group on its own. */
  lemma ParseTwoGroups()
    ensures Parse(FourFiveOne + FourFiveOne, DigitConfig()) == Success(["451", "451"])
  {
    ParseFourFiveOne();
    ParseRepeated(FourFiveOne, DigitConfig(), ["451"]);
    assert ["451"] + ["451"] == ["451", "451"];
  }

  /** Five lines are not a whole number of four-line groups. */
  lemma ParseRejectsFiveLines()
    ensures Parse(One + ["|"], DigitConfig()) == Failure(LineCountNotMultiple(4))
  {
    var raw := One + ["|"];
    NormalizeKeepsCleanLines(raw);
  }
}
