/**
 * The block recognizer (NumberParser/FileParser.cs). Normalized lines are grouped
 * into blocks of `lineHeight` rows, each block is right-padded to its longest row,
 * the columns holding ink are cut into maximal runs, and each run's sub-image is
 * classified; the characters of one block form one output line.
 */
module FileParser {
  import opened Wrappers
  import opened Text
  import StringCleaner

  /** `ParserConfiguration`: glyph height, detection delegate and the optional fallback character. */
  datatype ParserConfiguration = ParserConfiguration(
    lineHeight: int,
    detectionAlgorithm: seq<string> -> Option<char>,
    unknownDetectedCharacter: Option<char>)

  /** The `ArgumentException` raised when the line count is wrong. */
  datatype ParseError = LineCountNotMultiple(lineHeight: nat)
  {
    function Message(): string
    {
      LineCountWords + " in the file must be a multiple of " + NatToString(lineHeight)
    }
  }

  const LineCountWords: string := "The number of lines with content"

  /** The decimal digits of `n`, most significant first, as string interpolation writes an `int`. */
  function NatToString(n: nat): (s: string)
    ensures |s| > 0 && IsDecimal(s)
    ensures DecimalValue(s) == n
    decreases n
  {
    var digit := ['0' + (n % 10) as char];
    if n < 10 then digit
    else
      var prefix := NatToString(n / 10);
      assert (prefix + digit)[..|prefix|] == prefix;
      prefix + digit
  }

  predicate IsDecimal(s: string)
  {
    forall k :: 0 <= k < |s| ==> '0' <= s[k] <= '9'
  }

  /** The number a string of decimal digits denotes. */
  function DecimalValue(s: string): nat
    requires IsDecimal(s)
  {
    if |s| == 0 then 0
    else DecimalValue(s[..|s| - 1]) * 10 + (s[|s| - 1] - '0') as nat
  }

  /** The message starts with the words the line-count test looks for. */
  lemma MessageStart(e: ParseError)
    ensures "The number of lines with content" <= e.Message()
  {
    var rest := " in the file must be a multiple of " + NatToString(e.lineHeight);
    assert e.Message() == LineCountWords + rest;
    assert (LineCountWords + rest)[..|LineCountWords|] == LineCountWords;
  }



  /** A glyph range: `(StartPos, Width)`. */
  datatype Span = Span(start: nat, width: nat)
  {
    function End(): nat { start + width }
  }

  // ---------------------------------------------------------------------------
  // Run segmentation (FindChars)
  // ---------------------------------------------------------------------------

  /** The number of consecutive `true` entries from index `i` on. */
  function TrueRun(a: seq<bool>, i: nat): (w: nat)
    requires i <= |a|
    ensures i + w <= |a|
    ensures forall k :: i <= k < i + w ==> a[k]
    ensures i + w == |a| || !a[i + w]
    decreases |a| - i
  {
    if i == |a| || !a[i] then 0 else 1 + TrueRun(a, i + 1)
  }

  /** Reference definition: the maximal runs of `true` in `a[i..]`, scanning left to right. */
  function Runs(a: seq<bool>, i: nat): seq<Span>
    requires i <= |a|
    decreases |a| - i
  {
    if i == |a| then []
    else if !a[i] then Runs(a, i + 1)
    else
      var w := TrueRun(a, i);
      assert w > 0;
      [Span(i, w)] + Runs(a, i + w)
  }

  /** The maximal runs of `true` in `a`. */
  function Segments(a: seq<bool>): seq<Span>
  {
    Runs(a, 0)
  }

  /** Column `j` lies inside one of the spans. */
  predicate Covered(spans: seq<Span>, j: int)
  {
    exists k :: 0 <= k < |spans| && spans[k].start <= j < spans[k].End()
  }

  /** Mark the `n` columns: `true` where a span covers the column, `false` elsewhere. */
  function Mark(spans: seq<Span>, n: nat): (m: seq<bool>)
    ensures |m| == n
    ensures forall j :: 0 <= j < n ==> (m[j] <==> Covered(spans, j))
  {
    seq(n, j => Covered(spans, j))
  }

  /** The runs of `a[i..]` are non-empty and lie inside `a[i..]`. */
  lemma {:induction false} RunsInside(a: seq<bool>, i: nat)
    requires i <= |a|
    ensures forall k :: 0 <= k < |Runs(a, i)| ==>
      0 < Runs(a, i)[k].width && i <= Runs(a, i)[k].start && Runs(a, i)[k].End() <= |a|
    decreases |a| - i
  {
    if i < |a| {
      if !a[i] {
        RunsInside(a, i + 1);
      } else {
        RunsInside(a, i + TrueRun(a, i));
      }
    }
  }

  /** A column of `a[i..]` is `true` exactly when a run covers it. */
  lemma {:induction false} RunsCover(a: seq<bool>, i: nat)
    requires i <= |a|
    ensures forall j :: i <= j < |a| ==> (a[j] <==> Covered(Runs(a, i), j))
    decreases |a| - i
  {
    var r := Runs(a, i);
    RunsInside(a, i);
    if i == |a| {
    } else if !a[i] {
      RunsCover(a, i + 1);
      RunsInside(a, i + 1);
      assert r == Runs(a, i + 1);
      assert !Covered(r, i);
    } else {
      var w := TrueRun(a, i);
      var rest := Runs(a, i + w);
      RunsCover(a, i + w);
      RunsInside(a, i + w);
      assert r == [Span(i, w)] + rest;
      forall j | i <= j < |a| ensures a[j] <==> Covered(r, j) {
        if j < i + w {
          assert r[0].start <= j < r[0].End();
        } else {
          if Covered(rest, j) {
            var k :| 0 <= k < |rest| && rest[k].start <= j < rest[k].End();
            assert r[k + 1] == rest[k];
          }
          if Covered(r, j) {
            var k :| 0 <= k < |r| && r[k].start <= j < r[k].End();
            assert k > 0 ==> r[k] == rest[k - 1];
          }
        }
      }
    }
  }

  /** The runs after a run of `true` start beyond the `false` entry that ends it. */
  lemma RestAfterRun(a: seq<bool>, i: nat, j: nat)
    requires i < |a| && a[i] && j == i + TrueRun(a, i)
    ensures forall k :: 0 <= k < |Runs(a, j)| ==> j < Runs(a, j)[k].start
  {
    var rest := Runs(a, j);
    RunsInside(a, j);
    RunsCover(a, j);
    forall k | 0 <= k < |rest| ensures j < rest[k].start {
      assert Covered(rest, rest[k].start);
    }
  }

  /** The runs of `a[i..]` are in strictly increasing order with a gap between neighbours. */
  lemma {:induction false} RunsOrdered(a: seq<bool>, i: nat)
    requires i <= |a|
    ensures forall k, l :: 0 <= k < l < |Runs(a, i)| ==> Runs(a, i)[k].End() < Runs(a, i)[l].start
    decreases |a| - i
  {
    var r := Runs(a, i);
    if i == |a| {
    } else if !a[i] {
      RunsOrdered(a, i + 1);
      assert r == Runs(a, i + 1);
    } else {
      var w := TrueRun(a, i);
      var rest := Runs(a, i + w);
      RunsOrdered(a, i + w);
      RestAfterRun(a, i, i + w);
      assert r == [Span(i, w)] + rest;
      forall k, l | 0 <= k < l < |r| ensures r[k].End() < r[l].start {
        assert r[l] == rest[l - 1];
        if k > 0 {
          assert r[k] == rest[k - 1];
        }
      }
    }
  }

  /**
   * The runs of `a[i..]` are maximal: the entry before a run (when inside `a[i..]`)
   * and the entry after it are `false`.
   */
  lemma {:induction false} RunsMaximal(a: seq<bool>, i: nat)
    requires i <= |a|
    ensures forall k :: 0 <= k < |Runs(a, i)| ==>
      && 0 < Runs(a, i)[k].width && i <= Runs(a, i)[k].start && Runs(a, i)[k].End() <= |a|
      && (Runs(a, i)[k].start == i || !a[Runs(a, i)[k].start - 1])
      && (Runs(a, i)[k].End() == |a| || !a[Runs(a, i)[k].End()])
    decreases |a| - i
  {
    var r := Runs(a, i);
    if i == |a| {
    } else if !a[i] {
      RunsMaximal(a, i + 1);
      assert r == Runs(a, i + 1);
    } else {
      var w := TrueRun(a, i);
      var rest := Runs(a, i + w);
      RunsMaximal(a, i + w);
      RestAfterRun(a, i, i + w);
      assert r == [Span(i, w)] + rest;
      forall k | 0 < k < |r| ensures i < r[k].start && !a[r[k].start - 1] {
        assert r[k] == rest[k - 1];
      }
    }
  }

  /** Every span is non-empty and lies inside the signal; no signal, no spans. */
  lemma SegmentsBounds(a: seq<bool>)
    ensures forall k :: 0 <= k < |Segments(a)| ==> Segments(a)[k].width > 0 && Segments(a)[k].End() <= |a|
    ensures |a| == 0 ==> Segments(a) == []
  {
    RunsInside(a, 0);
  }

  /**
   * Spans come in strictly increasing order with a gap between neighbours, and they
   * are maximal: the entry just before and just after a span is `false` or outside.
   */
  lemma SegmentsOrderedMaximal(a: seq<bool>)
    ensures forall k, l :: 0 <= k < l < |Segments(a)| ==> Segments(a)[k].End() < Segments(a)[l].start
    ensures forall k :: 0 <= k < |Segments(a)| ==>
      && Segments(a)[k].width > 0 && Segments(a)[k].End() <= |a|
      && (Segments(a)[k].start == 0 || !a[Segments(a)[k].start - 1])
      && (Segments(a)[k].End() == |a| || !a[Segments(a)[k].End()])
  {
    RunsOrdered(a, 0);
    RunsMaximal(a, 0);
    assert Segments(a) == Runs(a, 0);
  }

  /** Marking the covered columns gives back exactly the signal. */
  lemma SegmentsReconstruct(a: seq<bool>)
    ensures Mark(Segments(a), |a|) == a
  {
    RunsCover(a, 0);
  }

  /** A run of `false` entries is skipped without producing spans. */
  lemma SkipFalse(a: seq<bool>, i: nat, j: nat)
    requires i <= j <= |a|
    requires forall k :: i <= k < j ==> !a[k]
    ensures Runs(a, i) == Runs(a, j)
    decreases j - i
  {
    if i < j {
      SkipFalse(a, i + 1, j);
    }
  }

  /** A run of `true` entries ending at `j` has length `j - i`. */
  lemma TrueRunExact(a: seq<bool>, i: nat, j: nat)
    requires i <= j <= |a|
    requires forall k :: i <= k < j ==> a[k]
    requires j == |a| || !a[j]
    ensures TrueRun(a, i) == j - i
    decreases j - i
  {
    if i < j {
      TrueRunExact(a, i + 1, j);
    }
  }

  /** `FindChars`: one pass tracking the current value and where its run started. */
  method FindChars(signal: seq<bool>) returns (spans: seq<Span>)
    ensures spans == Segments(signal)
  {
    spans := [];
    if |signal| == 0 {
      return;
    }
    var current := signal[0];
    var start := 0;
    for i := 1 to |signal|
      invariant 0 <= start < i
      invariant forall k :: start <= k < i ==> signal[k] == current
      invariant start == 0 || signal[start - 1] != current
      invariant spans + Runs(signal, start) == Segments(signal)
    {
      if signal[i] != current {
        if current {
          TrueRunExact(signal, start, i);
          spans := spans + [Span(start, i - start)];
        } else {
          SkipFalse(signal, start, i);
        }
        current := signal[i];
        start := i;
      }
    }
    if current {
      TrueRunExact(signal, start, |signal|);
      spans := spans + [Span(start, |signal| - start)];
    } else {
      SkipFalse(signal, start, |signal|);
    }
  }

  // ---------------------------------------------------------------------------
  // Column signal (FindDataColumns)
  // ---------------------------------------------------------------------------

  /** `rows.Max(line => line.Length)`; `Max` of no rows throws, so at least one row is needed. */
  function MaxLength(rows: seq<string>): (m: nat)
    requires |rows| > 0
    ensures forall i :: 0 <= i < |rows| ==> |rows[i]| <= m
    ensures exists i :: 0 <= i < |rows| && |rows[i]| == m
  {
    if |rows| == 1 then |rows[0]|
    else
      var rest := MaxLength(rows[1..]);
      assert forall i :: 1 <= i < |rows| ==> rows[i] == rows[1..][i - 1];
      if |rows[0]| >= rest then |rows[0]| else rest
  }

  /** Some line is longer than `c` and holds a non-space at column `c`. */
  predicate HasInk(lines: seq<string>, c: int)
  {
    exists l :: 0 <= l < |lines| && 0 <= c < |lines[l]| && lines[l][c] != ' '
  }

  /** The column signal of a block: one entry per column up to the longest line. */
  function ColumnSignal(lines: seq<string>): seq<bool>
    requires |lines| > 0
  {
    seq(MaxLength(lines), c => HasInk(lines, c))
  }

  /** `FindDataColumns(lines, firstLineNo, lastLineNo)`: the column signal of the lines in that range. */
  method FindDataColumns(lines: seq<string>, firstLineNo: int, lastLineNo: int) returns (cols: seq<bool>)
    requires 0 <= firstLineNo <= lastLineNo < |lines|
    ensures cols == ColumnSignal(lines[firstLineNo..lastLineNo + 1])
    ensures |cols| == MaxLength(lines[firstLineNo..lastLineNo + 1])
    ensures forall c :: 0 <= c < |cols| ==>
      (cols[c] <==> exists l :: firstLineNo <= l <= lastLineNo && c < |lines[l]| && lines[l][c] != ' ')
  {
    var range := lines[firstLineNo..lastLineNo + 1];
    var maxLineLength := MaxLength(range);
    cols := [];
    for colNr := 0 to maxLineLength
      invariant |cols| == colNr
      invariant forall c :: 0 <= c < colNr ==> cols[c] == HasInk(range, c)
    {
      var anyChar := exists l :: 0 <= l < |range| && 0 <= colNr < |range[l]| && range[l][colNr] != ' ';
      cols := cols + [anyChar];
    }
    forall c | 0 <= c < |cols|
      ensures cols[c] <==> exists l :: firstLineNo <= l <= lastLineNo && c < |lines[l]| && lines[l][c] != ' '
    {
      if cols[c] {
        var l :| 0 <= l < |range| && 0 <= c < |range[l]| && range[l][c] != ' ';
        assert range[l] == lines[firstLineNo + l];
      }
      if exists l :: firstLineNo <= l <= lastLineNo && c < |lines[l]| && lines[l][c] != ' ' {
        var l :| firstLineNo <= l <= lastLineNo && c < |lines[l]| && lines[l][c] != ' ';
        assert range[l - firstLineNo] == lines[l];
      }
    }
  }

  // ---------------------------------------------------------------------------
  // Chunking and padding
  // ---------------------------------------------------------------------------

  /** Every row has the width of the first, so the block is a rectangle. */
  predicate Padded(block: seq<string>)
  {
    |block| > 0 && forall r :: 0 <= r < |block| ==> |block[r]| == |block[0]|
  }

  /** In a padded block the common width is the longest row's. */
  lemma PaddedWidth(block: seq<string>)
    requires Padded(block)
    ensures MaxLength(block) == |block[0]|
    ensures forall r :: 0 <= r < |block| ==> |block[r]| == MaxLength(block)
  {
    var m := MaxLength(block);
    var i :| 0 <= i < |block| && |block[i]| == m;
  }

  /** `chunk.Select(line => line.PadRight(maxLineLength, ' '))`. */
  function PadBlock(chunk: seq<string>): (block: seq<string>)
    requires |chunk| > 0
    ensures |block| == |chunk| && Padded(block)
  {
    var m := MaxLength(chunk);
    var block := seq(|chunk|, r requires 0 <= r < |chunk| => PadRight(chunk[r], m));
    assert forall r :: 0 <= r < |chunk| ==> |block[r]| == m;
    block
  }

  /** Padding appends spaces to each row up to the longest row. */
  lemma PadBlockRows(chunk: seq<string>)
    requires |chunk| > 0
    ensures forall r :: 0 <= r < |chunk| ==>
      PadBlock(chunk)[r] == chunk[r] + Spaces(MaxLength(chunk) - |chunk[r]|)
  {
    forall r | 0 <= r < |chunk| ensures PadBlock(chunk)[r] == chunk[r] + Spaces(MaxLength(chunk) - |chunk[r]|) {
      PadBlockRow(chunk, r);
    }
  }

  lemma PadBlockRow(chunk: seq<string>, r: nat)
    requires r < |chunk|
    ensures PadBlock(chunk)[r] == chunk[r] + Spaces(MaxLength(chunk) - |chunk[r]|)
  {
    var m, row := MaxLength(chunk), chunk[r];
    assert PadBlock(chunk)[r] == PadRight(row, m);
    PadRightAppends(row, m);
  }

  /** Padding keeps the width of the longest row. */
  lemma PadBlockWidth(chunk: seq<string>)
    requires |chunk| > 0
    ensures MaxLength(PadBlock(chunk)) == MaxLength(chunk)
  {
    var m := MaxLength(chunk);
    var block := PadBlock(chunk);
    PaddedWidth(block);
    var i :| 0 <= i < |chunk| && |chunk[i]| == m;
    assert block[0] == PadRight(chunk[0], m);
  }

  /** All the rows of the groups, in order. */
  function Concat(groups: seq<seq<string>>): seq<string>
  {
    if |groups| == 0 then [] else groups[0] + Concat(groups[1..])
  }

  /** A block whose rows already have equal length is left as it is by padding. */
  lemma PadBlockKeepsPadded(chunk: seq<string>)
    requires Padded(chunk)
    ensures PadBlock(chunk) == chunk
  {
    var block := PadBlock(chunk);
    PadBlockRows(chunk);
    PaddedWidth(chunk);
    PadBlockWidth(chunk);
    forall r | 0 <= r < |chunk| ensures block[r] == chunk[r] {
      assert Spaces(0) == "";
    }
  }

  /**
   * `lines.Chunk(h)`: consecutive groups of `h` lines, the last one shorter when `h`
   * does not divide the line count.
   */
  function Chunk(lines: seq<string>, h: nat): (chunks: seq<seq<string>>)
    requires h > 0
    ensures forall k :: 0 <= k < |chunks| ==> 0 < |chunks[k]| <= h
    decreases |lines|
  {
    if |lines| == 0 then []
    else if |lines| <= h then [lines]
    else
      var rest := Chunk(lines[h..], h);
      assert forall k :: 1 <= k < |rest| + 1 ==> ([lines[..h]] + rest)[k] == rest[k - 1];
      [lines[..h]] + rest
  }

  /** Together the chunks are exactly the lines, in order. */
  lemma {:induction false} ChunkConcat(lines: seq<string>, h: nat)
    requires h > 0
    ensures Concat(Chunk(lines, h)) == lines
    decreases |lines|
  {
    if |lines| == 0 {
    } else if |lines| <= h {
      assert Concat([lines]) == lines + Concat([]);
    } else {
      var rest := Chunk(lines[h..], h);
      ChunkConcat(lines[h..], h);
      var chunks := [lines[..h]] + rest;
      assert chunks[1..] == rest;
      assert lines == lines[..h] + lines[h..];
    }
  }

  /** With a line count that `h` divides, there are `|lines| / h` chunks of exactly `h` lines. */
  lemma {:induction false} ChunkCount(lines: seq<string>, h: nat)
    requires h > 0 && |lines| % h == 0
    ensures |Chunk(lines, h)| == |lines| / h
    ensures forall k :: 0 <= k < |Chunk(lines, h)| ==> |Chunk(lines, h)[k]| == h
    decreases |lines|
  {
    var n := |lines|;
    if n == 0 {
    } else if n <= h {
      ModBelow(n, h);
      assert n / h == 1;
    } else {
      ModSub(n, h);
      var rest := lines[h..];
      ChunkCount(rest, h);
      var chunks := Chunk(lines, h);
      assert chunks == [lines[..h]] + Chunk(rest, h);
      forall k | 0 <= k < |chunks| ensures |chunks[k]| == h {
        if k > 0 { assert chunks[k] == Chunk(rest, h)[k - 1]; }
      }
    }
  }

  /** The chunks, each right-padded to its own longest line: the blocks handed to recognition. */
  function ImageLines(lines: seq<string>, h: nat): (blocks: seq<seq<string>>)
    requires h > 0
    ensures |blocks| == |Chunk(lines, h)|
    ensures forall k :: 0 <= k < |blocks| ==> Padded(blocks[k]) && |blocks[k]| == |Chunk(lines, h)[k]|
  {
    var chunks := Chunk(lines, h);
    seq(|chunks|, k requires 0 <= k < |chunks| => PadBlock(chunks[k]))
  }

  /** Chunking a whole number of groups followed by more lines chunks the two separately. */
  lemma {:induction false} ChunkAppend(l1: seq<string>, l2: seq<string>, h: nat)
    requires h > 0 && |l1| % h == 0
    ensures Chunk(l1 + l2, h) == Chunk(l1, h) + Chunk(l2, h)
    decreases |l1|
  {
    var n := |l1|;
    if n == 0 {
      assert l1 + l2 == l2;
    } else if n <= h {
      ModBelow(n, h);
      assert (l1 + l2)[..h] == l1 && (l1 + l2)[h..] == l2;
      if |l2| == 0 { assert l1 + l2 == l1; }
    } else {
      ModSub(n, h);
      ChunkAppend(l1[h..], l2, h);
      assert (l1 + l2)[..h] == l1[..h];
      assert (l1 + l2)[h..] == l1[h..] + l2;
    }
  }

  /** Adding a multiple of `h` does not change the remainder. */
  lemma ModAddMultiple(n1: nat, n2: nat, h: nat)
    requires h > 0 && n1 % h == 0
    ensures (n1 + n2) % h == n2 % h
  {
    var q1, q2, r2 := n1 / h, n2 / h, n2 % h;
    assert n1 == q1 * h;
    assert n2 == q2 * h + r2;
    assert n1 + n2 == (q1 + q2) * h + r2;
    DivModUnique(n1 + n2, h, q1 + q2, r2);
  }

  /** Below the modulus, a multiple is zero. */
  lemma ModBelow(n: nat, h: nat)
    requires 0 < n <= h
    ensures n % h == 0 ==> n == h
  {
    if n < h {
      assert n % h == n;
    }
  }

  /** Taking `h` away from a count leaves its remainder and lowers its quotient by one. */
  lemma ModSub(n: nat, h: nat)
    requires 0 < h <= n
    ensures (n - h) % h == n % h
    ensures (n - h) / h == n / h - 1
  {
    var q, r := n / h, n % h;
    assert n == q * h + r;
    assert n - h == (q - 1) * h + r;
    DivModUnique(n - h, h, q - 1, r);
  }

  /** Euclidean division is determined by its equation and the range of the remainder. */
  lemma DivModUnique(n: int, h: int, q: int, r: int)
    requires h > 0 && 0 <= r < h && n == q * h + r
    ensures n / h == q && n % h == r
  {
    var q', r' := n / h, n % h;
    assert n == q' * h + r';
    assert (q - q') * h == r' - r;
    if q > q' {
      MulAtLeast(q - q', h);
    } else if q < q' {
      MulAtLeast(q' - q, h);
    }
  }

  /** A positive multiple of `h` is at least `h`. */
  lemma MulAtLeast(d: int, h: int)
    requires d >= 1 && h >= 0
    ensures d * h >= h
    decreases d
  {
    if d > 1 {
      MulAtLeast(d - 1, h);
      assert d * h == (d - 1) * h + h;
    }
  }

  // ---------------------------------------------------------------------------
  // Recognition of one block, and of the whole input
  // ---------------------------------------------------------------------------

  /** The span lies inside every row of the block. */
  predicate SpanFits(block: seq<string>, span: Span)
  {
    forall r :: 0 <= r < |block| ==> span.End() <= |block[r]|
  }

  predicate SpansFit(block: seq<string>, spans: seq<Span>)
  {
    forall k :: 0 <= k < |spans| ==> SpanFits(block, spans[k])
  }

  /** `line.Substring(StartPos, Width)` of every row: the glyph image. */
  function Slice(block: seq<string>, span: Span): (image: seq<string>)
    requires SpanFits(block, span)
    ensures |image| == |block|
    ensures forall r :: 0 <= r < |block| ==>
      |image[r]| == span.width && forall j :: 0 <= j < span.width ==> image[r][j] == block[r][span.start + j]
  {
    seq(|block|, r requires 0 <= r < |block| => block[r][span.start .. span.End()])
  }

  /** `DetectionAlgorithm(boxContent) ?? UnknownDetectedCharacter`. */
  function Resolve(block: seq<string>, span: Span, config: ParserConfiguration): Option<char>
    requires SpanFits(block, span)
  {
    match config.detectionAlgorithm(Slice(block, span))
    case Some(c) => Some(c)
    case None => config.unknownDetectedCharacter
  }

  /**
   * The characters of the spans, left to right: a resolved character is appended,
   * an unresolved one (no match and no fallback) is dropped.
   */
  function Classify(block: seq<string>, spans: seq<Span>, config: ParserConfiguration): (line: string)
    requires SpansFit(block, spans)
    ensures |line| <= |spans|
    ensures config.unknownDetectedCharacter.Some? ==>
      |line| == |spans| &&
      forall k :: 0 <= k < |spans| ==> Resolve(block, spans[k], config) == Some(line[k])
  {
    if |spans| == 0 then ""
    else
      var head := match Resolve(block, spans[0], config) case Some(c) => [c] case None => "";
      var tail := Classify(block, spans[1..], config);
      assert forall k :: 1 <= k < |spans| ==> spans[k] == spans[1..][k - 1];
      head + tail
  }

  /** Classification works span by span: the line for `s1 + s2` is the line for `s1` then for `s2`. */
  lemma {:induction false} ClassifyAppend(block: seq<string>, s1: seq<Span>, s2: seq<Span>, config: ParserConfiguration)
    requires SpansFit(block, s1) && SpansFit(block, s2)
    ensures SpansFit(block, s1 + s2)
    ensures Classify(block, s1 + s2, config) == Classify(block, s1, config) + Classify(block, s2, config)
  {
    SpansFitAppend(block, s1, s2);
    if |s1| > 0 {
      var t, s := s1[1..], s1 + s2;
      assert SpansFit(block, t);
      ClassifyAppend(block, t, s2, config);
      assert s[1..] == t + s2;
      assert s[0] == s1[0];
    } else {
      assert s1 + s2 == s2;
    }
  }

  lemma SpansFitAppend(block: seq<string>, s1: seq<Span>, s2: seq<Span>)
    requires SpansFit(block, s1) && SpansFit(block, s2)
    ensures SpansFit(block, s1 + s2)
  {
    forall k | 0 <= k < |s1 + s2| ensures SpanFits(block, (s1 + s2)[k]) {
      if k >= |s1| { assert (s1 + s2)[k] == s2[k - |s1|]; }
    }
  }


  /** `FindImageBoxes`, as a specification: the maximal ink runs of the block's columns. */
  function ImageBoxes(block: seq<string>): seq<Span>
    requires |block| > 0
  {
    Segments(ColumnSignal(block))
  }

  /** In a padded block every box lies inside every row, so every `Substring` is in bounds. */
  lemma BoxesFit(block: seq<string>)
    requires Padded(block)
    ensures SpansFit(block, ImageBoxes(block))
  {
    PaddedWidth(block);
    SegmentsBounds(ColumnSignal(block));
  }

  /** A column with no ink in any row lies inside no box. */
  lemma BlankColumnOutsideBoxes(block: seq<string>, c: nat)
    requires |block| > 0
    requires forall r :: 0 <= r < |block| && c < |block[r]| ==> block[r][c] == ' '
    ensures forall k :: 0 <= k < |ImageBoxes(block)| ==>
      !(ImageBoxes(block)[k].start <= c < ImageBoxes(block)[k].End())
  {
    var signal := ColumnSignal(block);
    SegmentsBounds(signal);
    SegmentsReconstruct(signal);
    if c < |signal| {
      assert !signal[c];
      assert !Mark(ImageBoxes(block), |signal|)[c];
    }
  }

  /** `FindImageBoxes(imageLines)`: signal over all rows, then the runs. */
  method FindImageBoxes(imageLines: seq<string>) returns (boxes: seq<Span>)
    requires |imageLines| > 0
    ensures boxes == ImageBoxes(imageLines)
  {
    var rowsWithData := FindDataColumns(imageLines, 0, |imageLines| - 1);
    assert imageLines[0..|imageLines|] == imageLines;
    boxes := FindChars(rowsWithData);
  }

  /** The output line of one padded block. */
  function RecognizeBlock(block: seq<string>, config: ParserConfiguration): string
    requires Padded(block)
  {
    BoxesFit(block);
    Classify(block, ImageBoxes(block), config)
  }

  /** One output line per block, each from its own block only. */
  function RecognizeAll(blocks: seq<seq<string>>, config: ParserConfiguration): seq<string>
    requires forall k :: 0 <= k < |blocks| ==> Padded(blocks[k])
  {
    seq(|blocks|, k requires 0 <= k < |blocks| => RecognizeBlock(blocks[k], config))
  }

  /**
   * The post-state of `ReadAndNormalize`: every line tab-expanded, then the empty
   * lines removed. Lines of spaces are kept.
   */
  function Normalize(raw: seq<string>): seq<string>
  {
    if |raw| == 0 then []
    else
      var line := StringCleaner.TabExpanded(raw[0]);
      (if |line| == 0 then [] else [line]) + Normalize(raw[1..])
  }

  /** Normalized lines are non-empty and hold no tab. */
  lemma {:induction false} NormalizeClean(raw: seq<string>)
    ensures forall k :: 0 <= k < |Normalize(raw)| ==> |Normalize(raw)[k]| > 0 && '\t' !in Normalize(raw)[k]
  {
    if |raw| > 0 {
      NormalizeClean(raw[1..]);
      StringCleaner.TabExpandedHasNoTab(raw[0]);
      var line := StringCleaner.TabExpanded(raw[0]);
      var head := if |line| == 0 then [] else [line];
      var rest := Normalize(raw[1..]);
      assert Normalize(raw) == head + rest;
      assert forall k :: |head| <= k < |head| + |rest| ==> (head + rest)[k] == rest[k - |head|];
    }
  }

  /** Lines that are non-empty and free of tabs come through normalization unchanged. */
  lemma {:induction false} NormalizeKeepsCleanLines(raw: seq<string>)
    requires forall k :: 0 <= k < |raw| ==> |raw[k]| > 0 && '\t' !in raw[k]
    ensures Normalize(raw) == raw
  {
    if |raw| > 0 {
      StringCleaner.TabFreeUnchanged(raw[0]);
      NormalizeKeepsCleanLines(raw[1..]);
      assert raw == [raw[0]] + raw[1..];
    }
  }

  /** Normalization works line by line. */
  lemma {:induction false} NormalizeAppend(raw1: seq<string>, raw2: seq<string>)
    ensures Normalize(raw1 + raw2) == Normalize(raw1) + Normalize(raw2)
  {
    if |raw1| > 0 {
      var raw := raw1 + raw2;
      NormalizeAppend(raw1[1..], raw2);
      assert raw[1..] == raw1[1..] + raw2;
      assert raw[0] == raw1[0];
      var line := StringCleaner.TabExpanded(raw1[0]);
      var head := if |line| == 0 then [] else [line];
      assert Normalize(raw) == head + Normalize(raw[1..]);
      assert Normalize(raw1) == head + Normalize(raw1[1..]);
    } else {
      assert raw1 + raw2 == raw2;
    }
  }

  /** `ParseFile` over already-read lines, as a specification. */
  function Parse(raw: seq<string>, config: ParserConfiguration): Result<seq<string>, ParseError>
    requires config.lineHeight > 0
  {
    var lines := Normalize(raw);
    if |lines| % config.lineHeight != 0 then Failure(LineCountNotMultiple(config.lineHeight))
    else Success(RecognizeAll(ImageLines(lines, config.lineHeight), config))
  }

  /**
   * A successful parse yields exactly one line per block of `lineHeight` lines, in
   * block order, each recognized from its own block alone.
   */
  lemma ParseLinePerBlock(raw: seq<string>, config: ParserConfiguration)
    requires config.lineHeight > 0
    ensures Parse(raw, config).Success? ==>
      var lines := Normalize(raw);
      var blocks := ImageLines(lines, config.lineHeight);
      && |Parse(raw, config).value| == |blocks| == |lines| / config.lineHeight
      && forall k :: 0 <= k < |blocks| ==> Parse(raw, config).value[k] == RecognizeBlock(blocks[k], config)
  {
    var lines := Normalize(raw);
    if |lines| % config.lineHeight == 0 {
      ChunkCount(lines, config.lineHeight);
    }
  }

  /**
   * Blocks are recognized independently: after a whole number of blocks, the rest of
   * the input parses (or fails) exactly as it would on its own.
   */
  lemma ParseIndependentGroups(raw1: seq<string>, raw2: seq<string>, config: ParserConfiguration)
    requires config.lineHeight > 0
    requires |Normalize(raw1)| % config.lineHeight == 0
    ensures Parse(raw1, config).Success?
    ensures Parse(raw1 + raw2, config) ==
      match Parse(raw2, config)
      case Failure(e) => Failure(e)
      case Success(out2) => Success(Parse(raw1, config).value + out2)
  {
    if |Normalize(raw2)| % config.lineHeight == 0 {
      ParseAppendWhole(raw1, raw2, config);
    } else {
      ParseAppendBroken(raw1, raw2, config);
    }
  }

  /** When the second file breaks the line count, so does the whole. */
  lemma ParseAppendBroken(raw1: seq<string>, raw2: seq<string>, config: ParserConfiguration)
    requires config.lineHeight > 0
    requires |Normalize(raw1)| % config.lineHeight == 0 && |Normalize(raw2)| % config.lineHeight != 0
    ensures Parse(raw2, config) == Failure(LineCountNotMultiple(config.lineHeight))
    ensures Parse(raw1 + raw2, config) == Failure(LineCountNotMultiple(config.lineHeight))
  {
    var h := config.lineHeight;
    var l1, l2, l := Normalize(raw1), Normalize(raw2), Normalize(raw1 + raw2);
    NormalizeAppend(raw1, raw2);
    var n1, n2, n := |l1|, |l2|, |l|;
    assert n == n1 + n2;
    ModAddMultiple(n1, n2, h);
    assert n % h == n2 % h;
  }


  /** Two files of whole groups each, parsed together, give the two outputs one after the other. */
  lemma ParseAppendWhole(raw1: seq<string>, raw2: seq<string>, config: ParserConfiguration)
    requires config.lineHeight > 0
    requires |Normalize(raw1)| % config.lineHeight == 0 && |Normalize(raw2)| % config.lineHeight == 0
    ensures Parse(raw1 + raw2, config) == Success(Parse(raw1, config).value + Parse(raw2, config).value)
  {
    var h := config.lineHeight;
    var l1, l2 := Normalize(raw1), Normalize(raw2);
    NormalizeAppend(raw1, raw2);
    ModAddMultiple(|l1|, |l2|, h);
    ImageLinesAppend(l1, l2, h);
    var b1, b2 := ImageLines(l1, h), ImageLines(l2, h);
    RecognizeAllAppend(b1, b2, config);
  }


  lemma ImageLinesAppend(l1: seq<string>, l2: seq<string>, h: nat)
    requires h > 0 && |l1| % h == 0
    ensures ImageLines(l1 + l2, h) == ImageLines(l1, h) + ImageLines(l2, h)
  {
    ChunkAppend(l1, l2, h);
    var c1, c2 := Chunk(l1, h), Chunk(l2, h);
    var cs := Chunk(l1 + l2, h);
    assert cs == c1 + c2;
    var b, b1, b2 := ImageLines(l1 + l2, h), ImageLines(l1, h), ImageLines(l2, h);
    assert |b| == |b1| + |b2|;
    forall k | 0 <= k < |b| ensures b[k] == (b1 + b2)[k] {
      assert b[k] == PadBlock(cs[k]);
      if k < |c1| {
        assert cs[k] == c1[k];
        assert b1[k] == PadBlock(c1[k]);
        assert (b1 + b2)[k] == b1[k];
      } else {
        assert cs[k] == c2[k - |c1|];
        assert b2[k - |c1|] == PadBlock(c2[k - |c1|]);
        assert (b1 + b2)[k] == b2[k - |b1|];
      }
    }
  }


  lemma RecognizeAllAppend(b1: seq<seq<string>>, b2: seq<seq<string>>, config: ParserConfiguration)
    requires forall k :: 0 <= k < |b1| ==> Padded(b1[k])
    requires forall k :: 0 <= k < |b2| ==> Padded(b2[k])
    ensures forall k :: 0 <= k < |b1 + b2| ==> Padded((b1 + b2)[k])
    ensures RecognizeAll(b1 + b2, config) == RecognizeAll(b1, config) + RecognizeAll(b2, config)
  {
    assert forall k :: 0 <= k < |b1 + b2| ==> (b1 + b2)[k] == if k < |b1| then b1[k] else b2[k - |b1|];
  }

  /**
   * `ParseFile`: reject a line count that the glyph height does not divide, then
   * recognize the blocks in order, building each output line character by character.
   */
  method ParseFile(raw: seq<string>, config: ParserConfiguration) returns (result: Result<seq<string>, ParseError>)
    requires config.lineHeight > 0
    ensures result == Parse(raw, config)
    ensures result.Failure? <==> |Normalize(raw)| % config.lineHeight != 0
    ensures result.Success? ==> |result.value| == |Normalize(raw)| / config.lineHeight
  {
    var lines := Normalize(raw);
    if |lines| % config.lineHeight != 0 {
      return Failure(LineCountNotMultiple(config.lineHeight));
    }
    var imageLines := ImageLines(lines, config.lineHeight);
    var parsed := RecognizeImageLines(imageLines, config);
    result := Success(parsed);
    ParseLinePerBlock(raw, config);
  }

  /** `ParseFile`'s outer loop: one recognized line per block, in order. */
  method RecognizeImageLines(imageLines: seq<seq<string>>, config: ParserConfiguration) returns (parsed: seq<string>)
    requires forall k :: 0 <= k < |imageLines| ==> Padded(imageLines[k])
    ensures parsed == RecognizeAll(imageLines, config)
  {
    parsed := [];
    for b := 0 to |imageLines|
      invariant |parsed| == b
      invariant forall k :: 0 <= k < b ==> parsed[k] == RecognizeBlock(imageLines[k], config)
    {
      var sb := RecognizeImageLine(imageLines[b], config);
      parsed := parsed + [sb];
    }
  }

  /** Classifying one more box of a list appends that box's character, if any. */
  lemma ClassifyStep(block: seq<string>, spans: seq<Span>, j: nat, config: ParserConfiguration)
    requires SpansFit(block, spans) && j < |spans|
    ensures SpansFit(block, spans[..j]) && SpansFit(block, spans[..j + 1])
    ensures Classify(block, spans[..j + 1], config) ==
      Classify(block, spans[..j], config) +
      match Resolve(block, spans[j], config) case Some(c) => [c] case None => ""
  {
    var pre, one := spans[..j], [spans[j]];
    assert SpansFit(block, pre);
    assert SpansFit(block, one);
    ClassifyAppend(block, pre, one, config);
    assert spans[..j + 1] == pre + one;
    assert one[1..] == [];
  }

  /** The body of `ParseFile`'s loop for one block: append each box's character to a builder. */
  method RecognizeImageLine(imageLine: seq<string>, config: ParserConfiguration) returns (sb: string)
    requires Padded(imageLine)
    ensures sb == RecognizeBlock(imageLine, config)
  {
    sb := "";
    var imagesBoxes := FindImageBoxes(imageLine);
    BoxesFit(imageLine);
    for j := 0 to |imagesBoxes|
      invariant SpansFit(imageLine, imagesBoxes[..j])
      invariant sb == Classify(imageLine, imagesBoxes[..j], config)
    {
      var imageBox := imagesBoxes[j];
      var boxContent := Slice(imageLine, imageBox);
      var detectedChar := match config.detectionAlgorithm(boxContent)
        case Some(c) => Some(c)
        case None => config.unknownDetectedCharacter;
      assert detectedChar == Resolve(imageLine, imageBox, config);
      ClassifyStep(imageLine, imagesBoxes, j, config);
      if detectedChar.Some? {
        sb := sb + [detectedChar.value];
      }
    }
    assert imagesBoxes[..|imagesBoxes|] == imagesBoxes;
  }

}
