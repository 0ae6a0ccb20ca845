/**
 * The few .NET string operations the recognizer relies on: `string.PadRight`,
 * `string.Join`, `char.IsWhiteSpace` / `string.IsNullOrWhiteSpace`, and a
 * `Split` that undoes `Join` (used to state the catalog's round trip).
 */
module Text {

  /** `new string(' ', n)`. */
  function Spaces(n: nat): (s: string)
    ensures |s| == n
    ensures forall i :: 0 <= i < n ==> s[i] == ' '
  {
    seq(n, _ => ' ')
  }

  /**
   * `s.PadRight(totalWidth, ' ')`: `s` followed by spaces up to `totalWidth`; a string
   * at least that long is returned unchanged.
   */
  function PadRight(s: string, totalWidth: nat): (r: string)
    ensures |r| == if |s| >= totalWidth then |s| else totalWidth
    ensures r[..|s|] == s
    ensures forall i :: |s| <= i < |r| ==> r[i] == ' '
  {
    if |s| >= totalWidth then s else s + Spaces(totalWidth - |s|)
  }

  /** Padding a row no wider than the target appends exactly the missing spaces. */
  lemma PadRightAppends(s: string, totalWidth: nat)
    requires |s| <= totalWidth
    ensures PadRight(s, totalWidth) == s + Spaces(totalWidth - |s|)
  {
    if |s| == totalWidth {
      assert Spaces(0) == [];
      assert s + [] == s;
    }
  }

  /** `char.IsWhiteSpace`: the Unicode separators (Zs, Zl, Zp) and U+0009..U+000D, U+0085. */
  predicate IsWhiteSpace(c: char)
  {
    || c == ' ' || ('\t' <= c <= '\r') || c == '\U{0085}' || c == '\U{00A0}'
    || c == '\U{1680}' || ('\U{2000}' <= c <= '\U{200A}')
    || c == '\U{2028}' || c == '\U{2029}' || c == '\U{202F}' || c == '\U{205F}'
    || c == '\U{3000}'
  }

  /** `string.IsNullOrWhiteSpace` for a non-null string: empty, or white space only. */
  predicate IsNullOrWhiteSpace(s: string)
  {
    forall i :: 0 <= i < |s| ==> IsWhiteSpace(s[i])
  }

  /** `string.Join(sep, rows)`. */
  function Join(sep: char, rows: seq<string>): string
  {
    if |rows| == 0 then ""
    else if |rows| == 1 then rows[0]
    else rows[0] + [sep] + Join(sep, rows[1..])
  }

  /** Cuts `s` at every `sep`; never empty (the empty string is one empty row). */
  function Split(sep: char, s: string): (rows: seq<string>)
    ensures |rows| >= 1
  {
    if |s| == 0 then [""]
    else
      var rest := Split(sep, s[1..]);
      if s[0] == sep then [""] + rest else [[s[0]] + rest[0]] + rest[1..]
  }

  /** Joining the rows of a split gives back the string. */
  lemma {:induction false} JoinSplit(sep: char, s: string)
    ensures Join(sep, Split(sep, s)) == s
  {
    if |s| > 0 {
      JoinSplit(sep, s[1..]);
      var rest := Split(sep, s[1..]);
      if s[0] == sep {
        assert Split(sep, s) == [""] + rest;
        assert ([""] + rest)[1..] == rest;
      } else {
        var rows := [[s[0]] + rest[0]] + rest[1..];
        assert rows[1..] == rest[1..];
        if |rest| == 1 {
          assert s == [s[0]] + s[1..];
        } else {
          assert Join(sep, rest) == rest[0] + [sep] + Join(sep, rest[1..]);
          assert s == [s[0]] + s[1..];
        }
      }
    }
  }

  /** A row free of the separator, followed by the separator, splits off as the first row. */
  lemma {:induction false} SplitAfterRow(sep: char, x: string, t: string)
    requires sep !in x
    ensures Split(sep, x + [sep] + t) == [x] + Split(sep, t)
  {
    if |x| == 0 {
      assert x + [sep] + t == [sep] + t;
      assert ([sep] + t)[1..] == t;
    } else {
      SplitAfterRow(sep, x[1..], t);
      assert (x + [sep] + t)[1..] == x[1..] + [sep] + t;
      assert x == [x[0]] + x[1..];
    }
  }

  /** A row free of the separator splits into itself. */
  lemma {:induction false} SplitSingleRow(sep: char, x: string)
    requires sep !in x
    ensures Split(sep, x) == [x]
  {
    if |x| > 0 {
      SplitSingleRow(sep, x[1..]);
      assert x == [x[0]] + x[1..];
    }
  }

  /** Splitting a join of separator-free rows gives back the rows. */
  lemma {:induction false} SplitJoin(sep: char, rows: seq<string>)
    requires |rows| >= 1
    requires forall k :: 0 <= k < |rows| ==> sep !in rows[k]
    ensures Split(sep, Join(sep, rows)) == rows
  {
    if |rows| == 1 {
      SplitSingleRow(sep, rows[0]);
    } else {
      SplitJoin(sep, rows[1..]);
      SplitAfterRow(sep, rows[0], Join(sep, rows[1..]));
      assert rows == [rows[0]] + rows[1..];
    }
  }
}
