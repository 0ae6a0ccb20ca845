/**
 * Tab expansion (NumberParser/Infratructure/StringCleaner.cs): every tab becomes
 * the spaces that bring the text built so far to the next multiple of 4.
 */
module StringCleaner {
  import opened Text

  /** The tab stop width. */
  const TabWidth: nat := 4

  /** What one input character contributes when `written` characters are already out. */
  function Piece(c: char, written: nat): string
  {
    if c == '\t' then Spaces(TabWidth - written % TabWidth) else [c]
  }

  /** Reference definition: the expansion of `s`, built from its last character backwards. */
  function TabExpanded(s: string): string
    decreases |s|
  {
    if |s| == 0 then ""
    else
      var done := TabExpanded(s[..|s| - 1]);
      done + Piece(s[|s| - 1], |done|)
  }

  /** `StringCleaner.DropTabs`: one pass over `line`, appending to a builder. */
  method DropTabs(line: string) returns (r: string)
    ensures r == TabExpanded(line)
    ensures '\t' !in r
    ensures |r| >= |line|
  {
    var sb := "";
    for i := 0 to |line|
      invariant sb == TabExpanded(line[..i])
    {
      assert line[..i + 1][..i] == line[..i];
      if line[i] == '\t' {
        sb := sb + Spaces(TabWidth - |sb| % TabWidth);
      } else {
        sb := sb + [line[i]];
      }
    }
    assert line[..|line|] == line;
    r := sb;
    TabExpandedHasNoTab(line);
    TabExpandedLength(line);
  }

  /** The expansion holds no tab. */
  lemma {:induction false} TabExpandedHasNoTab(s: string)
    ensures '\t' !in TabExpanded(s)
  {
    if |s| > 0 {
      TabExpandedHasNoTab(s[..|s| - 1]);
    }
  }

  /** The expansion is never shorter than the input. */
  lemma {:induction false} TabExpandedLength(s: string)
    ensures |TabExpanded(s)| >= |s|
  {
    if |s| > 0 {
      TabExpandedLength(s[..|s| - 1]);
    }
  }

  /** A tab one column before a stop becomes a single space, so a tab need not lengthen the line. */
  lemma TabCanKeepLength()
    ensures TabExpanded("abc\t") == "abc "
    ensures |TabExpanded("abc\t")| == |"abc\t"|
  {
    assert "abc\t"[..3] == "abc";
    assert "abc"[..2] == "ab";
    assert "ab"[..1] == "a";
    assert "a"[..0] == "";
  }

  /** A tab-free line is returned unchanged. */
  lemma {:induction false} TabFreeUnchanged(s: string)
    requires '\t' !in s
    ensures TabExpanded(s) == s
  {
    if |s| > 0 {
      var init := s[..|s| - 1];
      assert '\t' !in init by {
        forall k | 0 <= k < |init| ensures init[k] != '\t' { assert init[k] == s[k]; }
      }
      TabFreeUnchanged(init);
      assert s == init + [s[|s| - 1]];
    }
  }

  /** The expansion of a prefix is a prefix of the expansion. */
  lemma {:induction false} TabExpandedPrefix(s: string, i: nat)
    requires i <= |s|
    ensures TabExpanded(s[..i]) <= TabExpanded(s)
    decreases |s|
  {
    if i < |s| {
      var init := s[..|s| - 1];
      assert s[..i] == init[..i];
      TabExpandedPrefix(init, i);
    } else {
      assert s[..i] == s;
    }
  }

  /**
   * Where input character `i` lands: it occupies output positions `p .. q`, with
   * `p`/`q` the lengths of the expansions of `s[..i]` / `s[..i+1]`. A non-tab is copied
   * to position `p`; a tab becomes 1 to 4 spaces (4 exactly when `p` is already at a
   * stop) and leaves the output length at a multiple of 4.
   */
  lemma TabExpandedPlacement(s: string, i: nat)
    requires i < |s|
    ensures var p, q := |TabExpanded(s[..i])|, |TabExpanded(s[..i + 1])|;
      && p < q <= |TabExpanded(s)|
      && (s[i] != '\t' ==> q == p + 1 && TabExpanded(s)[p] == s[i])
      && (s[i] == '\t' ==>
            && 1 <= q - p <= TabWidth
            && q % TabWidth == 0
            && (p % TabWidth == 0 ==> q - p == TabWidth)
            && forall k :: p <= k < q ==> TabExpanded(s)[k] == ' ')
  {
    var pre, post := s[..i], s[..i + 1];
    assert post[..|post| - 1] == pre;
    TabExpandedPrefix(s, i + 1);
    var e := TabExpanded(post);
    assert e == TabExpanded(pre) + Piece(s[i], |TabExpanded(pre)|);
    forall k | 0 <= k < |e| ensures TabExpanded(s)[k] == e[k] { }
  }
}
