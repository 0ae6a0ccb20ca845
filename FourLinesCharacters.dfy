/**
 * The glyph catalog for four-row digits (NumberParser/FourLinesCharacters.cs):
 * an image is recognized as the first catalog key whose shape equals the image's
 * rows joined by '\n', under exact (case- and white-space-sensitive) equality.
 */
module FourLinesCharacters {
  import opened Wrappers
  import opened Text

  /** The `ArgumentException` that `IsMatch` throws for a blank catalog value. */
  datatype MatchError = ValueNullOrWhiteSpace

  /** `KnownChars`, in insertion order. */
  const KnownChars: seq<(char, string)> := [
    ('1', "|\n|\n|\n|"),
    ('2', "---\n _|\n|  \n---"),
    ('3', "---\n / \n \\ \n-- "),
    ('4', "|   |\n|___|\n    |\n    |"),
    ('5', "-----\n|___ \n    |\n____|")
  ]

  /** `IsMatch(x, box)`: a blank catalog value is an error, otherwise exact equality with the joined rows. */
  function IsMatch(x: string, box: seq<string>): Result<bool, MatchError>
  {
    if IsNullOrWhiteSpace(x) then Failure(ValueNullOrWhiteSpace)
    else Success(x == Join('\n', box))
  }

  /**
   * `catalog.FirstOrDefault(kvp => IsMatch(kvp.Value, image)).Key`: the entries are
   * tried in order and the scan stops at the first match or the first error.
   */
  function FirstMatch(catalog: seq<(char, string)>, image: seq<string>): Result<Option<char>, MatchError>
  {
    if |catalog| == 0 then Success(None)
    else
      match IsMatch(catalog[0].1, image)
      case Failure(e) => Failure(e)
      case Success(found) =>
        if found then Success(Some(catalog[0].0)) else FirstMatch(catalog[1..], image)
  }

  /** Entry `j` is tried and rejected: its value is not blank and differs from the image. */
  ghost predicate Rejects(catalog: seq<(char, string)>, image: seq<string>, j: int)
  {
    0 <= j < |catalog| && !IsNullOrWhiteSpace(catalog[j].1) && catalog[j].1 != Join('\n', image)
  }

  /** The first `n` entries are all rejected. */
  ghost predicate RejectedBefore(catalog: seq<(char, string)>, image: seq<string>, n: int)
  {
    forall j :: 0 <= j < n ==> Rejects(catalog, image, j)
  }

  /** Entry `i` is the first one that matches, every earlier entry being rejected. */
  ghost predicate FirstMatchAt(catalog: seq<(char, string)>, image: seq<string>, i: int)
  {
    && 0 <= i < |catalog|
    && !IsNullOrWhiteSpace(catalog[i].1)
    && catalog[i].1 == Join('\n', image)
    && RejectedBefore(catalog, image, i)
  }

  /** Entry `i` is the first blank one, every earlier entry being rejected. */
  ghost predicate FirstBlankAt(catalog: seq<(char, string)>, image: seq<string>, i: int)
  {
    && 0 <= i < |catalog|
    && IsNullOrWhiteSpace(catalog[i].1)
    && RejectedBefore(catalog, image, i)
  }

  /**
   * The outcome of the scan: the key of the first matching entry; no character when
   * every entry is rejected; the error when a blank entry is reached first.
   */
  lemma {:induction false} FirstMatchOutcome(catalog: seq<(char, string)>, image: seq<string>)
    ensures forall c :: FirstMatch(catalog, image) == Success(Some(c)) <==>
      exists i :: FirstMatchAt(catalog, image, i) && catalog[i].0 == c
    ensures FirstMatch(catalog, image) == Success(None) <==>
      forall j :: 0 <= j < |catalog| ==> Rejects(catalog, image, j)
    ensures FirstMatch(catalog, image).Failure? <==>
      exists i :: FirstBlankAt(catalog, image, i)
  {
    if |catalog| > 0 {
      var tail := catalog[1..];
      FirstMatchOutcome(tail, image);
      if IsNullOrWhiteSpace(catalog[0].1) {
        assert FirstBlankAt(catalog, image, 0);
        assert !Rejects(catalog, image, 0);
        forall i | 0 <= i < |catalog| ensures !FirstMatchAt(catalog, image, i) {
          assert i > 0 && RejectedBefore(catalog, image, i) ==> Rejects(catalog, image, 0);
        }
      } else if catalog[0].1 == Join('\n', image) {
        assert FirstMatchAt(catalog, image, 0);
        assert !Rejects(catalog, image, 0);
        assert !FirstBlankAt(catalog, image, 0);
        forall i | 0 < i < |catalog|
          ensures !FirstMatchAt(catalog, image, i) && !FirstBlankAt(catalog, image, i)
        {
          assert RejectedBefore(catalog, image, i) ==> Rejects(catalog, image, 0);
        }
      } else {
        assert Rejects(catalog, image, 0);
        ShiftedScan(catalog, image);
        if exists i :: FirstBlankAt(tail, image, i) {
          var i :| FirstBlankAt(tail, image, i);
          assert FirstBlankAt(catalog, image, i + 1);
        }
        if exists i :: FirstBlankAt(catalog, image, i) {
          var i :| FirstBlankAt(catalog, image, i);
          assert FirstBlankAt(tail, image, i - 1);
        }
      }
    }
  }

  /** When the first entry is rejected, the scan's predicates move one place along the tail. */
  lemma ShiftedScan(catalog: seq<(char, string)>, image: seq<string>)
    requires |catalog| > 0 && Rejects(catalog, image, 0)
    ensures forall i :: 0 < i < |catalog| ==>
      (FirstMatchAt(catalog, image, i) <==> FirstMatchAt(catalog[1..], image, i - 1))
    ensures forall i :: 0 < i < |catalog| ==>
      (FirstBlankAt(catalog, image, i) <==> FirstBlankAt(catalog[1..], image, i - 1))
    ensures !FirstMatchAt(catalog, image, 0) && !FirstBlankAt(catalog, image, 0)
    ensures (forall j :: 0 <= j < |catalog| ==> Rejects(catalog, image, j)) <==>
      (forall j :: 0 <= j < |catalog| - 1 ==> Rejects(catalog[1..], image, j))
  {
    var tail := catalog[1..];
    assert forall j :: 0 <= j < |tail| ==> Rejects(tail, image, j) == Rejects(catalog, image, j + 1);
    forall i | 0 < i < |catalog|
      ensures RejectedBefore(catalog, image, i) <==> RejectedBefore(tail, image, i - 1)
    {
      if RejectedBefore(tail, image, i - 1) {
        forall j | 0 <= j < i ensures Rejects(catalog, image, j) {
          if j > 0 { assert Rejects(tail, image, j - 1); }
        }
      }
    }
    if forall j :: 0 <= j < |tail| ==> Rejects(tail, image, j) {
      forall j | 0 <= j < |catalog| ensures Rejects(catalog, image, j) {
        if j > 0 { assert Rejects(tail, image, j - 1); }
      }
    }
  }

  /** Over `KnownChars` the scan never fails, and it finds a key exactly when some shape equals the image. */
  lemma KnownCharsOutcome(image: seq<string>)
    ensures FirstMatch(KnownChars, image).Success?
    ensures FirstMatch(KnownChars, image).value.Some? <==>
      exists i :: 0 <= i < |KnownChars| && KnownChars[i].1 == Join('\n', image)
    ensures forall i :: 0 <= i < |KnownChars| && KnownChars[i].1 == Join('\n', image) ==>
      FirstMatch(KnownChars, image).value == Some(KnownChars[i].0)
  {
    KnownCharsWellFormed();
    FirstMatchOutcome(KnownChars, image);
    forall i | FirstBlankAt(KnownChars, image, i) ensures false { }
    forall i | 0 <= i < |KnownChars| && KnownChars[i].1 == Join('\n', image)
      ensures FirstMatch(KnownChars, image).value == Some(KnownChars[i].0)
    {
      assert FirstMatchAt(KnownChars, image, i) by {
        forall j | 0 <= j < i ensures Rejects(KnownChars, image, j) { }
        assert RejectedBefore(KnownChars, image, i);
      }
    }
    if FirstMatch(KnownChars, image).value.Some? {
      var c := FirstMatch(KnownChars, image).value.value;
      var i :| FirstMatchAt(KnownChars, image, i) && KnownChars[i].0 == c;
      assert KnownChars[i].1 == Join('\n', image);
    }
  }

  /** The catalog values are not blank, and the shapes are pairwise distinct. */
  lemma KnownCharsWellFormed()
    ensures forall i :: 0 <= i < |KnownChars| ==> !IsNullOrWhiteSpace(KnownChars[i].1)
    ensures forall i, j :: 0 <= i < j < |KnownChars| ==> KnownChars[i].1 != KnownChars[j].1
    ensures forall i, j :: 0 <= i < j < |KnownChars| ==> KnownChars[i].0 != KnownChars[j].0
  {
    forall i | 0 <= i < |KnownChars| ensures !IsNullOrWhiteSpace(KnownChars[i].1) {
      assert !IsWhiteSpace(KnownChars[i].1[0]);
    }
    forall i, j | 0 <= i < j < |KnownChars| ensures KnownChars[i].1 != KnownChars[j].1 {
      var a, b := KnownChars[i].1, KnownChars[j].1;
      assert |a| != |b| || a[1] != b[1] || a[6] != b[6];
    }
  }

  /**
   * `DetectChar`: a key of the catalog exactly when the joined rows equal that key's
   * shape, and no character otherwise. Since the shapes are distinct, at most one key
   * can apply and the scan order does not change the answer.
   */
  function DetectChar(charImage: seq<string>): (r: Option<char>)
    ensures r.Some? <==> exists i :: 0 <= i < |KnownChars| && KnownChars[i].1 == Join('\n', charImage)
    ensures forall i :: 0 <= i < |KnownChars| && KnownChars[i].1 == Join('\n', charImage) ==>
      r == Some(KnownChars[i].0)
    ensures r.None? || '1' <= r.value <= '5'
  {
    KnownCharsOutcome(charImage);
    FirstMatch(KnownChars, charImage).value
  }

  /**
   * For a non-blank value and an image of one or more rows without line breaks,
   * `IsMatch` holds exactly when the value, cut at its line breaks, is that image.
   */
  lemma IsMatchRows(x: string, box: seq<string>)
    requires !IsNullOrWhiteSpace(x)
    requires |box| >= 1 && forall k :: 0 <= k < |box| ==> '\n' !in box[k]
    ensures IsMatch(x, box) == Success(true) <==> Split('\n', x) == box
    ensures IsMatch(x, box) == Success(false) <==> Split('\n', x) != box
  {
    JoinSplit('\n', x);
    SplitJoin('\n', box);
  }

  /** At most one catalog entry matches any image. */
  lemma AtMostOneMatch(charImage: seq<string>, i: int, j: int)
    requires 0 <= i < |KnownChars| && 0 <= j < |KnownChars|
    requires KnownChars[i].1 == Join('\n', charImage) && KnownChars[j].1 == Join('\n', charImage)
    ensures i == j
  {
    KnownCharsWellFormed();
  }

  /** Each catalog shape, cut into its rows, is recognized as its own key. */
  lemma ShapesClassifyAsOwnKey(i: int)
    requires 0 <= i < |KnownChars|
    ensures DetectChar(Split('\n', KnownChars[i].1)) == Some(KnownChars[i].0)
  {
    JoinSplit('\n', KnownChars[i].1);
  }

  /** Four rows of a single bar are the digit one. */
  lemma DetectBarsAsOne()
    ensures DetectChar(["|", "|", "|", "|"]) == Some('1')
  {
    assert Join('\n', ["|", "|", "|", "|"]) == KnownChars[0].1;
  }
}
