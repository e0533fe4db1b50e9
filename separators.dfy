/**
 * First-occurrence splitting helpers of the `tools` package:
 * GetLeftOfUnderscore, GetRightOfSeparator and GetMiddleOfSeparator.
 */
module Separators {
  import opened GoStrings

  /** The text before the first `keyWord`, or the whole of `s` when it does not occur. */
  function GetLeftOfUnderscore(s: string, keyWord: string): (r: string)
    ensures !Contains(s, keyWord) ==> r == s
    ensures Contains(s, keyWord) ==>
      && |r| <= |s|
      && r == s[..|r|]
      && OccursAt(s, keyWord, |r|)
      && forall j :: 0 <= j < |r| ==> !OccursAt(s, keyWord, j)
  {
    IndexFirst(s, keyWord);
    var idx := Index(s, keyWord);
    if idx == -1 then s else s[..idx]
  }

  /** The text after the first `keyWord`, or the whole of `s` when it does not occur. */
  function GetRightOfSeparator(s: string, keyWord: string): (r: string)
    ensures !Contains(s, keyWord) ==> r == s
    ensures Contains(s, keyWord) ==>
      && |r| + |keyWord| <= |s|
      && r == s[|s| - |r|..]
      && OccursAt(s, keyWord, |s| - |r| - |keyWord|)
      && forall j :: 0 <= j < |s| - |r| - |keyWord| ==> !OccursAt(s, keyWord, j)
  {
    IndexFirst(s, keyWord);
    var idx := Index(s, keyWord);
    if idx == -1 then s else s[idx + |keyWord|..]
  }

  /** Where the text after the first `left` begins, when `left` occurs. */
  function AfterLeft(s: string, left: string): int
  {
    var i := Index(s, left);
    if i == -1 then -1 else i + |left|
  }

  /**
   * The text between the first `left` and the first `right` after it; ""
   * when `left` is absent or no `right` follows it.
   */
  function GetMiddleOfSeparator(s: string, left: string, right: string): (r: string)
    ensures !Contains(s, left) ==> r == ""
    ensures Contains(s, left) ==> 0 <= AfterLeft(s, left) <= |s|
    ensures Contains(s, left) && !Contains(s[AfterLeft(s, left)..], right) ==> r == ""
    ensures Contains(s, left) && Contains(s[AfterLeft(s, left)..], right) ==>
      var a := AfterLeft(s, left);
      && a + |r| <= |s|
      && s[a..a + |r|] == r
      && OccursAt(s, right, a + |r|)
      && forall j :: a <= j < a + |r| ==> !OccursAt(s, right, j)
  {
    var startIdx := Index(s, left);
    if startIdx == -1 then ""
    else
      var start := startIdx + |left|;
      IndexFirst(s[start..], right);
      var endIdx := Index(s[start..], right);
      if endIdx == -1 then ""
      else
        assert OccursAt(s, right, start + endIdx) by {
          assert s[start..|s|] == s[start..];
          OccursInSlice(s, right, start, |s|, endIdx);
        }
        assert forall j :: start <= j < start + endIdx ==> !OccursAt(s, right, j) by {
          forall j | start <= j < start + endIdx && OccursAt(s, right, j)
            ensures false
          {
            OccursInSuffix(s, right, start, j);
          }
        }
        s[start..start + endIdx]
  }

  /** When `keyWord` occurs, the left part, the key and the right part put back together give `s`. */
  lemma SplitAtFirst(s: string, keyWord: string)
    requires Contains(s, keyWord)
    ensures GetLeftOfUnderscore(s, keyWord) + keyWord + GetRightOfSeparator(s, keyWord) == s
  {
    var i := Index(s, keyWord);
    IndexFirst(s, keyWord);
    assert s == s[..i] + s[i..i + |keyWord|] + s[i + |keyWord|..];
  }

  /** The middle text never contains the right separator (a non-empty one). */
  lemma MiddleHasNoRight(s: string, left: string, right: string)
    requires right != []
    ensures !Contains(GetMiddleOfSeparator(s, left, right), right)
  {
    var r := GetMiddleOfSeparator(s, left, right);
    if Contains(r, right) {
      var j := Index(r, right);
      IndexFirst(r, right);
      assert Contains(s, left) && Contains(s[AfterLeft(s, left)..], right);
      var a := AfterLeft(s, left);
      OccursInSlice(s, right, a, a + |r|, j);
      assert false;
    }
  }

  /** The example given with GetMiddleOfSeparator. */
  lemma MiddleExample()
    ensures GetMiddleOfSeparator("abc-123-xyz", "-", "-") == "123"
  {
    var s := "abc-123-xyz";
    forall i ensures OccursAt(s, "-", i) <==> i == 3 || i == 7 {
      OccursSingle(s, '-', i);
    }
    assert OccursAt(s, "-", 3);
    IndexFirst(s, "-");
    assert Index(s, "-") == 3;
    var t := s[4..];
    assert t == "123-xyz";
    forall i ensures OccursAt(t, "-", i) <==> i == 3 {
      OccursSingle(t, '-', i);
    }
    assert OccursAt(t, "-", 3);
    IndexFirst(t, "-");
    assert Index(t, "-") == 3;
  }
}
