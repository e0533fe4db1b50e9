/**
 * GetTextTwoMiddle and its byte twin GetTextTwoMiddleBytes: extract the text
 * between two markers, optionally after skipping to a start position and
 * past an anchor text, and report the byte position just past the end marker
 * so that a caller can resume the search there.
 *
 * Go strings are byte sequences and the reported position is a byte offset,
 * so both versions are modelled over `Bytes`.
 */
module Markers {
  import opened GoStrings

  /**
   * Where the text after the first `marker` at or after `from` begins, or -1
   * when `marker` does not occur there.
   */
  function After(src: Bytes, from: nat, marker: Bytes): (r: int)
    requires from <= |src|
    ensures r == -1 <==> !Contains(src[from..], marker)
    ensures r != -1 ==> from + |marker| <= r <= |src| && src[r - |marker|..r] == marker
  {
    IndexFirst(src[from..], marker);
    var i := Index(src[from..], marker);
    if i == -1 then -1
    else
      assert src[from..][i..i + |marker|] == src[from + i..from + i + |marker|];
      from + i + |marker|
  }

  /** What a failed step returns: position -1 with nothing, or with the whole text. */
  function Miss(src: Bytes, fallbackToSource: bool): (int, Bytes)
  {
    (-1, if fallbackToSource then src else [])
  }

  /** Where reading starts: -1 and 0 both mean the beginning; -1 again when beyond the text. */
  function StartAt(src: Bytes, startPosition: int): (r: int)
    ensures -1 <= r <= |src|
    ensures r != -1 ==> r == (if startPosition > 0 then startPosition else 0)
  {
    var p0 := if startPosition > 0 then startPosition else 0;
    if p0 > |src| then -1 else p0
  }

  /** One cut step: move past the first `marker` from `pos`; an empty marker moves nowhere. */
  function PastMarker(src: Bytes, pos: int, marker: Bytes): (r: int)
    requires -1 <= pos <= |src|
    ensures -1 <= r <= |src|
    ensures r != -1 ==> pos != -1 && pos + |marker| <= r
  {
    if pos == -1 then -1 else if marker == [] then pos else After(src, pos, marker)
  }

  /** The last step: the text from `pos` up to the first `endText`, or to the end when it is empty. */
  function UpToMarker(src: Bytes, pos: int, endText: Bytes, fallbackToSource: bool): (r: (int, Bytes))
    requires -1 <= pos <= |src|
    ensures -1 <= r.0 <= |src|
    ensures r.0 == -1 ==> r == Miss(src, fallbackToSource)
  {
    if pos == -1 then Miss(src, fallbackToSource)
    else if endText == [] then (pos, src[pos..])
    else
      var e := Index(src[pos..], endText);
      if e == -1 then Miss(src, fallbackToSource)
      else
        assert src[pos..][e..e + |endText|] == src[pos + e..pos + e + |endText|];
        (pos + e + |endText|, src[pos..pos + e])
  }

  /**
   * The result of GetTextTwoMiddle, stated on positions in the original text:
   * skip to `startPosition`, then past the first `offset`, then past the
   * first `startText`, and take the text up to the first `endText` after that.
   */
  function TextTwoMiddle(src: Bytes, startText: Bytes, endText: Bytes, startPosition: int,
                         offset: Bytes, fallbackToSource: bool): (r: (int, Bytes))
  {
    var p1 := PastMarker(src, StartAt(src, startPosition), offset);
    UpToMarker(src, PastMarker(src, p1, startText), endText, fallbackToSource)
  }

  /** A step that fails makes the whole search fail. */
  lemma MissesPropagate(src: Bytes, startText: Bytes, endText: Bytes, startPosition: int,
                        offset: Bytes, fallbackToSource: bool)
    ensures var p0 := StartAt(src, startPosition);
      var p1 := PastMarker(src, p0, offset);
      var r := TextTwoMiddle(src, startText, endText, startPosition, offset, fallbackToSource);
      && (p0 == -1 ==> r == Miss(src, fallbackToSource))
      && (p1 == -1 ==> r == Miss(src, fallbackToSource))
      && (PastMarker(src, p1, startText) == -1 ==> r == Miss(src, fallbackToSource))
  {
  }

  /** The working text `rest` is what is left of `src` from position `pos` on. */
  predicate Tracks(src: Bytes, pos: int, rest: Bytes)
  {
    0 <= pos <= |src| && rest == src[pos..]
  }

  /** What one cut step past a non-empty marker does to the working text and the position. */
  lemma CutPast(src: Bytes, pos: int, rest: Bytes, marker: Bytes)
    requires Tracks(src, pos, rest) && marker != []
    ensures var p := Index(rest, marker);
      && (p == -1 ==> PastMarker(src, pos, marker) == -1)
      && (p != -1 ==> p + |marker| <= |rest| && PastMarker(src, pos, marker) == pos + p + |marker|
                      && Tracks(src, pos + p + |marker|, rest[p + |marker|..]))
  {
    var p := Index(rest, marker);
    if p != -1 {
      SliceOfSuffix(src, pos, p + |marker|, p + |marker|);
    }
  }

  /** What the last step does when the end marker is not empty. */
  lemma CutBefore(src: Bytes, pos: int, rest: Bytes, endText: Bytes, fallbackToSource: bool)
    requires Tracks(src, pos, rest) && endText != []
    ensures var p := Index(rest, endText);
      && (p == -1 ==> UpToMarker(src, pos, endText, fallbackToSource) == Miss(src, fallbackToSource))
      && (p != -1 ==> UpToMarker(src, pos, endText, fallbackToSource) == (pos + p + |endText|, rest[..p]))
  {
    var p := Index(rest, endText);
    if p != -1 {
      SliceOfSuffix(src, pos, 0, p);
    }
  }

  /**
   * One search step of GetTextTwoMiddle: find `marker` in the working text
   * and cut the text after it, advancing the resume position by what was cut.
   * Once the marker is found, the bound the source re-checks before cutting
   * always holds, so that branch is not modelled.
   */
  method SkipPast(sourceText: Bytes, backEndPos: int, source: Bytes, marker: Bytes)
    returns (found: bool, newPos: int, rest: Bytes)
    requires Tracks(sourceText, backEndPos, source) && marker != []
    ensures found <==> PastMarker(sourceText, backEndPos, marker) != -1
    ensures found ==> newPos == PastMarker(sourceText, backEndPos, marker) && Tracks(sourceText, newPos, rest)
  {
    CutPast(sourceText, backEndPos, source, marker);
    var p := Index(source, marker);
    found := p != -1;
    if found {
      newPos := backEndPos + p + |marker|;
      rest := source[p + |marker|..];
    } else {
      newPos, rest := backEndPos, source;
    }
  }

  /** The start step: -1 and 0 read from the beginning; a start beyond the text fails. */
  method StartFrom(sourceText: Bytes, startPosition: int) returns (started: bool, backEndPos: int, source: Bytes)
    ensures started <==> StartAt(sourceText, startPosition) != -1
    ensures started ==> backEndPos == StartAt(sourceText, startPosition) && Tracks(sourceText, backEndPos, source)
  {
    source := sourceText;
    backEndPos := 0;
    started := true;
    var from := startPosition;
    if from == -1 {
      from := 0;
    }
    if from > 0 {
      if |source| >= from {
        backEndPos := backEndPos + from;
        source := source[from..];
      } else {
        started := false;
      }
    }
  }

  /** The end step: the text up to the first end marker, and the position just past it. */
  method CutToEnd(sourceText: Bytes, backEndPos: int, source: Bytes, endText: Bytes, fallbackToSource: bool)
    returns (pos: int, text: Bytes)
    requires Tracks(sourceText, backEndPos, source)
    ensures (pos, text) == UpToMarker(sourceText, backEndPos, endText, fallbackToSource)
  {
    pos, text := backEndPos, source;
    if endText != [] {
      CutBefore(sourceText, backEndPos, source, endText, fallbackToSource);
      var p := Index(source, endText);
      if p != -1 {
        text := source[..p];
        pos := backEndPos + |text| + |endText|;
      } else {
        pos, text := -1, if fallbackToSource then sourceText else [];
      }
    }
  }

  /**
   * GetTextTwoMiddle, step by step: each step cuts the working text and
   * advances the resume position by what it cut off.
   */
  method GetTextTwoMiddle(sourceText: Bytes, startText: Bytes, endText: Bytes, startPosition: int,
                       offset: Bytes, fallbackToSource: bool) returns (pos: int, text: Bytes)
    ensures (pos, text) == TextTwoMiddle(sourceText, startText, endText, startPosition, offset, fallbackToSource)
  {
    MissesPropagate(sourceText, startText, endText, startPosition, offset, fallbackToSource);
    var started, backEndPos, source := StartFrom(sourceText, startPosition);
    if !started {
      pos, text := -1, if fallbackToSource then sourceText else [];
      return;
    }
    ghost var at := backEndPos;

    if offset != [] {
      var found;
      found, backEndPos, source := SkipPast(sourceText, backEndPos, source, offset);
      if !found {
        assert PastMarker(sourceText, at, offset) == -1;
        pos, text := -1, if fallbackToSource then sourceText else [];
        return;
      }
    }
    at := PastMarker(sourceText, at, offset);

    if startText != [] {
      var found;
      found, backEndPos, source := SkipPast(sourceText, backEndPos, source, startText);
      if !found {
        assert PastMarker(sourceText, at, startText) == -1;
        pos, text := -1, if fallbackToSource then sourceText else [];
        return;
      }
    }
    at := PastMarker(sourceText, at, startText);
    assert TextTwoMiddle(sourceText, startText, endText, startPosition, offset, fallbackToSource)
        == UpToMarker(sourceText, at, endText, fallbackToSource);

    pos, text := CutToEnd(sourceText, backEndPos, source, endText, fallbackToSource);
  }

  /**
   * GetTextTwoMiddleBytes, the []byte twin of GetTextTwoMiddle: the same
   * steps over byte slices, with nil (here the empty sequence) for the
   * empty result of a failed step.
   */
  method GetTextTwoMiddleBytes(sourceText: Bytes, startText: Bytes, endText: Bytes, startPosition: int,
                            offset: Bytes, fallbackToSource: bool) returns (pos: int, text: Bytes)
    ensures (pos, text) == TextTwoMiddle(sourceText, startText, endText, startPosition, offset, fallbackToSource)
  {
    MissesPropagate(sourceText, startText, endText, startPosition, offset, fallbackToSource);
    var started, backEndPos, source := StartFrom(sourceText, startPosition);
    if !started {
      pos, text := -1, if fallbackToSource then sourceText else [];
      return;
    }
    ghost var at := backEndPos;

    if |offset| > 0 {
      var found;
      found, backEndPos, source := SkipPast(sourceText, backEndPos, source, offset);
      if !found {
        assert PastMarker(sourceText, at, offset) == -1;
        pos, text := -1, if fallbackToSource then sourceText else [];
        return;
      }
    }
    at := PastMarker(sourceText, at, offset);

    if |startText| > 0 {
      var found;
      found, backEndPos, source := SkipPast(sourceText, backEndPos, source, startText);
      if !found {
        assert PastMarker(sourceText, at, startText) == -1;
        pos, text := -1, if fallbackToSource then sourceText else [];
        return;
      }
    }
    at := PastMarker(sourceText, at, startText);
    assert TextTwoMiddle(sourceText, startText, endText, startPosition, offset, fallbackToSource)
        == UpToMarker(sourceText, at, endText, fallbackToSource);

    pos, text := CutToEnd(sourceText, backEndPos, source, endText, fallbackToSource);
  }

  /**
   * With a non-empty end marker, a found text lies immediately before the
   * first end marker after it, the position points just past that marker,
   * and the text holds no end marker.
   */
  lemma MiddleBeforeEnd(src: Bytes, startText: Bytes, endText: Bytes, startPosition: int,
                        offset: Bytes, fallbackToSource: bool)
    requires endText != []
    requires TextTwoMiddle(src, startText, endText, startPosition, offset, fallbackToSource).0 != -1
    ensures var (p, t) := TextTwoMiddle(src, startText, endText, startPosition, offset, fallbackToSource);
      && |endText| + |t| <= p <= |src|
      && src[p - |endText|..p] == endText
      && src[p - |endText| - |t|..p - |endText|] == t
      && !Contains(t, endText)
  {
    var p2 := PastMarker(src, PastMarker(src, StartAt(src, startPosition), offset), startText);
    assert TextTwoMiddle(src, startText, endText, startPosition, offset, fallbackToSource)
        == UpToMarker(src, p2, endText, fallbackToSource);
    UpToMarkerFound(src, p2, endText, fallbackToSource);
  }

  /** The last step, when it finds the end marker: the text ends just before the marker, and the position is just past it. */
  lemma UpToMarkerFound(src: Bytes, pos: int, endText: Bytes, fallbackToSource: bool)
    requires -1 <= pos <= |src| && endText != []
    requires UpToMarker(src, pos, endText, fallbackToSource).0 != -1
    ensures var (p, t) := UpToMarker(src, pos, endText, fallbackToSource);
      && |endText| + |t| <= p <= |src|
      && src[p - |endText|..p] == endText
      && src[p - |endText| - |t|..p - |endText|] == t
      && !Contains(t, endText)
  {
    var rest := src[pos..];
    CutBefore(src, pos, rest, endText, fallbackToSource);
    var e := Index(rest, endText);
    IndexFirst(rest, endText);
    IndexPrefixFree(rest, endText);
    SliceOfSuffix(src, pos, 0, e);
    SliceOfSuffix(src, pos, e, e + |endText|);
  }

  /** With an empty end marker, the found text is everything from the returned position on. */
  lemma MiddleToEndOfText(src: Bytes, startText: Bytes, startPosition: int, offset: Bytes, fallbackToSource: bool)
    requires TextTwoMiddle(src, startText, [], startPosition, offset, fallbackToSource).0 != -1
    ensures var (p, t) := TextTwoMiddle(src, startText, [], startPosition, offset, fallbackToSource);
      0 <= p <= |src| && src[p..] == t
  {
  }

  /** A start position of -1, or any other one not above 0, reads from the beginning, like 0. */
  lemma MiddleNonPositiveStart(src: Bytes, startText: Bytes, endText: Bytes, startPosition: int,
                               offset: Bytes, fallbackToSource: bool)
    requires startPosition <= 0
    ensures TextTwoMiddle(src, startText, endText, startPosition, offset, fallbackToSource)
         == TextTwoMiddle(src, startText, endText, 0, offset, fallbackToSource)
  {
  }

  /** A later suffix of a text cannot contain what the whole suffix lacks. */
  lemma AbsentFromLaterSuffix(src: Bytes, a: nat, b: nat, marker: Bytes)
    requires a <= b <= |src|
    requires !Contains(src[a..], marker)
    ensures !Contains(src[b..], marker)
  {
    if Contains(src[b..], marker) {
      var j := Index(src[b..], marker);
      IndexFirst(src[b..], marker);
      IndexFirst(src[a..], marker);
      assert src[b..] == src[a..][b - a..|src| - a];
      OccursInSlice(src[a..], marker, b - a, |src| - a, j);
      assert false;
    }
  }

  /**
   * The search fails, returning -1 and the fallback, when the start position
   * lies beyond the text, or when one of the non-empty markers does not
   * occur anywhere after the start position.
   */
  lemma MiddleMisses(src: Bytes, startText: Bytes, endText: Bytes, startPosition: int,
                     offset: Bytes, fallbackToSource: bool)
    requires || startPosition > |src|
             || (0 <= startPosition <= |src| && offset != [] && !Contains(src[startPosition..], offset))
             || (0 <= startPosition <= |src| && startText != [] && !Contains(src[startPosition..], startText))
             || (0 <= startPosition <= |src| && endText != [] && !Contains(src[startPosition..], endText))
    ensures TextTwoMiddle(src, startText, endText, startPosition, offset, fallbackToSource)
         == Miss(src, fallbackToSource)
  {
    var p0 := StartAt(src, startPosition);
    var p1 := PastMarker(src, p0, offset);
    var p2 := PastMarker(src, p1, startText);
    if p2 != -1 {
      assert p0 == startPosition;
      if startText != [] && !Contains(src[p0..], startText) {
        AbsentFromLaterSuffix(src, p0, p1, startText);
      }
      if endText != [] && !Contains(src[p0..], endText) {
        AbsentFromLaterSuffix(src, p0, p2, endText);
      }
    }
  }

  // ---------------------------------------------------------------------
  // The documented example: "你好aa你好测试你好aa你好测试你好MM，你好HelloWord你好对"
  // ---------------------------------------------------------------------

  const Hello: Bytes := [0xE4, 0xBD, 0xA0, 0xE5, 0xA5, 0xBD]       // 你好
  const Test: Bytes := [0xE6, 0xB5, 0x8B, 0xE8, 0xAF, 0x95]        // 测试
  const Comma: Bytes := [0xEF, 0xBC, 0x8C]                         // ，
  const Dui: Bytes := [0xE5, 0xAF, 0xB9]                           // 对
  const HelloWord: Bytes := [72, 101, 108, 108, 111, 87, 111, 114, 100]
  const Tail: Bytes := HelloWord + Hello + Dui
  /** From "MM" on. */
  const FromMM: Bytes := [77, 77] + Comma + Hello + Tail
  /** The 46 bytes before "MM", laid out for the search after the first "a". */
  const Front: Bytes := Hello + [97] + ([97] + Hello + (Test + Hello + ([97, 97] + Hello + Test + Hello)))

  /** The example text, 75 bytes in UTF-8. */
  const Sample: Bytes := Front + FromMM

  /** A search step over a text laid out as `pre`, the marker, `post`, where `pre` cannot start the marker. */
  lemma StepPast(src: Bytes, pos: nat, pre: Bytes, marker: Bytes, post: Bytes)
    requires pos <= |src| && src[pos..] == pre + marker + post
    requires marker != [] && marker[0] !in pre
    ensures PastMarker(src, pos, marker) == pos + |pre| + |marker|
    ensures src[pos + |pre| + |marker|..] == post
  {
    assert pre + marker + post == pre + (marker + post);
    IndexAfterClearPrefix(pre, marker, marker + post);
    SliceOfSuffix(src, pos, |pre| + |marker|, |pre| + |marker|);
  }

  /** The last step over a text laid out as `pre`, the end marker, `post`. */
  lemma StepUpTo(src: Bytes, pos: nat, pre: Bytes, endText: Bytes, post: Bytes, fallbackToSource: bool)
    requires pos <= |src| && src[pos..] == pre + endText + post
    requires endText != [] && endText[0] !in pre
    ensures UpToMarker(src, pos, endText, fallbackToSource) == (pos + |pre| + |endText|, pre)
  {
    assert pre + endText + post == pre + (endText + post);
    IndexAfterClearPrefix(pre, endText, endText + post);
    SliceOfSuffix(src, pos, 0, |pre|);
    assert src[pos..][..|pre|] == pre;
  }

  /** Skipping past "MM" and then "你好" lands at byte 57, just before HelloWord. */
  lemma SampleAfterMM()
    ensures PastMarker(Sample, PastMarker(Sample, StartAt(Sample, 0), [77, 77]), Hello) == 57
    ensures Sample[57..] == Tail
  {
    assert |Front| == 46 && 77 !in Front;
    assert Sample[0..] == Front + [77, 77] + (Comma + Hello + Tail);
    StepPast(Sample, 0, Front, [77, 77], Comma + Hello + Tail);
    StepPast(Sample, 48, Comma, Hello, Tail);
  }

  /** Example 1: after "MM", the text between the next two "你好" is HelloWord, ending at byte 72. */
  lemma SampleExampleOne()
    ensures TextTwoMiddle(Sample, Hello, Hello, 0, [77, 77], false) == (72, HelloWord)
  {
    SampleAfterMM();
    StepUpTo(Sample, 57, HelloWord, Hello, Dui, false);
  }

  /** Example 2: with no end marker, everything after the "你好" that follows "MM", from byte 57. */
  lemma SampleExampleTwo()
    ensures TextTwoMiddle(Sample, Hello, [], 0, [77, 77], false) == (57, Tail)
  {
    SampleAfterMM();
  }

  /** Regrouping a concatenation of four pieces. */
  lemma Regroup(a: Bytes, b: Bytes, c: Bytes, d: Bytes)
    ensures a + b + c + d == a + b + (c + d)
  {
  }

  /** Skipping past the first "a" and then "你好" lands at byte 14, at the first 测试. */
  lemma SampleAfterA()
    ensures PastMarker(Sample, PastMarker(Sample, StartAt(Sample, 0), [97]), Hello) == 14
    ensures Sample[14..] == Test + Hello + ([97, 97] + Hello + Test + Hello + FromMM)
  {
    var rest := [97, 97] + Hello + Test + Hello;
    var second := Test + Hello + rest;
    var first := [97] + Hello + second;
    Regroup(Hello, [97], first, FromMM);
    assert Sample[0..] == Hello + [97] + (first + FromMM);
    StepPast(Sample, 0, Hello, [97], first + FromMM);
    Regroup([97], Hello, second, FromMM);
    StepPast(Sample, 7, [97], Hello, second + FromMM);
    Regroup(Test, Hello, rest, FromMM);
  }

  /** The call in the package's demo program: after the first "a", the text between two "你好" is 测试. */
  lemma SampleDemo()
    ensures TextTwoMiddle(Sample, Hello, Hello, 0, [97], false) == (26, Test)
  {
    SampleAfterA();
    StepUpTo(Sample, 14, Test, Hello, [97, 97] + Hello + Test + Hello + FromMM, false);
  }
}
