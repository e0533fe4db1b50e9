/**
 * The pieces of Go's `strings`, `bytes` and `unicode` packages that the
 * helpers of the `tools` package rely on, stated over sequences.
 *
 * A Go `string` is a sequence of bytes; where the helpers only search and
 * cut, the model uses `seq<char>` (for valid UTF-8 the pieces are the same
 * whichever unit one counts in), and where byte offsets are observable it
 * uses `Bytes`.
 */
module GoStrings {

  newtype byte = x: int | 0 <= x < 256

  type Bytes = seq<byte>

  // ---------------------------------------------------------------------
  // Searching: strings.Index / bytes.Index / strings.Contains
  // ---------------------------------------------------------------------

  /** `k` occurs in `s` starting at position `i`. */
  predicate OccursAt<T(==)>(s: seq<T>, k: seq<T>, i: int)
  {
    0 <= i && i + |k| <= |s| && s[i..i + |k|] == k
  }

  /** Dropping the last element of `a + b`, for a non-empty `b`, drops it from `b`. */
  lemma DropLastAppend<T>(a: seq<T>, b: seq<T>)
    requires b != []
    ensures (a + b)[..|a + b| - 1] == a + b[..|b| - 1]
    ensures (a + b)[|a + b| - 1] == b[|b| - 1]
  {
  }

  /** The first occurrence of `k` in `s` at or after `from`, or -1. */
  function IndexFrom<T(==)>(s: seq<T>, k: seq<T>, from: nat): (r: int)
    ensures r == -1 || from <= r <= |s| - |k|
    decreases |s| - from
  {
    if from + |k| > |s| then -1
    else if s[from..from + |k|] == k then from
    else IndexFrom(s, k, from + 1)
  }

  /** IndexFrom finds the first occurrence at or after `from`, and -1 means there is none. */
  lemma {:induction false} IndexFromFirst<T>(s: seq<T>, k: seq<T>, from: nat)
    ensures var r := IndexFrom(s, k, from);
      && (r == -1 ==> forall j :: from <= j ==> !OccursAt(s, k, j))
      && (r != -1 ==> OccursAt(s, k, r) && forall j :: from <= j < r ==> !OccursAt(s, k, j))
    decreases |s| - from
  {
    if from + |k| <= |s| && s[from..from + |k|] != k {
      IndexFromFirst(s, k, from + 1);
    }
  }

  /** strings.Index: the position of the first occurrence of `k` in `s`, or -1. */
  function Index<T(==)>(s: seq<T>, k: seq<T>): (r: int)
    ensures r == -1 || 0 <= r <= |s| - |k|
  {
    IndexFrom(s, k, 0)
  }

  /** Index finds the first occurrence, and -1 means `k` does not occur at all. */
  lemma IndexFirst<T>(s: seq<T>, k: seq<T>)
    ensures Index(s, k) == -1 <==> forall j :: !OccursAt(s, k, j)
    ensures Index(s, k) != -1 ==>
      OccursAt(s, k, Index(s, k)) && forall j :: 0 <= j < Index(s, k) ==> !OccursAt(s, k, j)
  {
    IndexFromFirst(s, k, 0);
  }

  /** strings.Contains */
  predicate Contains<T(==)>(s: seq<T>, k: seq<T>)
  {
    Index(s, k) != -1
  }

  /** A slice of a suffix is a slice of the whole. */
  lemma SliceOfSuffix<T>(s: seq<T>, a: nat, i: nat, j: nat)
    requires a <= |s| && i <= j <= |s| - a
    ensures s[a..][i..j] == s[a + i..a + j]
    ensures s[a..][i..] == s[a + i..]
  {
    var inner, outer := s[a..][i..j], s[a + i..a + j];
    assert forall n :: 0 <= n < j - i ==> inner[n] == outer[n];
    var inner', outer' := s[a..][i..], s[a + i..];
    assert forall n :: 0 <= n < |s| - a - i ==> inner'[n] == outer'[n];
  }

  /** An occurrence inside a slice of `s` is an occurrence in `s`, shifted. */
  lemma OccursInSlice<T>(s: seq<T>, k: seq<T>, a: nat, b: nat, j: int)
    requires a <= b <= |s|
    requires OccursAt(s[a..b], k, j)
    ensures OccursAt(s, k, a + j)
  {
    assert a + j + |k| <= b;
    var inner, outer := s[a..b][j..j + |k|], s[a + j..a + j + |k|];
    assert forall i :: 0 <= i < |k| ==> inner[i] == outer[i];
  }

  /** An occurrence at or after `a` is an occurrence in the suffix from `a`. */
  lemma OccursInSuffix<T>(s: seq<T>, k: seq<T>, a: nat, j: int)
    requires a <= j && OccursAt(s, k, j)
    ensures OccursAt(s[a..], k, j - a)
  {
    var inner, outer := s[a..][j - a..j - a + |k|], s[j..j + |k|];
    assert forall i :: 0 <= i < |k| ==> inner[i] == outer[i];
  }

  /** The text before the first occurrence of a non-empty `k` does not contain `k`. */
  lemma IndexPrefixFree<T>(s: seq<T>, k: seq<T>)
    requires k != [] && Index(s, k) != -1
    ensures !Contains(s[..Index(s, k)], k)
  {
    var e := Index(s, k);
    IndexFirst(s, k);
    var t := s[..e];
    if Contains(t, k) {
      var j := Index(t, k);
      IndexFirst(t, k);
      assert t == s[0..e];
      OccursInSlice(s, k, 0, e, j);
      assert false;
    }
  }

  /** A one-element key occurs exactly where that element stands. */
  lemma OccursSingle<T>(s: seq<T>, x: T, i: int)
    ensures OccursAt(s, [x], i) <==> 0 <= i < |s| && s[i] == x
  {
    if 0 <= i < |s| {
      assert s[i..i + 1] == [s[i]];
    }
  }

  /**
   * A key whose first element does not occur in `pre` is found first right
   * after `pre` when `post` starts with it.
   */
  lemma IndexAfterClearPrefix<T>(pre: seq<T>, k: seq<T>, post: seq<T>)
    requires k != [] && k[0] !in pre
    requires |k| <= |post| && post[..|k|] == k
    ensures Index(pre + post, k) == |pre|
  {
    var s := pre + post;
    IndexFirst(s, k);
    assert s[|pre|..|pre| + |k|] == post[..|k|];
    assert OccursAt(s, k, |pre|);
    forall j | 0 <= j < |pre| ensures !OccursAt(s, k, j) {
      assert s[j] == pre[j];
    }
  }

  /** Every sequence contains the empty sequence, first of all at 0. */
  lemma IndexOfEmpty<T>(s: seq<T>)
    ensures Index(s, []) == 0
  {
    IndexFirst(s, []);
    assert OccursAt(s, [], 0);
  }

  // ---------------------------------------------------------------------
  // Rewriting: strings.ReplaceAll(s, c, "") and strings.Join
  // ---------------------------------------------------------------------

  /** strings.ReplaceAll(s, x, "") for a one-element `x`: drop every `x`, keep the rest in order. */
  function RemoveAll<T(==)>(s: seq<T>, x: T): (r: seq<T>)
    ensures |r| <= |s|
  {
    if s == [] then []
    else (if s[0] == x then [] else [s[0]]) + RemoveAll(s[1..], x)
  }

  /** RemoveAll drops every `x` and keeps every other element as often as it occurs. */
  lemma {:induction false} RemoveAllCount<T>(s: seq<T>, x: T)
    ensures multiset(RemoveAll(s, x)) == multiset(s)[x := 0]
  {
    if s != [] {
      var head, rest := s[0], s[1..];
      RemoveAllCount(rest, x);
      assert s == [head] + rest;
      assert RemoveAll(s, x) == (if head == x then [] else [head]) + RemoveAll(rest, x);
      assert multiset(s) == multiset{head} + multiset(rest);
    }
  }

  /** RemoveAll leaves a sequence without `x` as it is. */
  lemma {:induction false} RemoveAllAbsent<T>(s: seq<T>, x: T)
    requires x !in s
    ensures RemoveAll(s, x) == s
  {
    if s != [] {
      RemoveAllAbsent(s[1..], x);
      assert s == [s[0]] + s[1..];
    }
  }

  /** Removing `x` from a concatenation removes it from each side. */
  lemma {:induction false} RemoveAllAppend<T>(a: seq<T>, b: seq<T>, x: T)
    ensures RemoveAll(a + b, x) == RemoveAll(a, x) + RemoveAll(b, x)
  {
    var ab := a + b;
    if a != [] {
      var head := if a[0] == x then [] else [a[0]];
      assert ab[0] == a[0] && ab[1..] == a[1..] + b;
      RemoveAllAppend(a[1..], b, x);
      assert RemoveAll(ab, x) == head + RemoveAll(ab[1..], x);
      assert RemoveAll(a, x) == head + RemoveAll(a[1..], x);
    } else {
      assert ab == b;
    }
  }

  /** strings.Join */
  function Join<T>(parts: seq<seq<T>>, sep: seq<T>): (r: seq<T>)
  {
    if |parts| == 0 then []
    else if |parts| == 1 then parts[0]
    else Join(parts[..|parts| - 1], sep) + sep + parts[|parts| - 1]
  }

  /** The concatenation of all `parts` (a Join with an empty separator). */
  function Concat<T>(parts: seq<seq<T>>): (r: seq<T>)
  {
    if parts == [] then [] else Concat(parts[..|parts| - 1]) + parts[|parts| - 1]
  }

  /** Concatenation distributes over appending lists of parts. */
  lemma {:induction false} ConcatAppend<T>(a: seq<seq<T>>, b: seq<seq<T>>)
    ensures Concat(a + b) == Concat(a) + Concat(b)
    decreases |b|
  {
    if b == [] {
      assert a + b == a;
    } else {
      var init := b[..|b| - 1];
      ConcatAppend(a, init);
      DropLastAppend(a, b);
      var x, y, z := Concat(a), Concat(init), b[|b| - 1];
      assert Concat(a + b) == x + y + z;
      assert x + y + z == x + (y + z);
    }
  }

  /** Removing a one-element separator from a Join of parts without it leaves their concatenation. */
  lemma {:induction false} RemoveSeparators<T>(parts: seq<seq<T>>, x: T)
    requires forall i :: 0 <= i < |parts| ==> x !in parts[i]
    ensures RemoveAll(Join(parts, [x]), x) == Concat(parts)
    decreases |parts|
  {
    if |parts| == 1 {
      RemoveAllAbsent(parts[0], x);
      assert parts[..0] == [];
    } else if |parts| > 1 {
      var init, last := parts[..|parts| - 1], parts[|parts| - 1];
      RemoveSeparators(init, x);
      RemoveAllAppend(Join(init, [x]) + [x], last, x);
      RemoveAllAppend(Join(init, [x]), [x], x);
      RemoveAllAbsent(last, x);
      assert RemoveAll([x], x) == [];
    }
  }

  /** How many times `x` occurs in a Join is its count in the parts plus one per separator. */
  lemma {:induction false} JoinCount<T>(parts: seq<seq<T>>, sep: seq<T>, x: T)
    ensures multiset(Join(parts, sep))[x]
         == SumCount(parts, x) + (if |parts| == 0 then 0 else (|parts| - 1) * multiset(sep)[x])
  {
    if |parts| > 1 {
      var init := parts[..|parts| - 1];
      JoinCount(init, sep, x);
      assert init[..|init| - 1] == parts[..|parts| - 2];
    } else if |parts| == 1 {
      assert parts[..0] == [];
    }
  }

  /** A Join of parts none of which holds `x`, with a separator without `x`, has no `x` removed by RemoveAll. */
  lemma {:induction false} RemoveAllJoin<T>(parts: seq<seq<T>>, sep: seq<T>, x: T)
    requires x !in sep
    ensures RemoveAll(Join(parts, sep), x) == Join(seq(|parts|, i requires 0 <= i < |parts| => RemoveAll(parts[i], x)), sep)
    decreases |parts|
  {
    var cleaned := seq(|parts|, i requires 0 <= i < |parts| => RemoveAll(parts[i], x));
    if |parts| > 1 {
      var init, last := parts[..|parts| - 1], parts[|parts| - 1];
      var j := Join(init, sep);
      RemoveAllJoin(init, sep, x);
      RemoveAllAppend(j + sep, last, x);
      RemoveAllAppend(j, sep, x);
      RemoveAllAbsent(sep, x);
      assert RemoveAll(Join(parts, sep), x) == RemoveAll(j, x) + sep + RemoveAll(last, x);
      RemoveEachInit(parts, x);
    }
  }

  /** Removing `x` from each part, then dropping the last part, is dropping it first. */
  lemma RemoveEachInit<T>(parts: seq<seq<T>>, x: T)
    requires parts != []
    ensures var cleaned := seq(|parts|, i requires 0 <= i < |parts| => RemoveAll(parts[i], x));
      var init := parts[..|parts| - 1];
      && cleaned[..|cleaned| - 1] == seq(|init|, i requires 0 <= i < |init| => RemoveAll(init[i], x))
      && cleaned[|cleaned| - 1] == RemoveAll(parts[|parts| - 1], x)
  {
  }

  /** The total number of `x` in all `parts`. */
  function SumCount<T(==)>(parts: seq<seq<T>>, x: T): nat
  {
    if parts == [] then 0 else SumCount(parts[..|parts| - 1], x) + multiset(parts[|parts| - 1])[x]
  }

  /** No part holding `x` means a total count of zero. */
  lemma {:induction false} SumCountNone<T>(parts: seq<seq<T>>, x: T)
    requires forall i :: 0 <= i < |parts| ==> x !in parts[i]
    ensures SumCount(parts, x) == 0
  {
    if parts != [] {
      SumCountNone(parts[..|parts| - 1], x);
    }
  }

  /** The position of the last `x` in `s`, or -1. */
  function LastIndexOf<T(==)>(s: seq<T>, x: T): (r: int)
    ensures r == -1 <==> x !in s
    ensures r != -1 ==> 0 <= r < |s| && s[r] == x && x !in s[r + 1..]
  {
    if s == [] then -1
    else if s[|s| - 1] == x then |s| - 1
    else
      var r := LastIndexOf(s[..|s| - 1], x);
      assert s == s[..|s| - 1] + [s[|s| - 1]];
      assert r != -1 ==> s[r + 1..] == s[..|s| - 1][r + 1..] + [s[|s| - 1]];
      r
  }

  /** strings.Split with a one-element separator: the pieces between the occurrences of `x`. */
  function Split<T(==)>(s: seq<T>, x: T): (r: seq<seq<T>>)
    ensures |r| >= 1
    decreases |s|
  {
    var i := LastIndexOf(s, x);
    if i == -1 then [s] else Split(s[..i], x) + [s[i + 1..]]
  }

  /** Splitting a Join on its one-element separator gives back the parts when none of them holds it. */
  lemma {:induction false} SplitJoin<T>(parts: seq<seq<T>>, x: T)
    requires |parts| >= 1
    requires forall i :: 0 <= i < |parts| ==> x !in parts[i]
    ensures Split(Join(parts, [x]), x) == parts
    decreases |parts|
  {
    if |parts| > 1 {
      var init, last := parts[..|parts| - 1], parts[|parts| - 1];
      var j := Join(init, [x]);
      SplitJoin(init, x);
      var s := j + [x] + last;
      assert s[|j|] == x;
      assert s[|j| + 1..] == last;
      assert s[..|j|] == j;
      assert LastIndexOf(s, x) == |j|;
      assert parts == init + [last];
    }
  }

  // ---------------------------------------------------------------------
  // Trimming: strings.Trim, strings.TrimSpace, strings.TrimPrefix
  // ---------------------------------------------------------------------

  /** unicode.IsSpace: the Latin-1 spaces and the Unicode White_Space property. */
  predicate IsSpace(c: char)
  {
    || c == '\t' || c == '\n' || c == '\U{000B}' || c == '\U{000C}' || c == '\r' || c == ' '
    || c == '\U{0085}' || c == '\U{00A0}' || c == '\U{1680}'
    || ('\U{2000}' <= c <= '\U{200A}')
    || c == '\U{2028}' || c == '\U{2029}' || c == '\U{202F}' || c == '\U{205F}' || c == '\U{3000}'
  }

  /** strings.TrimLeftFunc: drop the longest prefix whose characters all satisfy `cut`. */
  function TrimLeftBy(s: string, cut: char -> bool): (r: string)
    ensures |r| <= |s|
  {
    if s != [] && cut(s[0]) then TrimLeftBy(s[1..], cut) else s
  }

  /** TrimLeftBy keeps a suffix that does not start with a cut character and drops only cut characters. */
  lemma {:induction false} TrimLeftByCuts(s: string, cut: char -> bool)
    ensures var r := TrimLeftBy(s, cut);
      && r == s[|s| - |r|..]
      && (r == [] || !cut(r[0]))
      && forall i :: 0 <= i < |s| - |r| ==> cut(s[i])
  {
    if s != [] && cut(s[0]) {
      TrimLeftByCuts(s[1..], cut);
      var r := TrimLeftBy(s, cut);
      assert s[1..][|s| - 1 - |r|..] == s[|s| - |r|..];
      forall i | 1 <= i < |s| - |r| ensures cut(s[i]) {
        assert s[i] == s[1..][i - 1];
      }
    }
  }

  /** strings.TrimRightFunc: drop the longest suffix whose characters all satisfy `cut`. */
  function TrimRightBy(s: string, cut: char -> bool): (r: string)
    ensures |r| <= |s|
  {
    if s != [] && cut(s[|s| - 1]) then TrimRightBy(s[..|s| - 1], cut) else s
  }

  /** TrimRightBy keeps a prefix that does not end with a cut character and drops only cut characters. */
  lemma {:induction false} TrimRightByCuts(s: string, cut: char -> bool)
    ensures var r := TrimRightBy(s, cut);
      && r == s[..|r|]
      && (r == [] || !cut(r[|r| - 1]))
      && forall i :: |r| <= i < |s| ==> cut(s[i])
  {
    if s != [] && cut(s[|s| - 1]) {
      var init := s[..|s| - 1];
      TrimRightByCuts(init, cut);
      var r := TrimRightBy(s, cut);
      assert init[..|r|] == s[..|r|];
      forall i | |r| <= i < |s| - 1 ensures cut(s[i]) {
        assert s[i] == init[i];
      }
    }
  }

  /** strings.TrimFunc */
  function TrimBy(s: string, cut: char -> bool): string
  {
    TrimRightBy(TrimLeftBy(s, cut), cut)
  }

  /** TrimBy leaves neither end on a cut character. */
  lemma TrimByEdges(s: string, cut: char -> bool)
    ensures var r := TrimBy(s, cut); r == [] || (!cut(r[0]) && !cut(r[|r| - 1]))
  {
    var l := TrimLeftBy(s, cut);
    TrimLeftByCuts(s, cut);
    TrimRightByCuts(l, cut);
  }

  /** TrimBy leaves a text whose ends are not cut characters as it is. */
  lemma TrimByUncut(s: string, cut: char -> bool)
    requires s == [] || (!cut(s[0]) && !cut(s[|s| - 1]))
    ensures TrimBy(s, cut) == s
  {
  }

  /** strings.TrimSpace */
  function TrimSpace(s: string): string
  {
    TrimBy(s, IsSpace)
  }

  /** strings.TrimPrefix */
  function TrimPrefix<T(==)>(s: seq<T>, prefix: seq<T>): (r: seq<T>)
    ensures r == s || (s == prefix + r)
  {
    if |prefix| <= |s| && s[..|prefix|] == prefix then s[|prefix|..] else s
  }

  // ---------------------------------------------------------------------
  // Encoding: the conversion []byte(s) of a string to its UTF-8 bytes
  // ---------------------------------------------------------------------

  /** A UTF-8 continuation byte carrying the low six bits of `x`. */
  function Cont(x: nat): (r: byte)
    ensures 0x80 <= r < 0xC0
  {
    (0x80 + x % 0x40) as byte
  }

  /** The UTF-8 encoding of one Unicode scalar value. */
  function Utf8Char(c: char): (r: Bytes)
    ensures 1 <= |r| <= 4
    ensures (c as int) < 0x80 ==> r == [c as int as byte]
    ensures (c as int) >= 0x80 ==> r[0] >= 0xC0 && forall i :: 1 <= i < |r| ==> r[i] == Cont(r[i] as int)
  {
    var n := c as int;
    if n < 0x80 then [n as byte]
    else if n < 0x800 then [(0xC0 + n / 0x40) as byte, Cont(n)]
    else if n < 0x10000 then [(0xE0 + n / 0x1000) as byte, Cont(n / 0x40), Cont(n)]
    else [(0xF0 + n / 0x40000) as byte, Cont(n / 0x1000), Cont(n / 0x40), Cont(n)]
  }

  /** []byte(s): the UTF-8 encoding of a string. */
  function Utf8(s: string): (r: Bytes)
    ensures |r| >= |s|
  {
    if s == [] then [] else Utf8(s[..|s| - 1]) + Utf8Char(s[|s| - 1])
  }

  lemma {:induction false} Utf8Append(a: string, b: string)
    ensures Utf8(a + b) == Utf8(a) + Utf8(b)
    decreases |b|
  {
    if b == [] {
      assert a + b == a;
    } else {
      var b', last := b[..|b| - 1], b[|b| - 1];
      DropLastAppend(a, b);
      Utf8Append(a, b');
      var x, y, z := Utf8(a), Utf8(b'), Utf8Char(last);
      assert Utf8(a + b) == x + y + z;
      assert Utf8(b) == y + z;
      assert x + y + z == x + (y + z);
    }
  }

  /** An ASCII character's byte occurs once in its own encoding and never in another character's. */
  lemma Utf8CharAsciiCount(ch: char, c: char)
    requires (c as int) < 0x80
    ensures multiset(Utf8Char(ch))[c as int as byte] == if ch == c then 1 else 0
  {
    var r, b := Utf8Char(ch), c as int as byte;
    if (ch as int) >= 0x80 {
      forall i | 0 <= i < |r| ensures r[i] != b {
        if i > 0 {
          assert r[i] == Cont(r[i] as int);
        }
      }
      assert b !in r;
    }
  }

  /** The count of `x` in `s` is its count before the last element plus that element's share. */
  lemma CountLast<T>(s: seq<T>, x: T)
    requires s != []
    ensures multiset(s)[x] == multiset(s[..|s| - 1])[x] + multiset{s[|s| - 1]}[x]
  {
    assert s == s[..|s| - 1] + [s[|s| - 1]];
  }

  /** An ASCII character occurs in the UTF-8 bytes exactly as often as in the string. */
  lemma {:induction false} Utf8AsciiCount(s: string, c: char)
    requires (c as int) < 0x80
    ensures multiset(Utf8(s))[c as int as byte] == multiset(s)[c]
  {
    if s != [] {
      var init, last := s[..|s| - 1], s[|s| - 1];
      var b := c as int as byte;
      Utf8AsciiCount(init, c);
      Utf8CharAsciiCount(last, c);
      CountLast(s, c);
      var u, w := Utf8(init), Utf8Char(last);
      assert Utf8(s) == u + w;
      assert multiset(u + w)[b] == multiset(u)[b] + multiset(w)[b];
    }
  }
}
