/**
 * HexStringToBytes and BytesToHexString: hexadecimal text to bytes and back.
 *
 * HexStringToBytes accepts "0xA0D1", "A0 D1", "\A0 \D1" and "a0d1" alike:
 * it lowers the case, drops a leading "0x", every backslash and every
 * space, pads an odd length with a leading "0", and decodes the pairs.
 * BytesToHexString writes two upper-case digits per byte, separated by a
 * space when asked.
 */
module Hex {
  import opened Wrappers
  import opened GoStrings

  // ---------------------------------------------------------------------
  // Characters and case
  // ---------------------------------------------------------------------

  /** A digit of encoding/hex: 0-9, a-f or A-F. */
  predicate IsHexDigit(c: char)
  {
    ('0' <= c <= '9') || ('a' <= c <= 'f') || ('A' <= c <= 'F')
  }

  /** A digit as encoding/hex writes it: 0-9 or a-f. */
  predicate IsLowerHex(c: char)
  {
    ('0' <= c <= '9') || ('a' <= c <= 'f')
  }

  /** The value of a hexadecimal digit. */
  function Value(c: char): (v: nat)
    requires IsHexDigit(c)
    ensures v < 16
  {
    if '0' <= c <= '9' then c as int - '0' as int
    else if 'a' <= c <= 'f' then c as int - 'a' as int + 10
    else c as int - 'A' as int + 10
  }

  /** The lower-case digit for a value below 16. */
  function Digit(n: nat): (c: char)
    requires n < 16
    ensures IsLowerHex(c) && Value(c) == n
  {
    if n < 10 then ('0' as int + n) as char else ('a' as int + n - 10) as char
  }

  /** Upper-case ASCII letters become lower case; everything else stays. */
  function LowerChar(c: char): char
  {
    if 'A' <= c <= 'Z' then (c as int + 32) as char else c
  }

  /** Lower-case ASCII letters become upper case; everything else stays. */
  function UpperChar(c: char): char
  {
    if 'a' <= c <= 'z' then (c as int - 32) as char else c
  }

  /** strings.ToLower, on ASCII letters. */
  function ToLower(s: string): (r: string)
    ensures |r| == |s|
  {
    if s == [] then [] else [LowerChar(s[0])] + ToLower(s[1..])
  }

  /** strings.ToUpper, on ASCII letters. */
  function ToUpper(s: string): (r: string)
    ensures |r| == |s|
  {
    if s == [] then [] else [UpperChar(s[0])] + ToUpper(s[1..])
  }

  // ---------------------------------------------------------------------
  // encoding/hex
  // ---------------------------------------------------------------------

  /** Why decoding failed: the first character that is not a hexadecimal digit. */
  datatype HexError = InvalidByte(c: char)

  /** hex.DecodeString on an even-length text: each pair of digits is one byte, high digit first. */
  function DecodeHex(t: string): (r: Result<Bytes, HexError>)
    requires |t| % 2 == 0
  {
    if t == [] then Ok([])
    else if !IsHexDigit(t[0]) then Err(InvalidByte(t[0]))
    else if !IsHexDigit(t[1]) then Err(InvalidByte(t[1]))
    else
      match DecodeHex(t[2..])
      case Ok(rest) => Ok([(Value(t[0]) * 16 + Value(t[1])) as byte] + rest)
      case Err(e) => Err(e)
  }

  /** The two lower-case digits of a byte. */
  function HexPair(b: byte): string
  {
    [Digit(b as int / 16), Digit(b as int % 16)]
  }

  /** hex.EncodeToString: two lower-case digits per byte. */
  function EncodeHex(data: Bytes): (r: string)
    ensures |r| == 2 * |data|
  {
    if data == [] then [] else HexPair(data[0]) + EncodeHex(data[1..])
  }

  /**
   * Decoding succeeds exactly when every character is a hexadecimal digit,
   * gives one byte per pair, and otherwise reports the first character that
   * is not one.
   */
  lemma DecodeHexOutcome(t: string)
    requires |t| % 2 == 0
    ensures DecodeHex(t).Ok? <==> forall i :: 0 <= i < |t| ==> IsHexDigit(t[i])
    ensures DecodeHex(t).Ok? ==> |DecodeHex(t).value| == |t| / 2
    ensures DecodeHex(t).Err? ==> exists i :: (0 <= i < |t| && !IsHexDigit(t[i])
      && DecodeHex(t).error == InvalidByte(t[i]) && forall j :: 0 <= j < i ==> IsHexDigit(t[j]))
  {
    DecodeHexOk(t);
    DecodeHexFirstBad(t);
  }

  /** Decoding succeeds exactly on all-digit text, with one byte per pair. */
  lemma {:induction false} DecodeHexOk(t: string)
    requires |t| % 2 == 0
    ensures DecodeHex(t).Ok? <==> forall i :: 0 <= i < |t| ==> IsHexDigit(t[i])
    ensures DecodeHex(t).Ok? ==> |DecodeHex(t).value| == |t| / 2
  {
    if t != [] && IsHexDigit(t[0]) && IsHexDigit(t[1]) {
      var rest := t[2..];
      DecodeHexOk(rest);
      forall i | 2 <= i < |t| ensures t[i] == rest[i - 2] {}
    }
  }

  /** A failed decoding names the first character that is not a digit. */
  lemma {:induction false} DecodeHexFirstBad(t: string)
    requires |t| % 2 == 0
    ensures DecodeHex(t).Err? ==> exists i :: (0 <= i < |t| && !IsHexDigit(t[i])
      && DecodeHex(t).error == InvalidByte(t[i]) && forall j :: 0 <= j < i ==> IsHexDigit(t[j]))
  {
    if t != [] && IsHexDigit(t[0]) && IsHexDigit(t[1]) {
      var rest := t[2..];
      DecodeHexFirstBad(rest);
      if DecodeHex(rest).Err? {
        var k :| 0 <= k < |rest| && !IsHexDigit(rest[k]) && DecodeHex(rest).error == InvalidByte(rest[k])
          && forall j :: 0 <= j < k ==> IsHexDigit(rest[j]);
        assert t[k + 2] == rest[k];
        forall j | 0 <= j < k + 2 ensures IsHexDigit(t[j]) {
          if j >= 2 {
            assert t[j] == rest[j - 2];
          }
        }
      }
    }
  }

  /** Decoding the encoding of some bytes gives those bytes back. */
  lemma {:induction false} DecodeEncode(data: Bytes)
    ensures DecodeHex(EncodeHex(data)) == Ok(data)
  {
    if data != [] {
      var t := EncodeHex(data);
      DecodeEncode(data[1..]);
      assert t[2..] == EncodeHex(data[1..]);
      assert t[0] == Digit(data[0] as int / 16) && t[1] == Digit(data[0] as int % 16);
      assert data == [data[0]] + data[1..];
    }
  }

  // ---------------------------------------------------------------------
  // HexStringToBytes
  // ---------------------------------------------------------------------

  /** The text HexStringToBytes decodes: lowered, without "0x", backslashes and spaces, padded to even length. */
  function Normalize(s: string): (t: string)
    ensures |t| % 2 == 0
  {
    var t := Strip(TrimPrefix(ToLower(s), "0x"));
    if |t| % 2 != 0 then "0" + t else t
  }

  /** The text without its backslashes and spaces. */
  function Strip(s: string): string
  {
    RemoveAll(RemoveAll(s, '\\'), ' ')
  }

  /** Stripping commutes with concatenation. */
  lemma StripAppend(a: string, b: string)
    ensures Strip(a + b) == Strip(a) + Strip(b)
  {
    RemoveAllAppend(a, b, '\\');
    RemoveAllAppend(RemoveAll(a, '\\'), RemoveAll(b, '\\'), ' ');
  }

  /** Text without backslashes and spaces is left as it is. */
  lemma StripAbsent(s: string)
    requires '\\' !in s && ' ' !in s
    ensures Strip(s) == s
  {
    RemoveAllAbsent(s, '\\');
    RemoveAllAbsent(s, ' ');
  }

  /** HexStringToBytes */
  function HexStringToBytes(s: string): Result<Bytes, HexError>
  {
    DecodeHex(Normalize(s))
  }

  /**
   * HexStringToBytes fails exactly when a character other than a digit,
   * backslash or space is left after the "0x" prefix, and otherwise gives
   * one byte for every two digits, rounding up.
   */
  lemma HexStringOutcome(s: string)
    ensures HexStringToBytes(s).Ok? <==> forall c :: c in Normalize(s) ==> IsHexDigit(c)
    ensures HexStringToBytes(s).Ok? ==> |HexStringToBytes(s).value| == |Normalize(s)| / 2
  {
    DecodeHexOutcome(Normalize(s));
  }

  /** One step of decoding: a pair of digits in front of text that decodes. */
  lemma DecodeStep(t: string, hi: char, lo: char, rest: Bytes)
    requires |t| >= 2 && |t| % 2 == 0 && t[0] == hi && t[1] == lo
    requires IsHexDigit(hi) && IsHexDigit(lo) && DecodeHex(t[2..]) == Ok(rest)
    ensures DecodeHex(t) == Ok([(Value(hi) * 16 + Value(lo)) as byte] + rest)
  {
  }

  /** The two bytes of the documented examples. */
  lemma DecodeA0D1()
    ensures DecodeHex("a0d1") == Ok([0xA0, 0xD1])
  {
    var t, u := "a0d1", "d1";
    assert t[2..] == u && u[2..] == [];
    DecodeStep(u, 'd', '1', []);
    assert [(Value('d') * 16 + Value('1')) as byte] + [] == [0xD1];
    DecodeStep(t, 'a', '0', [0xD1]);
    assert [(Value('a') * 16 + Value('0')) as byte] + [0xD1] == [0xA0, 0xD1];
  }

  /** What HexStringToBytes decodes once the case is lowered and the prefix is gone. */
  lemma NormalizeSteps(s: string, lowered: string, unprefixed: string, t: string)
    requires ToLower(s) == lowered && TrimPrefix(lowered, "0x") == unprefixed
    requires Strip(unprefixed) == t && |t| % 2 == 0
    ensures Normalize(s) == t
  {
  }

  /** "a0d1" decodes to A0 D1. */
  lemma HexStringPlain()
    ensures HexStringToBytes("a0d1") == Ok([0xA0, 0xD1])
  {
    DecodeA0D1();
    var plain := "a0d1";
    StripAbsent(plain);
    assert ToLower(plain) == plain;
    assert plain[..2][0] == 'a';
    NormalizeSteps(plain, plain, plain, plain);
  }

  // ---------------------------------------------------------------------
  // BytesToHexString
  // ---------------------------------------------------------------------

  /** The text BytesToHexString returns. */
  function HexText(data: Bytes, withSpace: bool): string
  {
    if withSpace then Join(seq(|data|, i requires 0 <= i < |data| => ToUpper(HexPair(data[i]))), " ")
    else ToUpper(EncodeHex(data))
  }

  /** The pair of digits encoding byte `i` sits at positions 2i and 2i+1 of the encoding. */
  lemma {:induction false} EncodeHexPairs(data: Bytes, i: nat)
    requires i < |data|
    ensures EncodeHex(data)[2 * i..2 * i + 2] == HexPair(data[i])
  {
    if i > 0 {
      EncodeHexPairs(data[1..], i - 1);
      var t := EncodeHex(data);
      assert t == HexPair(data[0]) + EncodeHex(data[1..]);
      assert t[2 * i..2 * i + 2] == EncodeHex(data[1..])[2 * (i - 1)..2 * (i - 1) + 2];
    }
  }

  /**
   * BytesToHexString: encode, then either upper-case the whole text or cut
   * it into pairs, upper-case each and join them with spaces.
   */
  method BytesToHexString(data: Bytes, withSpace: bool) returns (r: string)
    ensures r == HexText(data, withSpace)
  {
    var s := EncodeHex(data);
    if withSpace {
      var parts: seq<string> := [];
      var i := 0;
      while i < |s|
        invariant i % 2 == 0 && 0 <= i <= |s|
        invariant parts == seq(i / 2, j requires 0 <= j < i / 2 => ToUpper(HexPair(data[j])))
      {
        EncodeHexPairs(data, i / 2);
        parts := parts + [ToUpper(s[i..i + 2])];
        i := i + 2;
      }
      return Join(parts, " ");
    }
    return ToUpper(s);
  }

  /** Without spaces two characters per byte, with spaces three per byte but the last. */
  lemma {:induction false} HexTextLength(data: Bytes, withSpace: bool)
    ensures |HexText(data, withSpace)| == if !withSpace then 2 * |data| else if data == [] then 0 else 3 * |data| - 1
    decreases |data|
  {
    if withSpace && |data| > 1 {
      var init := data[..|data| - 1];
      HexTextLength(init, true);
      var parts := seq(|data|, i requires 0 <= i < |data| => ToUpper(HexPair(data[i])));
      assert parts[..|parts| - 1] == seq(|init|, i requires 0 <= i < |init| => ToUpper(HexPair(init[i])));
    }
  }

  /** The bytes of the example given with BytesToHexString, pair by pair. */
  lemma ExamplePairs()
    ensures ToUpper(HexPair(0x12)) == "12" && ToUpper(HexPair(0xAB)) == "AB"
    ensures ToUpper(HexPair(0x34)) == "34" && ToUpper(HexPair(0xCD)) == "CD"
  {
    assert HexPair(0x12) == "12" && HexPair(0xAB) == "ab" && HexPair(0x34) == "34" && HexPair(0xCD) == "cd";
  }

  /** The lower-case encoding of the example bytes. */
  lemma ExampleEncoding()
    ensures EncodeHex([0x12, 0xAB, 0x34, 0xCD]) == "12ab34cd"
  {
    var d: Bytes := [0x12, 0xAB, 0x34, 0xCD];
    assert HexPair(0x12) == "12" && HexPair(0xAB) == "ab" && HexPair(0x34) == "34" && HexPair(0xCD) == "cd";
    assert d[1..] == [0xAB, 0x34, 0xCD] && d[1..][1..] == [0x34, 0xCD];
    assert d[1..][1..][1..] == [0xCD] && d[1..][1..][1..][1..] == [];
  }

  /** The example given with BytesToHexString, without spaces. */
  lemma HexTextExample()
    ensures HexText([0x12, 0xAB, 0x34, 0xCD], false) == "12AB34CD"
  {
    ExampleEncoding();
    ExampleUpper();
  }

  /** Raising the case of the example encoding. */
  lemma ExampleUpper()
    ensures ToUpper("12ab34cd") == "12AB34CD"
  {
    var u := ToUpper("12ab34cd");
    UpperAt("12ab34cd");
    assert u == "12AB34CD";
  }

  /** Raising the case works character by character. */
  lemma {:induction false} UpperAt(s: string)
    ensures forall i :: 0 <= i < |s| ==> ToUpper(s)[i] == UpperChar(s[i])
  {
    if s != [] {
      UpperAt(s[1..]);
    }
  }

  /** The upper-case pairs of the example bytes. */
  lemma ExampleUpperPairs()
    ensures var d: Bytes := [0x12, 0xAB, 0x34, 0xCD];
      seq(|d|, i requires 0 <= i < |d| => ToUpper(HexPair(d[i]))) == ["12", "AB", "34", "CD"]
  {
    ExamplePairs();
  }

  /** Joining the example pairs with spaces. */
  lemma ExampleJoin()
    ensures Join(["12", "AB", "34", "CD"], " ") == "12 AB 34 CD"
  {
    var parts := ["12", "AB", "34", "CD"];
    var p3, p2 := parts[..3], parts[..3][..2];
    assert p3 == ["12", "AB", "34"] && p2 == ["12", "AB"] && p2[..1] == ["12"];
    assert Join(p2, " ") == "12" + " " + "AB";
    assert Join(p3, " ") == "12 AB" + " " + "34";
  }

  /** The example given with BytesToHexString, with spaces. */
  lemma HexTextSpacedExample()
    ensures HexText([0x12, 0xAB, 0x34, 0xCD], true) == "12 AB 34 CD"
  {
    ExampleUpperPairs();
    ExampleJoin();
  }

  // ---------------------------------------------------------------------
  // The round trip
  // ---------------------------------------------------------------------

  /** The text before its case is raised: lower-case pairs, joined by spaces when asked. */
  function LowerText(data: Bytes, withSpace: bool): string
  {
    if withSpace then Join(seq(|data|, i requires 0 <= i < |data| => HexPair(data[i])), " ") else EncodeHex(data)
  }

  /** Lowering an upper-cased lower-case hexadecimal text gives it back. */
  lemma {:induction false} LowerUpperHex(s: string)
    requires forall i :: 0 <= i < |s| ==> IsLowerHex(s[i]) || s[i] == ' '
    ensures ToLower(ToUpper(s)) == s
  {
    if s != [] {
      LowerUpperHex(s[1..]);
      assert ToUpper(s)[1..] == ToUpper(s[1..]);
    }
  }

  /** Lowering commutes with concatenation. */
  lemma {:induction false} LowerAppend(a: string, b: string)
    ensures ToLower(a + b) == ToLower(a) + ToLower(b)
  {
    if a != [] {
      LowerAppend(a[1..], b);
      assert (a + b)[1..] == a[1..] + b;
    } else {
      assert a + b == b;
    }
  }

  /** Lowering text on both sides of a space. */
  lemma LowerAround(front: string, last: string)
    ensures ToLower(front + " " + last) == ToLower(front) + " " + ToLower(last)
  {
    LowerAppend(front + " ", last);
    LowerAppend(front, " ");
    assert ToLower(" ") == " ";
  }

  /** Lowering a Join of upper-cased pairs gives the Join of the pairs. */
  lemma {:induction false} LowerJoin(data: Bytes)
    ensures ToLower(HexText(data, true)) == LowerText(data, true)
    decreases |data|
  {
    var ups := seq(|data|, i requires 0 <= i < |data| => ToUpper(HexPair(data[i])));
    var lows := seq(|data|, i requires 0 <= i < |data| => HexPair(data[i]));
    if |data| == 1 {
      LowerUpperHex(HexPair(data[0]));
    } else if |data| > 1 {
      var init := data[..|data| - 1];
      LowerJoin(init);
      assert ups[..|ups| - 1] == seq(|init|, i requires 0 <= i < |init| => ToUpper(HexPair(init[i])));
      assert lows[..|lows| - 1] == seq(|init|, i requires 0 <= i < |init| => HexPair(init[i]));
      LowerAround(Join(ups[..|ups| - 1], " "), ups[|ups| - 1]);
      LowerUpperHex(HexPair(data[|data| - 1]));
    }
  }

  /** Lowering the text BytesToHexString returns gives the lower-case text. */
  lemma LowerHexText(data: Bytes, withSpace: bool)
    ensures ToLower(HexText(data, withSpace)) == LowerText(data, withSpace)
  {
    if withSpace {
      LowerJoin(data);
    } else {
      var s := EncodeHex(data);
      forall i | 0 <= i < |s| ensures IsLowerHex(s[i]) {
        EncodeHexPairs(data, i / 2);
        assert s[i] == s[2 * (i / 2)..2 * (i / 2) + 2][i % 2];
      }
      LowerUpperHex(s);
    }
  }

  /** The encoding holds nothing but lower-case digits. */
  lemma EncodeHexFree(data: Bytes, c: char)
    requires !IsLowerHex(c)
    ensures c !in EncodeHex(data)
  {
    var s := EncodeHex(data);
    forall i | 0 <= i < |s| ensures s[i] != c {
      EncodeHexPairs(data, i / 2);
      assert s[i] == s[2 * (i / 2)..2 * (i / 2) + 2][i % 2];
    }
  }

  /** The lower-case text holds nothing but lower-case digits and spaces. */
  lemma LowerTextFree(data: Bytes, withSpace: bool, c: char)
    requires !IsLowerHex(c) && c != ' '
    ensures c !in LowerText(data, withSpace)
  {
    if withSpace {
      var pairs := seq(|data|, i requires 0 <= i < |data| => HexPair(data[i]));
      SumCountNone(pairs, c);
      JoinCount(pairs, " ", c);
    } else {
      EncodeHexFree(data, c);
    }
  }

  /** The concatenation of the pairs is the encoding. */
  lemma {:induction false} ConcatPairs(data: Bytes)
    ensures Concat(seq(|data|, i requires 0 <= i < |data| => HexPair(data[i]))) == EncodeHex(data)
    decreases |data|
  {
    if data != [] {
      var init := data[..|data| - 1];
      var pairs := seq(|data|, i requires 0 <= i < |data| => HexPair(data[i]));
      ConcatPairs(init);
      assert pairs[..|pairs| - 1] == seq(|init|, i requires 0 <= i < |init| => HexPair(init[i]));
      EncodeHexAppend(init, [data[|data| - 1]]);
      assert init + [data[|data| - 1]] == data;
    }
  }

  /** Encoding commutes with concatenation. */
  lemma {:induction false} EncodeHexAppend(a: Bytes, b: Bytes)
    ensures EncodeHex(a + b) == EncodeHex(a) + EncodeHex(b)
  {
    if a != [] {
      EncodeHexAppend(a[1..], b);
      assert (a + b)[1..] == a[1..] + b;
    } else {
      assert a + b == b;
    }
  }

  /** After the "0x", backslash and space clean-up, the lower-case text is the plain encoding. */
  lemma StripLowerText(data: Bytes, withSpace: bool)
    ensures Strip(TrimPrefix(LowerText(data, withSpace), "0x")) == EncodeHex(data)
  {
    var t := LowerText(data, withSpace);
    LowerTextFree(data, withSpace, 'x');
    if |t| >= 2 {
      assert t[1] in t;
      assert t[..2][1] == t[1] != 'x';
    }
    assert TrimPrefix(t, "0x") == t;
    LowerTextFree(data, withSpace, '\\');
    RemoveAllAbsent(t, '\\');
    if withSpace {
      var pairs := seq(|data|, i requires 0 <= i < |data| => HexPair(data[i]));
      forall i | 0 <= i < |pairs| ensures ' ' !in pairs[i] {
        assert pairs[i] == HexPair(data[i]);
      }
      RemoveSeparators(pairs, ' ');
      ConcatPairs(data);
    } else {
      EncodeHexFree(data, ' ');
      RemoveAllAbsent(t, ' ');
    }
  }

  /** The round trip: HexStringToBytes reads back every text BytesToHexString writes, with or without spaces. */
  lemma HexRoundTrip(data: Bytes, withSpace: bool)
    ensures HexStringToBytes(HexText(data, withSpace)) == Ok(data)
  {
    var lowered := ToLower(HexText(data, withSpace));
    LowerHexText(data, withSpace);
    StripLowerText(data, withSpace);
    var t := Strip(TrimPrefix(lowered, "0x"));
    assert t == EncodeHex(data) && |t| % 2 == 0;
    assert Normalize(HexText(data, withSpace)) == t;
    DecodeEncode(data);
  }
  // ---------------------------------------------------------------------
  // The other documented input forms
  // ---------------------------------------------------------------------

  /** Lowering a "0x" or "0X" in front of the encoding gives "0x" and the lower-case digits. */
  lemma LowerPrefixed(data: Bytes, prefix: string)
    requires prefix == "0x" || prefix == "0X"
    ensures ToLower(prefix + HexText(data, false)) == "0x" + EncodeHex(data)
  {
    LowerAppend(prefix, HexText(data, false));
    assert ToLower(prefix) == "0x";
    LowerHexText(data, false);
  }

  /** The encoding with a "0x" or "0X" in front decodes to the bytes. */
  lemma HexStringPrefixed(data: Bytes, prefix: string)
    requires prefix == "0x" || prefix == "0X"
    ensures HexStringToBytes(prefix + HexText(data, false)) == Ok(data)
  {
    var e := EncodeHex(data);
    LowerPrefixed(data, prefix);
    var l := "0x" + e;
    assert l[..2] == "0x" && l[2..] == e;
    EncodeHexFree(data, '\\');
    EncodeHexFree(data, ' ');
    StripAbsent(e);
    NormalizeSteps(prefix + HexText(data, false), l, e, e);
    DecodeEncode(data);
  }

  /** One byte written as a backslash and two upper-case digits. */
  function EscapedPair(b: byte): string
  {
    "\\" + ToUpper(HexPair(b))
  }

  /** Bytes written as escaped pairs separated by spaces, as in "\A0 \D1". */
  function EscapedText(data: Bytes): string
  {
    Join(seq(|data|, i requires 0 <= i < |data| => EscapedPair(data[i])), " ")
  }

  /** A space between two texts disappears when the whole is lowered and stripped. */
  lemma StripAroundSpace(front: string, last: string)
    ensures Strip(ToLower(front + " " + last)) == Strip(ToLower(front)) + Strip(ToLower(last))
  {
    LowerAround(front, last);
    StripSpaceBetween(ToLower(front), ToLower(last));
  }

  /** Stripping drops a space between two texts. */
  lemma StripSpaceBetween(a: string, b: string)
    ensures Strip(a + " " + b) == Strip(a) + Strip(b)
  {
    StripAppend(a + " ", b);
    StripAppend(a, " ");
    assert Strip(" ") == [];
  }

  /** An escaped pair, lowered and stripped, is the pair of digits. */
  lemma EscapedPairStrip(b: byte)
    ensures Strip(ToLower(EscapedPair(b))) == HexPair(b)
  {
    var pair := HexPair(b);
    LowerAppend("\\", ToUpper(pair));
    assert ToLower("\\") == "\\";
    LowerUpperHex(pair);
    StripAppend("\\", pair);
    assert Strip("\\") == [];
    StripAbsent(pair);
  }

  /** Escaped text, lowered and stripped, is the encoding, and it starts with a backslash. */
  lemma {:induction false} EscapedTextStrip(data: Bytes)
    ensures Strip(ToLower(EscapedText(data))) == EncodeHex(data)
    ensures data != [] ==> EscapedText(data)[0] == '\\'
    decreases |data|
  {
    var parts := seq(|data|, i requires 0 <= i < |data| => EscapedPair(data[i]));
    if |data| == 1 {
      EscapedPairStrip(data[0]);
      assert data[1..] == [];
    } else if |data| > 1 {
      var n := |data|;
      var init := data[..n - 1];
      EscapedTextStrip(init);
      assert parts[..n - 1] == seq(|init|, i requires 0 <= i < |init| => EscapedPair(init[i]));
      var front := EscapedText(init);
      assert EscapedText(data) == front + " " + parts[n - 1];
      StripAroundSpace(front, parts[n - 1]);
      EscapedPairStrip(data[n - 1]);
      EncodeHexAppend(init, [data[n - 1]]);
      assert [data[n - 1]][1..] == [];
      assert init + [data[n - 1]] == data;
    }
  }

  /** Escaped text, such as "\A0 \D1", decodes to the bytes. */
  lemma HexStringEscaped(data: Bytes)
    ensures HexStringToBytes(EscapedText(data)) == Ok(data)
  {
    var t := EscapedText(data);
    var l := ToLower(t);
    EscapedTextStrip(data);
    if |l| >= 2 {
      assert l[..2][0] == l[0] == LowerChar(t[0]) == '\\';
    }
    NormalizeSteps(t, l, l, EncodeHex(data));
    DecodeEncode(data);
  }

  /** Lower-case digits are their own lower case. */
  lemma {:induction false} LowerOfLowerHex(s: string)
    requires forall i :: 0 <= i < |s| ==> IsLowerHex(s[i])
    ensures ToLower(s) == s
  {
    if s != [] {
      LowerOfLowerHex(s[1..]);
    }
  }

  /**
   * Text of lower-case digits alone reaches the decoder as it is, with a
   * "0" in front when its length is odd.
   */
  lemma NormalizeDigits(s: string)
    requires forall i :: 0 <= i < |s| ==> IsLowerHex(s[i])
    ensures Normalize(s) == if |s| % 2 == 1 then "0" + s else s
  {
    LowerOfLowerHex(s);
    if |s| >= 2 {
      assert s[..2][1] == s[1] != 'x';
    }
    assert '\\' !in s && ' ' !in s by {
      forall i | 0 <= i < |s| ensures s[i] != '\\' && s[i] != ' ' {
        assert IsLowerHex(s[i]);
      }
    }
    StripAbsent(s);
  }

  /** A lone leading digit in front of an encoding is lowered and padded with a "0". */
  lemma NormalizeOdd(c: char, data: Bytes)
    requires IsHexDigit(c)
    ensures Normalize([c] + HexText(data, false)) == "0" + ([LowerChar(c)] + EncodeHex(data))
  {
    var e := EncodeHex(data);
    var d := LowerChar(c);
    LowerAppend([c], HexText(data, false));
    assert ToLower([c]) == [d];
    LowerHexText(data, false);
    forall i | 0 <= i < |[d] + e| ensures IsLowerHex(([d] + e)[i]) {
      if i > 0 && !IsLowerHex(e[i - 1]) {
        EncodeHexFree(data, e[i - 1]);
      }
    }
    NormalizeDigits([d] + e);
    LowerOfLowerHex([d] + e);
    assert ToLower([c] + HexText(data, false)) == [d] + e;
    assert |[d] + e| % 2 == 1;
  }

  /** A lone leading digit in front of an encoding is read as the byte of that digit's value. */
  lemma HexStringOdd(c: char, data: Bytes)
    requires IsHexDigit(c)
    ensures HexStringToBytes([c] + HexText(data, false)) == Ok([Value(c) as byte] + data)
  {
    var d := LowerChar(c);
    assert IsHexDigit(d) && Value(d) == Value(c);
    NormalizeOdd(c, data);
    var padded := "0" + ([d] + EncodeHex(data));
    assert padded[2..] == EncodeHex(data);
    DecodeEncode(data);
    DecodeStep(padded, '0', d, data);
  }
}
