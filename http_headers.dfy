/**
 * The header side of the HTTP wrapper: the bufio.Scanner that cuts the extra
 * header text into lines, the "Key: Value" split of each line, the header set
 * those lines build on the outgoing request, and formatHeaders, which writes a
 * response's header map back as text.
 */
module HttpHeaders {
  import opened Wrappers
  import opened GoStrings

  /** http.Header: each key's values, in order. */
  type Header = map<string, seq<string>>

  // ---------------------------------------------------------------------
  // bufio.Scanner with ScanLines over the header text
  // ---------------------------------------------------------------------

  /** bufio.MaxScanTokenSize: the most bytes the scanner's buffer holds. */
  const MaxScanTokenSize: nat := 64 * 1024

  /** ScanLines drops one carriage return at the end of a line. */
  function DropCR(s: string): string
  {
    if s != [] && s[|s| - 1] == '\r' then s[..|s| - 1] else s
  }

  /**
   * A segment (the text between two newlines) the scanner cannot hold: the
   * segment and the newline after it must fit in the buffer, and a final
   * segment that fills the buffer is refused before the end of input is seen.
   */
  predicate TooLong(segment: string)
  {
    |Utf8(segment)| >= MaxScanTokenSize
  }

  /**
   * The scanner over the segments of the text: the lines it yields, and
   * whether it stopped with bufio.ErrTooLong. A last segment that is empty
   * (the text ended with a newline, or is empty) yields no line.
   */
  function ScanSegments(segs: seq<string>): (seq<string>, bool)
  {
    if segs == [] then ([], false)
    else if TooLong(segs[0]) then ([], true)
    else if |segs| == 1 && segs[0] == [] then ([], false)
    else
      var rest := ScanSegments(segs[1..]);
      ([DropCR(segs[0])] + rest.0, rest.1)
  }

  /** The lines bufio.Scanner yields for a text, and whether scanner.Err() is ErrTooLong. */
  function Scan(text: string): (seq<string>, bool)
  {
    ScanSegments(Split(text, '\n'))
  }

  /** The scanner fails exactly when some segment is too long for its buffer. */
  lemma {:induction false} ScanSegmentsTooLong(segs: seq<string>)
    ensures ScanSegments(segs).1 <==> exists i :: 0 <= i < |segs| && TooLong(segs[i])
  {
    if segs != [] && !TooLong(segs[0]) && !(|segs| == 1 && segs[0] == []) {
      ScanSegmentsTooLong(segs[1..]);
      if exists i :: 0 <= i < |segs| && TooLong(segs[i]) {
        var i :| 0 <= i < |segs| && TooLong(segs[i]);
        assert TooLong(segs[1..][i - 1]);
      }
    } else if |segs| == 1 && segs[0] == [] {
      assert Utf8(segs[0]) == [];
    }
  }

  /** The lines of segments that all fit: every segment, without its carriage return, but a final empty one. */
  function Fitted(segs: seq<string>): seq<string>
    requires segs != []
  {
    var n := if segs[|segs| - 1] == [] then |segs| - 1 else |segs|;
    seq(n, i requires 0 <= i < n => DropCR(segs[i]))
  }

  /** When no segment is too long, the scanner yields each segment as a line, and no error. */
  lemma {:induction false} ScanSegmentsFit(segs: seq<string>)
    requires segs != [] && forall i :: 0 <= i < |segs| ==> !TooLong(segs[i])
    ensures ScanSegments(segs) == (Fitted(segs), false)
  {
    if |segs| > 1 {
      var rest := segs[1..];
      ScanSegmentsFit(rest);
      assert rest[|rest| - 1] == segs[|segs| - 1];
      var f, g := Fitted(segs), Fitted(rest);
      assert |f| == |g| + 1;
      forall i | 0 <= i < |f| ensures f[i] == ([DropCR(segs[0])] + g)[i] {
        if i > 0 {
          assert segs[i] == rest[i - 1];
        }
      }
      assert f == [DropCR(segs[0])] + g;
      assert !TooLong(segs[0]);
    } else if segs[0] != [] {
      assert !TooLong(segs[0]) && segs[1..] == [];
      assert ScanSegments(segs[1..]) == ([], false);
      assert [DropCR(segs[0])] + [] == [DropCR(segs[0])] == Fitted(segs);
    } else {
      assert !TooLong(segs[0]);
      assert |Fitted(segs)| == 0;
    }
  }

  /** Lines joined by newlines scan back to those lines when none holds a newline or is too long. */
  lemma ScanJoin(segs: seq<string>)
    requires segs != []
    requires forall i :: 0 <= i < |segs| ==> '\n' !in segs[i] && !TooLong(segs[i])
    ensures Scan(Join(segs, "\n")) == (Fitted(segs), false)
  {
    SplitJoin(segs, '\n');
    ScanSegmentsFit(segs);
  }
  // ---------------------------------------------------------------------
  // One header line: strings.SplitN(line, ":", 2) and strings.TrimSpace
  // ---------------------------------------------------------------------

  /** The key and value a header line sets: cut at its first ':' and trimmed; None without a ':'. */
  function HeaderField(line: string): Option<(string, string)>
  {
    var i := Index(line, ":");
    if i == -1 then None else Some((TrimSpace(line[..i]), TrimSpace(line[i + 1..])))
  }

  /** Text that TrimSpace leaves as it is. */
  predicate Trimmed(s: string)
  {
    s == [] || (!IsSpace(s[0]) && !IsSpace(s[|s| - 1]))
  }

  /**
   * A line sets a field exactly when it holds a ':'; the key is the trimmed
   * text before the first ':', so it holds none, and the value is the
   * trimmed rest, which may hold more.
   */
  lemma HeaderFieldSplit(line: string)
    ensures HeaderField(line).Some? <==> ':' in line
    ensures HeaderField(line).Some? ==>
      ':' !in HeaderField(line).value.0 && Trimmed(HeaderField(line).value.0) && Trimmed(HeaderField(line).value.1)
  {
    var i := Index(line, ":");
    IndexFirst(line, ":");
    if i == -1 {
      if ':' in line {
        var j :| 0 <= j < |line| && line[j] == ':';
        OccursSingle(line, ':', j);
      }
    } else {
      OccursSingle(line, ':', i);
      var before := line[..i];
      IndexPrefixFree(line, ":");
      if ':' in before {
        var j :| 0 <= j < |before| && before[j] == ':';
        OccursSingle(before, ':', j);
        IndexFirst(before, ":");
      }
      var l := TrimLeftBy(before, IsSpace);
      TrimLeftByCuts(before, IsSpace);
      TrimRightByCuts(l, IsSpace);
      TrimByEdges(before, IsSpace);
      TrimByEdges(line[i + 1..], IsSpace);
    }
  }

  /** TrimSpace drops one space in front of trimmed text. */
  lemma TrimSpaceAfterSpace(v: string)
    requires Trimmed(v)
    ensures TrimSpace(" " + v) == v
  {
    assert (" " + v)[1..] == v;
    assert TrimLeftBy(" " + v, IsSpace) == TrimLeftBy(v, IsSpace) == v;
  }

  /** In "Key: Value" with a key free of ':', the first ':' ends the key. */
  lemma FieldLineCut(k: string, v: string)
    requires ':' !in k
    ensures Index(k + ": " + v, ":") == |k|
    ensures (k + ": " + v)[..|k|] == k && (k + ": " + v)[|k| + 1..] == " " + v
  {
    var post := ": " + v;
    assert k + ": " + v == k + post;
    assert post[..1] == ":";
    IndexAfterClearPrefix(k, ":", post);
  }

  /** A line "Key: Value" with a trimmed key free of ':' and a trimmed value sets that key to that value. */
  lemma FieldOfLine(k: string, v: string)
    requires ':' !in k && Trimmed(k) && Trimmed(v)
    ensures HeaderField(k + ": " + v) == Some((k, v))
  {
    FieldLineCut(k, v);
    TrimByUncut(k, IsSpace);
    TrimSpaceAfterSpace(v);
  }

  // ---------------------------------------------------------------------
  // The extra header text on the outgoing request
  // ---------------------------------------------------------------------

  /** The header set of the outgoing request (http.Request.Header), changed in place by Set. */
  class OutgoingRequest {
    var header: Header

    /** http.NewRequest starts with no headers. */
    constructor()
      ensures header == map[]
    {
      header := map[];
    }

    /** http.Header.Set: the canonical form of the key now holds this one value and nothing else. */
    method Set(canon: string -> string, key: string, value: string)
      modifies this
      ensures header == old(header)[canon(key) := [value]]
    {
      header := header[canon(key) := [value]];
    }
  }

  /** The header set after a non-empty cookie parameter is set on it. */
  function WithCookie(h: Header, cookie: string, canon: string -> string): Header
  {
    if cookie != "" then h[canon("Cookie") := [cookie]] else h
  }

  /** The header set after each line that holds a ':' has been set on it, in order. */
  function ApplyLines(h: Header, lines: seq<string>, canon: string -> string): Header
  {
    if lines == [] then h
    else
      var before := ApplyLines(h, lines[..|lines| - 1], canon);
      match HeaderField(lines[|lines| - 1])
      case None => before
      case Some((k, v)) => before[canon(k) := [v]]
  }

  /** Line `j` sets the canonical key `key`. */
  predicate Sets(lines: seq<string>, j: int, key: string, canon: string -> string)
    requires 0 <= j < |lines|
  {
    HeaderField(lines[j]).Some? && canon(HeaderField(lines[j]).value.0) == key
  }

  /** The last line that sets a key decides its value: earlier lines and the starting set are overwritten. */
  lemma {:induction false} LastWins(h: Header, lines: seq<string>, canon: string -> string, i: int)
    requires 0 <= i < |lines| && HeaderField(lines[i]).Some?
    requires forall j :: i < j < |lines| ==> !Sets(lines, j, canon(HeaderField(lines[i]).value.0), canon)
    ensures var (k, v) := HeaderField(lines[i]).value;
      canon(k) in ApplyLines(h, lines, canon) && ApplyLines(h, lines, canon)[canon(k)] == [v]
  {
    var init := lines[..|lines| - 1];
    if i < |lines| - 1 {
      assert init[i] == lines[i];
      forall j | i < j < |init| ensures !Sets(init, j, canon(HeaderField(init[i]).value.0), canon) {
        assert init[j] == lines[j];
        assert !Sets(lines, j, canon(HeaderField(lines[i]).value.0), canon);
      }
      LastWins(h, init, canon, i);
      assert !Sets(lines, |lines| - 1, canon(HeaderField(lines[i]).value.0), canon);
    }
  }

  /** A key no line sets keeps what the starting set held for it. */
  lemma {:induction false} Untouched(h: Header, lines: seq<string>, canon: string -> string, key: string)
    requires forall j :: 0 <= j < |lines| ==> !Sets(lines, j, key, canon)
    ensures key in ApplyLines(h, lines, canon) <==> key in h
    ensures key in h ==> ApplyLines(h, lines, canon)[key] == h[key]
  {
    if lines != [] {
      var init := lines[..|lines| - 1];
      forall j | 0 <= j < |init| ensures !Sets(init, j, key, canon) {
        assert init[j] == lines[j];
        assert !Sets(lines, j, key, canon);
      }
      Untouched(h, init, canon, key);
      assert !Sets(lines, |lines| - 1, key, canon);
    }
  }

  /** A "Cookie:" line in the header text replaces the cookie parameter, whatever it was. */
  lemma CookieLineWins(h: Header, cookie: string, lines: seq<string>, canon: string -> string, i: int)
    requires 0 <= i < |lines| && HeaderField(lines[i]).Some?
    requires canon(HeaderField(lines[i]).value.0) == canon("Cookie")
    requires forall j :: i < j < |lines| ==> !Sets(lines, j, canon("Cookie"), canon)
    ensures var after := ApplyLines(WithCookie(h, cookie, canon), lines, canon);
      canon("Cookie") in after && after[canon("Cookie")] == [HeaderField(lines[i]).value.1]
  {
    LastWins(WithCookie(h, cookie, canon), lines, canon, i);
  }

  /**
   * The cookie parameter and the header text set on the outgoing request:
   * the cookie first when there is one, then every scanned line with a ':',
   * later lines overwriting earlier ones; reports whether the scanner failed.
   */
  method SetHeaderText(req: OutgoingRequest, canon: string -> string, cookie: string, text: string)
    returns (scanFailed: bool)
    modifies req
    ensures scanFailed == Scan(text).1
    ensures req.header == ApplyLines(WithCookie(old(req.header), cookie, canon), Scan(text).0, canon)
  {
    if cookie != "" {
      req.Set(canon, "Cookie", cookie);
    }
    ghost var start := req.header;
    var scanned := Scan(text);
    var lines := scanned.0;
    for n := 0 to |lines|
      invariant req.header == ApplyLines(start, lines[..n], canon)
    {
      assert lines[..n + 1][..n] == lines[..n];
      var line := lines[n];
      var i := Index(line, ":");
      if i != -1 {
        req.Set(canon, TrimSpace(line[..i]), TrimSpace(line[i + 1..]));
      }
    }
    assert lines[..|lines|] == lines;
    return scanned.1;
  }
  // ---------------------------------------------------------------------
  // formatHeaders
  // ---------------------------------------------------------------------

  /** The line formatHeaders writes for one value, without its "\r\n". */
  function FieldText(k: string, v: string): string
  {
    k + ": " + v
  }

  /** The lines of one key, one per value, in order. */
  function KeyFields(k: string, vals: seq<string>): seq<string>
  {
    seq(|vals|, i requires 0 <= i < |vals| => FieldText(k, vals[i]))
  }

  /** The lines of the keys taken in the given order. */
  function FieldLines(h: Header, order: seq<string>): seq<string>
    requires forall i :: 0 <= i < |order| ==> order[i] in h
  {
    if order == [] then []
    else FieldLines(h, order[..|order| - 1]) + KeyFields(order[|order| - 1], h[order[|order| - 1]])
  }

  /** Each line followed by "\r\n". */
  function Terminated(lines: seq<string>): seq<string>
  {
    seq(|lines|, i requires 0 <= i < |lines| => lines[i] + "\r\n")
  }

  /** The text formatHeaders writes when the map hands out its keys in the given order. */
  function Render(h: Header, order: seq<string>): string
    requires forall i :: 0 <= i < |order| ==> order[i] in h
  {
    Concat(Terminated(FieldLines(h, order)))
  }

  /** `order` lists every key of `h` exactly once: one order in which a range loop may visit the map. */
  predicate IsKeyOrder(order: seq<string>, h: Header)
  {
    && (forall i :: 0 <= i < |order| ==> order[i] in h)
    && (forall k :: k in h ==> k in order)
    && (forall i, j :: 0 <= i < j < |order| ==> order[i] != order[j])
  }

  /** The number of values of the keys in the given order. */
  function ValueCount(h: Header, order: seq<string>): nat
    requires forall i :: 0 <= i < |order| ==> order[i] in h
  {
    if order == [] then 0 else ValueCount(h, order[..|order| - 1]) + |h[order[|order| - 1]]|
  }

  /** Terminating lines distributes over appending them. */
  lemma TerminatedAppend(a: seq<string>, b: seq<string>)
    ensures Terminated(a + b) == Terminated(a) + Terminated(b)
  {
  }

  /** One more value of a key adds its line to the text. */
  lemma KeyTextStep(k: string, vals: seq<string>, j: nat)
    requires j < |vals|
    ensures Concat(Terminated(KeyFields(k, vals[..j + 1])))
         == Concat(Terminated(KeyFields(k, vals[..j]))) + (FieldText(k, vals[j]) + "\r\n")
  {
    var t := Terminated(KeyFields(k, vals[..j + 1]));
    assert t[..j] == Terminated(KeyFields(k, vals[..j]));
  }

  /** One more key adds the text of all its values. */
  lemma RenderStep(h: Header, order: seq<string>, k: string)
    requires forall i :: 0 <= i < |order| ==> order[i] in h
    requires k in h
    ensures Render(h, order + [k]) == Render(h, order) + Concat(Terminated(KeyFields(k, h[k])))
  {
    assert (order + [k])[..|order|] == order;
    TerminatedAppend(FieldLines(h, order), KeyFields(k, h[k]));
    ConcatAppend(Terminated(FieldLines(h, order)), Terminated(KeyFields(k, h[k])));
  }

  /** The inner loop of formatHeaders: the lines of one key's values added to the text. */
  method AppendKeyLines(raw: string, k: string, vals: seq<string>) returns (r: string)
    ensures r == raw + Concat(Terminated(KeyFields(k, vals)))
  {
    r := raw;
    for j := 0 to |vals|
      invariant r == raw + Concat(Terminated(KeyFields(k, vals[..j])))
    {
      KeyTextStep(k, vals, j);
      r := r + (k + ": " + vals[j] + "\r\n");
    }
    assert vals[..|vals|] == vals;
  }

  /** The keys visited so far, each once, and the keys still to visit, together make up all keys. */
  predicate Visited(headers: Header, order: seq<string>, rest: set<string>)
  {
    && rest <= headers.Keys
    && (forall i :: 0 <= i < |order| ==> order[i] in headers && order[i] !in rest)
    && (forall k :: k in headers ==> k in rest || k in order)
    && (forall i, j :: 0 <= i < j < |order| ==> order[i] != order[j])
  }

  /**
   * formatHeaders: one "Key: Value\r\n" line per value, the values of a key
   * together and in order, the keys in whatever order the map hands them out.
   */
  method FormatHeaders(headers: Header) returns (raw: string)
    ensures exists order :: IsKeyOrder(order, headers) && raw == Render(headers, order)
  {
    raw := "";
    var rest := headers.Keys;
    ghost var order: seq<string> := [];
    while rest != {}
      invariant Visited(headers, order, rest)
      invariant raw == Render(headers, order)
      decreases rest
    {
      var k :| k in rest;
      raw := AppendKeyLines(raw, k, headers[k]);
      RenderStep(headers, order, k);
      order := order + [k];
      rest := rest - {k};
    }
    assert IsKeyOrder(order, headers);
  }

  /** One line per value: the number of lines is the total number of values. */
  lemma {:induction false} FieldLinesCount(h: Header, order: seq<string>)
    requires forall i :: 0 <= i < |order| ==> order[i] in h
    ensures |FieldLines(h, order)| == ValueCount(h, order)
  {
    if order != [] {
      FieldLinesCount(h, order[..|order| - 1]);
    }
  }
  // ---------------------------------------------------------------------
  // Reading the formatted text back as header text
  // ---------------------------------------------------------------------

  /** Each line with its carriage return. */
  function WithCR(lines: seq<string>): seq<string>
  {
    seq(|lines|, i requires 0 <= i < |lines| => lines[i] + "\r")
  }

  /** Lines each ending in "\r\n" are the lines with "\r" joined by newlines, plus a final newline. */
  lemma {:induction false} TerminatedAsJoin(lines: seq<string>)
    ensures Concat(Terminated(lines)) == Join(WithCR(lines) + [""], "\n")
    decreases |lines|
  {
    var t, c := Terminated(lines), WithCR(lines) + [""];
    if lines == [] {
      assert t == [] && c == [""];
    } else {
      var init, last := lines[..|lines| - 1], lines[|lines| - 1];
      TerminatedAsJoin(init);
      assert t[..|t| - 1] == Terminated(init);
      var w := WithCR(lines);
      assert c[..|c| - 1] == w;
      if init == [] {
        assert w == [last + "\r"];
      } else {
        assert w[..|w| - 1] == WithCR(init);
        assert WithCR(init) + [""] == (WithCR(init) + [""])[..|init|] + [""];
      }
    }
  }

  /** The lines formatHeaders writes, when each fits the scanner and has no newline or final carriage return. */
  predicate Scannable(lines: seq<string>)
  {
    forall i :: 0 <= i < |lines| ==>
      '\n' !in lines[i] && !TooLong(lines[i] + "\r") && (lines[i] == [] || lines[i][|lines[i]| - 1] != '\r')
  }

  /** ScanLines takes back a carriage return that was added. */
  lemma DropAddedCR(s: string)
    ensures DropCR(s + "\r") == s
  {
    assert (s + "\r")[..|s|] == s;
  }

  /** The segments of "\r\n"-terminated lines all fit the scanner. */
  lemma SegmentsFit(lines: seq<string>)
    requires Scannable(lines)
    ensures forall i :: 0 <= i < |WithCR(lines) + [""]| ==> '\n' !in (WithCR(lines) + [""])[i] && !TooLong((WithCR(lines) + [""])[i])
  {
    var segs := WithCR(lines) + [""];
    forall i | 0 <= i < |segs| ensures '\n' !in segs[i] && !TooLong(segs[i]) {
      if i < |lines| {
        assert segs[i] == lines[i] + "\r";
      } else {
        assert Utf8(segs[i]) == [];
      }
    }
  }

  /** Scanning text made of "\r\n"-terminated lines yields exactly those lines. */
  lemma ScanTerminated(lines: seq<string>)
    requires Scannable(lines)
    ensures Scan(Concat(Terminated(lines))) == (lines, false)
  {
    TerminatedAsJoin(lines);
    var segs := WithCR(lines) + [""];
    SegmentsFit(lines);
    ScanJoin(segs);
    var f := Fitted(segs);
    forall i | 0 <= i < |lines| ensures f[i] == lines[i] {
      assert segs[i] == lines[i] + "\r";
      DropAddedCR(lines[i]);
    }
    assert f == lines;
  }

  /** Headers whose text reads back: keys and values trimmed and free of newlines, keys free of ':' and already canonical, lines that fit. */
  predicate Rereadable(h: Header, canon: string -> string)
  {
    forall k :: k in h ==>
      && ':' !in k && '\n' !in k && Trimmed(k) && canon(k) == k
      && forall v :: v in h[k] ==> '\n' !in v && Trimmed(v) && !TooLong(FieldText(k, v) + "\r")
  }

  /** The last value of each key that has one. */
  function LastValues(h: Header, keys: set<string>): Header
  {
    map k | k in keys && k in h && h[k] != [] :: [h[k][|h[k]| - 1]]
  }

  /** Setting lines one list after another is setting their concatenation. */
  lemma {:induction false} ApplyAppend(m: Header, a: seq<string>, b: seq<string>, canon: string -> string)
    ensures ApplyLines(m, a + b, canon) == ApplyLines(ApplyLines(m, a, canon), b, canon)
    decreases |b|
  {
    if b == [] {
      assert a + b == a;
    } else {
      ApplyAppend(m, a, b[..|b| - 1], canon);
      DropLastAppend(a, b);
    }
  }

  /** A last line that sets a field sets it on what the lines before it built. */
  lemma ApplyLast(m: Header, lines: seq<string>, canon: string -> string, k: string, v: string)
    requires lines != [] && HeaderField(lines[|lines| - 1]) == Some((k, v))
    ensures ApplyLines(m, lines, canon) == ApplyLines(m, lines[..|lines| - 1], canon)[canon(k) := [v]]
  {
  }

  /** Setting a key twice keeps the second value. */
  lemma Overwrite(m: Header, k: string, a: seq<string>, b: seq<string>)
    ensures m[k := a][k := b] == m[k := b]
  {
  }

  /** Lines that all set the same canonical key leave it holding the value of the last one. */
  lemma {:induction false} ApplySameKey(m: Header, lines: seq<string>, k: string, vals: seq<string>, canon: string -> string)
    requires canon(k) == k && |lines| == |vals|
    requires forall i :: 0 <= i < |lines| ==> HeaderField(lines[i]) == Some((k, vals[i]))
    ensures vals == [] ==> ApplyLines(m, lines, canon) == m
    ensures vals != [] ==> ApplyLines(m, lines, canon) == m[k := [vals[|vals| - 1]]]
    decreases |lines|
  {
    if lines != [] {
      var n := |lines|;
      var init, v := vals[..n - 1], vals[n - 1];
      ApplySameKey(m, lines[..n - 1], k, init, canon);
      ApplyLast(m, lines, canon, k, v);
      var before := ApplyLines(m, lines[..n - 1], canon);
      if n > 1 {
        assert before == m[k := [init[n - 2]]];
        Overwrite(m, k, [init[n - 2]], [v]);
      } else {
        assert before == m;
      }
    }
  }

  /** Setting the lines of one rereadable key leaves it holding its last value. */
  lemma ApplyKeyFields(m: Header, k: string, vals: seq<string>, canon: string -> string)
    requires ':' !in k && Trimmed(k) && canon(k) == k
    requires forall i :: 0 <= i < |vals| ==> Trimmed(vals[i])
    ensures vals == [] ==> ApplyLines(m, KeyFields(k, vals), canon) == m
    ensures vals != [] ==> ApplyLines(m, KeyFields(k, vals), canon) == m[k := [vals[|vals| - 1]]]
  {
    var f := KeyFields(k, vals);
    forall i | 0 <= i < |f| ensures HeaderField(f[i]) == Some((k, vals[i])) {
      FieldOfLine(k, vals[i]);
    }
    ApplySameKey(m, f, k, vals, canon);
  }

  /** The keys an order lists. */
  function KeySet(order: seq<string>): set<string>
  {
    set i | 0 <= i < |order| :: order[i]
  }

  /** The keys of an order with one more key at the end. */
  lemma KeySetStep(order: seq<string>)
    requires order != []
    ensures KeySet(order) == KeySet(order[..|order| - 1]) + {order[|order| - 1]}
  {
    var init, k := order[..|order| - 1], order[|order| - 1];
    forall x | x in KeySet(order) ensures x in KeySet(init) + {k} {
      var i :| 0 <= i < |order| && order[i] == x;
      if i < |init| {
        assert init[i] == x;
      }
    }
    forall x | x in KeySet(init) ensures x in KeySet(order) {
      var i :| 0 <= i < |init| && init[i] == x;
      assert order[i] == x;
    }
  }

  /** One more key adds its last value, if it has one. */
  lemma LastValuesStep(h: Header, keys: set<string>, k: string)
    requires k in h
    ensures LastValues(h, keys + {k})
         == if h[k] == [] then LastValues(h, keys) else LastValues(h, keys)[k := [h[k][|h[k]| - 1]]]
  {
  }

  /** The text of the keys in order, read back, gives each of those keys its last value. */
  lemma {:induction false} ReadBackKeys(h: Header, order: seq<string>, canon: string -> string)
    requires forall i :: 0 <= i < |order| ==> order[i] in h
    requires Rereadable(h, canon)
    ensures ApplyLines(map[], FieldLines(h, order), canon) == LastValues(h, KeySet(order))
    decreases |order|
  {
    if order != [] {
      var init, k := order[..|order| - 1], order[|order| - 1];
      ReadBackKeys(h, init, canon);
      ApplyAppend(map[], FieldLines(h, init), KeyFields(k, h[k]), canon);
      forall i | 0 <= i < |h[k]| ensures Trimmed(h[k][i]) {
        assert h[k][i] in h[k];
      }
      ApplyKeyFields(ApplyLines(map[], FieldLines(h, init), canon), k, h[k], canon);
      KeySetStep(order);
      LastValuesStep(h, KeySet(init), k);
    }
  }

  /**
   * The round trip of the header text: the text formatHeaders writes, given
   * back as header text, scans into exactly one line per value and rebuilds
   * the header set with the last value of each key.
   */
  lemma FormatReadBack(h: Header, order: seq<string>, canon: string -> string)
    requires IsKeyOrder(order, h) && Rereadable(h, canon)
    ensures Scan(Render(h, order)) == (FieldLines(h, order), false)
    ensures |Scan(Render(h, order)).0| == ValueCount(h, order)
    ensures ApplyLines(map[], Scan(Render(h, order)).0, canon) == LastValues(h, h.Keys)
  {
    var lines := FieldLines(h, order);
    assert Scannable(lines) by {
      LinesScannable(h, order, canon);
    }
    ScanTerminated(lines);
    FieldLinesCount(h, order);
    ReadBackKeys(h, order, canon);
    assert KeySet(order) == h.Keys;
  }

  /** The lines of one rereadable key fit the scanner. */
  lemma KeyFieldsScannable(h: Header, k: string, canon: string -> string)
    requires k in h && Rereadable(h, canon)
    ensures Scannable(KeyFields(k, h[k]))
  {
    var b := KeyFields(k, h[k]);
    forall i | 0 <= i < |b|
      ensures '\n' !in b[i] && !TooLong(b[i] + "\r") && (b[i] == [] || b[i][|b[i]| - 1] != '\r')
    {
      var v := h[k][i];
      assert v in h[k];
      assert b[i] == k + ": " + v;
      if v != [] {
        assert b[i][|b[i]| - 1] == v[|v| - 1];
      }
    }
  }

  /** Scannable lines followed by scannable lines are scannable. */
  lemma ScannableAppend(a: seq<string>, b: seq<string>)
    requires Scannable(a) && Scannable(b)
    ensures Scannable(a + b)
  {
    var ab := a + b;
    forall i | 0 <= i < |ab|
      ensures '\n' !in ab[i] && !TooLong(ab[i] + "\r") && (ab[i] == [] || ab[i][|ab[i]| - 1] != '\r')
    {
      if i >= |a| {
        assert ab[i] == b[i - |a|];
      } else {
        assert ab[i] == a[i];
      }
    }
  }

  /** The lines of rereadable headers fit the scanner. */
  lemma {:induction false} LinesScannable(h: Header, order: seq<string>, canon: string -> string)
    requires forall i :: 0 <= i < |order| ==> order[i] in h
    requires Rereadable(h, canon)
    ensures Scannable(FieldLines(h, order))
    decreases |order|
  {
    if order != [] {
      var init, k := order[..|order| - 1], order[|order| - 1];
      LinesScannable(h, init, canon);
      KeyFieldsScannable(h, k, canon);
      ScannableAppend(FieldLines(h, init), KeyFields(k, h[k]));
    }
  }
}
