/**
 * The CSV helpers of the `tools` package: CSVFieldMapper maps header names
 * to column positions and looks values up by name, CSVStringsToLine builds
 * one CSV line from fields, and CleanStrings tidies fields split from a line.
 */
module Csv {
  import opened Wrappers
  import opened GoStrings

  // ---------------------------------------------------------------------
  // CSVFieldMapper
  // ---------------------------------------------------------------------

  /** The map a caller passes to CSVFieldMapper by pointer: header name to column position. */
  class FieldMapping {
    var entries: map<string, int>

    constructor()
      ensures entries == map[]
    {
      entries := map[];
    }
  }

  /** Why CSVFieldMapper returned an error. */
  datatype MapperError =
    | NilMapping            // the mapping pointer is nil
    | NotFound(field: string)   // the name is not a key of the mapping
    | OutOfRange(field: string) // the recorded position is outside the row

  /** The mapping after header mode: each name maps to its position, a later duplicate winning. */
  function Indexed(m: map<string, int>, header: seq<string>): map<string, int>
  {
    if header == [] then m
    else Indexed(m, header[..|header| - 1])[header[|header| - 1] := |header| - 1]
  }

  /** What row mode returns for `name`, given the mapping and the row. */
  function Lookup(m: map<string, int>, row: seq<string>, name: string): (r: Result<string, MapperError>)
    ensures r.Ok? <==> name in m && 0 <= m[name] < |row|
    ensures r.Ok? ==> r.value == row[m[name]]
    ensures r.Err? ==> r.error == (if name in m then OutOfRange(name) else NotFound(name))
  {
    if name !in m then Err(NotFound(name))
    else
      var idx := m[name];
      if idx < 0 || idx >= |row| then Err(OutOfRange(name)) else Ok(row[idx])
  }

  /**
   * CSVFieldMapper: in header mode, record the position of every field in
   * the mapping and return ""; in row mode, return the field of `fields`
   * at the position recorded for `fieldName`, leaving the mapping alone.
   */
  method CSVFieldMapper(fields: seq<string>, mapping: FieldMapping?, isHeader: bool, fieldName: string)
    returns (r: Result<string, MapperError>)
    modifies mapping
    ensures mapping == null ==> r == Err(NilMapping)
    ensures mapping != null && isHeader ==> r == Ok("") && mapping.entries == Indexed(old(mapping.entries), fields)
    ensures mapping != null && !isHeader ==>
      r == Lookup(mapping.entries, fields, fieldName) && mapping.entries == old(mapping.entries)
  {
    if mapping == null {
      return Err(NilMapping);
    }
    if isHeader {
      for i := 0 to |fields|
        invariant mapping.entries == Indexed(old(mapping.entries), fields[..i])
      {
        assert fields[..i + 1][..i] == fields[..i];
        mapping.entries := mapping.entries[fields[i] := i];
      }
      assert fields[..|fields|] == fields;
      return Ok("");
    }
    if fieldName !in mapping.entries {
      return Err(NotFound(fieldName));
    }
    var idx := mapping.entries[fieldName];
    if idx < 0 || idx >= |fields| {
      return Err(OutOfRange(fieldName));
    }
    return Ok(fields[idx]);
  }

  /**
   * After header mode a name of the header maps to its last position in the
   * header, a name not in it keeps its old entry, and no other key appears.
   */
  lemma {:induction false} IndexedEntries(m: map<string, int>, header: seq<string>, name: string)
    ensures name in Indexed(m, header) <==> name in m || name in header
    ensures name in header ==>
      var v := Indexed(m, header)[name];
      0 <= v < |header| && header[v] == name && forall j :: v < j < |header| ==> header[j] != name
    ensures name !in header && name in m ==> Indexed(m, header)[name] == m[name]
  {
    if header != [] {
      var init := header[..|header| - 1];
      IndexedEntries(m, init, name);
      assert header == init + [header[|header| - 1]];
    }
  }

  /**
   * Reading a row after the header of the same width: every header name
   * yields the row's field in the column where that name last appears.
   */
  lemma HeaderThenRow(m: map<string, int>, header: seq<string>, row: seq<string>, name: string)
    requires |row| == |header| && name in header
    ensures var r := Lookup(Indexed(m, header), row, name);
      r.Ok? && exists v :: (0 <= v < |header| && header[v] == name && r.value == row[v]
                             && forall j :: v < j < |header| ==> header[j] != name)
  {
    IndexedEntries(m, header, name);
  }

  /** The example given with CSVFieldMapper: header id,name,age, then row 1,Tom,18 yields Tom for "name". */
  lemma MapperExample()
    ensures Indexed(map[], ["id", "name", "age"]) == map["id" := 0, "name" := 1, "age" := 2]
    ensures Lookup(Indexed(map[], ["id", "name", "age"]), ["1", "Tom", "18"], "name") == Ok("Tom")
  {
    var h := ["id", "name", "age"];
    assert ["id"][..0] == [];
    assert Indexed(map[], ["id"]) == map["id" := 0];
    assert ["id", "name"][..1] == ["id"];
    assert Indexed(map[], ["id", "name"]) == map["id" := 0, "name" := 1];
    assert h[..2] == ["id", "name"];
  }

  // ---------------------------------------------------------------------
  // CSVStringsToLine
  // ---------------------------------------------------------------------

  /** The fields with every comma removed, as CSVStringsToLine rewrites them in place. */
  function NoCommas(fields: seq<string>): seq<string>
  {
    seq(|fields|, i requires 0 <= i < |fields| => RemoveAll(fields[i], ','))
  }

  /** Remove the double quotes, carriage returns and line feeds, in that order. */
  function Scrub(s: string): string
  {
    RemoveAll(RemoveAll(RemoveAll(s, '"'), '\r'), '\n')
  }

  /** The text of the line, before the optional line break. */
  function CsvText(fields: seq<string>): string
  {
    Scrub(Join(NoCommas(fields), ","))
  }

  /** The bytes CSVStringsToLine returns. */
  function CsvLine(fields: seq<string>, lineBreak: bool): Bytes
  {
    Utf8(CsvText(fields) + (if lineBreak then "\r\n" else ""))
  }

  /**
   * CSVStringsToLine: strip the commas from every field of the caller's
   * slice, in place, then join the fields with commas, drop quotes and line
   * breaks, and append CR LF when asked.
   */
  method CSVStringsToLine(fields: array<string>, lineBreak: bool) returns (line: Bytes)
    modifies fields
    ensures fields[..] == NoCommas(old(fields[..]))
    ensures line == CsvLine(old(fields[..]), lineBreak)
  {
    ghost var original := fields[..];
    for i := 0 to fields.Length
      invariant forall j :: 0 <= j < i ==> fields[j] == RemoveAll(original[j], ',')
      invariant forall j :: i <= j < fields.Length ==> fields[j] == original[j]
    {
      fields[i] := RemoveAll(fields[i], ',');
    }
    assert fields[..] == NoCommas(original);

    var combined := Join(fields[..], ",");
    combined := RemoveAll(combined, '"');
    combined := RemoveAll(combined, '\r');
    combined := RemoveAll(combined, '\n');

    if lineBreak {
      return Utf8(combined + "\r\n");
    }
    assert combined + "" == combined;
    return Utf8(combined);
  }

  /** Scrub keeps every character other than quote, CR and LF, and drops those three. */
  lemma ScrubCount(s: string, c: char)
    ensures multiset(Scrub(s))[c] == if c == '"' || c == '\r' || c == '\n' then 0 else multiset(s)[c]
  {
    RemoveAllCount(s, '"');
    RemoveAllCount(RemoveAll(s, '"'), '\r');
    RemoveAllCount(RemoveAll(RemoveAll(s, '"'), '\r'), '\n');
  }

  /** Each field of the line is the original field without commas, quotes and line breaks. */
  function CleanField(field: string): (r: string)
  {
    Scrub(RemoveAll(field, ','))
  }

  /** A cleaned field holds none of the characters CSVStringsToLine removes. */
  lemma CleanFieldFree(field: string)
    ensures ',' !in CleanField(field) && '"' !in CleanField(field)
    ensures '\r' !in CleanField(field) && '\n' !in CleanField(field)
  {
    RemoveAllCount(field, ',');
    ScrubCount(RemoveAll(field, ','), ',');
    ScrubCount(RemoveAll(field, ','), '"');
    ScrubCount(RemoveAll(field, ','), '\r');
    ScrubCount(RemoveAll(field, ','), '\n');
  }

  /** Removing the quotes and line breaks from the joined text cleans each field and keeps the commas. */
  lemma ScrubJoin(fields: seq<string>)
    ensures CsvText(fields) == Join(seq(|fields|, i requires 0 <= i < |fields| => CleanField(fields[i])), ",")
  {
    var p0 := NoCommas(fields);
    var p1 := seq(|p0|, i requires 0 <= i < |p0| => RemoveAll(p0[i], '"'));
    var p2 := seq(|p1|, i requires 0 <= i < |p1| => RemoveAll(p1[i], '\r'));
    var p3 := seq(|p2|, i requires 0 <= i < |p2| => RemoveAll(p2[i], '\n'));
    RemoveAllJoin(p0, ",", '"');
    RemoveAllJoin(p1, ",", '\r');
    RemoveAllJoin(p2, ",", '\n');
    assert p3 == seq(|fields|, i requires 0 <= i < |fields| => CleanField(fields[i]));
  }

  /**
   * The round trip: splitting the text of a line of at least one field on
   * commas gives back one piece per field, each the field cleaned.
   */
  lemma CsvTextSplits(fields: seq<string>)
    requires |fields| >= 1
    ensures Split(CsvText(fields), ',') == seq(|fields|, i requires 0 <= i < |fields| => CleanField(fields[i]))
  {
    var cleaned := seq(|fields|, i requires 0 <= i < |fields| => CleanField(fields[i]));
    ScrubJoin(fields);
    forall i | 0 <= i < |cleaned| ensures ',' !in cleaned[i] {
      CleanFieldFree(fields[i]);
    }
    SplitJoin(cleaned, ',');
  }

  /** No field holds a comma once the commas are removed. */
  lemma NoCommasFree(fields: seq<string>)
    ensures forall i :: 0 <= i < |fields| ==> ',' !in NoCommas(fields)[i]
  {
    var parts := NoCommas(fields);
    forall i | 0 <= i < |fields| ensures ',' !in parts[i] {
      assert parts[i] == RemoveAll(fields[i], ',');
      RemoveAllCount(fields[i], ',');
      assert multiset(parts[i])[','] == 0;
    }
  }

  /** Joining the comma-free fields with commas gives one comma per separator. */
  lemma JoinedCommas(fields: seq<string>)
    ensures multiset(Join(NoCommas(fields), ","))[','] == (if |fields| == 0 then 0 else |fields| - 1)
  {
    var parts := NoCommas(fields);
    assert multiset(",")[','] == 1;
    NoCommasFree(fields);
    SumCountNone(parts, ',');
    JoinCount(parts, ",", ',');
  }

  /** The text of a line holds one comma per separator and no quote, CR or LF. */
  lemma CsvTextCounts(fields: seq<string>)
    ensures multiset(CsvText(fields))[','] == (if |fields| == 0 then 0 else |fields| - 1)
    ensures multiset(CsvText(fields))['"'] == 0
    ensures multiset(CsvText(fields))['\r'] == 0 && multiset(CsvText(fields))['\n'] == 0
  {
    var joined := Join(NoCommas(fields), ",");
    JoinedCommas(fields);
    ScrubCount(joined, ',');
    ScrubCount(joined, '"');
    ScrubCount(joined, '\r');
    ScrubCount(joined, '\n');
  }

  /**
   * The commas of a line are exactly its separators, one fewer than the
   * fields; it holds no double quote, and a CR and an LF only when a line
   * break was asked for.
   */
  lemma CsvLineCounts(fields: seq<string>, lineBreak: bool)
    ensures var line := CsvLine(fields, lineBreak);
      && multiset(line)[',' as int as byte] == (if |fields| == 0 then 0 else |fields| - 1)
      && multiset(line)['"' as int as byte] == 0
      && multiset(line)['\r' as int as byte] == (if lineBreak then 1 else 0)
      && multiset(line)['\n' as int as byte] == (if lineBreak then 1 else 0)
  {
    var text, tail := CsvText(fields), if lineBreak then "\r\n" else "";
    CsvTextCounts(fields);
    var m := multiset(text + tail);
    assert m == multiset(text) + multiset(tail);
    assert m[','] == multiset(text)[','] && m['"'] == 0;
    assert m['\r'] == m['\n'] == (if lineBreak then 1 else 0);
    Utf8AsciiCount(text + tail, ',');
    Utf8AsciiCount(text + tail, '"');
    Utf8AsciiCount(text + tail, '\r');
    Utf8AsciiCount(text + tail, '\n');
  }

  /** With a line break the line is the line without one, followed by CR LF. */
  lemma CsvLineBreak(fields: seq<string>)
    ensures CsvLine(fields, true) == CsvLine(fields, false) + [13, 10]
  {
    var text := CsvText(fields);
    Utf8Append(text, "\r\n");
    assert text + "" == text;
    assert "\r\n" == ['\r'] + ['\n'];
    Utf8Append(['\r'], ['\n']);
    assert Utf8(['\r']) == Utf8([]) + Utf8Char('\r');
  }

  // ---------------------------------------------------------------------
  // CleanStrings
  // ---------------------------------------------------------------------

  predicate IsQuote(c: char)
  {
    c == '"'
  }

  /** What CleanStrings makes of one field: trim quotes, then spaces, then drop every tab. */
  function Clean(s: string): string
  {
    RemoveAll(TrimSpace(TrimBy(s, IsQuote)), '\t')
  }

  /** CleanStrings: a new slice with every field cleaned, in the same order. */
  method CleanStrings(input: seq<string>) returns (result: seq<string>)
    ensures |result| == |input|
    ensures forall i :: 0 <= i < |input| ==> result[i] == Clean(input[i])
  {
    result := [];
    for i := 0 to |input|
      invariant |result| == i
      invariant forall j :: 0 <= j < i ==> result[j] == Clean(input[j])
    {
      var s := TrimBy(input[i], IsQuote);
      s := TrimSpace(s);
      s := RemoveAll(s, '\t');
      result := result + [s];
    }
  }

  /** RemoveAll keeps a first and a last element that are not the one removed. */
  lemma RemoveAllEdges(s: string, x: char)
    requires s != [] && s[0] != x && s[|s| - 1] != x
    ensures var r := RemoveAll(s, x); r != [] && r[0] == s[0] && r[|r| - 1] == s[|s| - 1]
  {
    var init, last := s[..|s| - 1], s[|s| - 1];
    assert s == init + [last];
    RemoveAllAppend(init, [last], x);
    assert RemoveAll([last], x) == [last] + RemoveAll([], x);
  }

  /** A cleaned field holds no tab and neither starts nor ends with white space. */
  lemma CleanIsTidy(s: string)
    ensures '\t' !in Clean(s)
    ensures var r := Clean(s); r == [] || (!IsSpace(r[0]) && !IsSpace(r[|r| - 1]))
  {
    var q := TrimBy(s, IsQuote);
    var t := TrimSpace(q);
    assert t == TrimBy(q, IsSpace);
    TrimByEdges(q, IsSpace);
    assert IsSpace('\t');
    var r := RemoveAll(t, '\t');
    assert r == Clean(s);
    RemoveAllCount(t, '\t');
    assert multiset(r)['\t'] == 0;
    if t != [] {
      assert !IsSpace(t[0]) && !IsSpace(t[|t| - 1]);
      RemoveAllEdges(t, '\t');
    } else {
      assert r == [];
    }
  }

  /** A field that is already tidy, without tabs and with no quote or space at its ends, is left as it is. */
  lemma CleanKeepsTidy(s: string)
    requires '\t' !in s
    requires s == [] || (!IsQuote(s[0]) && !IsQuote(s[|s| - 1]) && !IsSpace(s[0]) && !IsSpace(s[|s| - 1]))
    ensures Clean(s) == s
  {
    TrimByUncut(s, IsQuote);
    TrimByUncut(s, IsSpace);
    RemoveAllAbsent(s, '\t');
  }

  /** Quotes outside the spaces go, and then the spaces and the tab. */
  lemma CleanQuotesOutside()
    ensures Clean("\" Tom\t\"") == "Tom"
  {
    var a := "\" Tom\t\"";
    assert TrimLeftBy(a, IsQuote) == a[1..];
    assert TrimRightBy(a[1..], IsQuote) == " Tom\t";
    assert TrimLeftBy(" Tom\t", IsSpace) == "Tom\t";
    assert TrimRightBy("Tom\t", IsSpace) == "Tom";
    RemoveAllAbsent("Tom", '\t');
  }

  /** Quotes inside the spaces stay: the quote trim runs before the space trim. */
  lemma CleanQuotesInside()
    ensures Clean(" \"Tom\" ") == "\"Tom\""
  {
    var b := " \"Tom\" ";
    assert TrimBy(b, IsQuote) == b;
    assert TrimLeftBy(b, IsSpace) == b[1..];
    assert TrimRightBy(b[1..], IsSpace) == "\"Tom\"";
    RemoveAllAbsent("\"Tom\"", '\t');
  }
}
