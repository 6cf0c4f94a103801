/**
 * The `CTestCostData.txt` format as the reconciler reads and writes it:
 * header-less rows `test_name count cost` separated by single spaces, one
 * per line, and a trailing `---` marker after which nothing is data.
 */
module CostFile {
  import opened Wrappers
  import opened Text

  /** One row of a cost file. `cost` is carried as opaque text. */
  datatype CostRecord = CostRecord(testName: string, count: nat, cost: string)

  /** The marker that ends the data rows of a cost file. */
  const Trailer: string := "---"

  /** The CSV reader and writer use a single space between fields. */
  const Delimiter: char := ' '

  /** The characters the CSV reader accepts as line terminators. */
  const LineBreaks: set<char> := {'\n', '\r'}

  /** Characters a field must not contain to be written and read back unquoted. */
  const FieldBreaks: set<char> := {' ', '\n', '\r'}

  /** `usize::MAX + 1` on a 64-bit target: the smallest count that does not parse. */
  const UsizeLimit: nat := 0x1_0000_0000_0000_0000

  /** The test names of `rs`, in order. */
  function Names(rs: seq<CostRecord>): (ns: seq<string>)
    ensures |ns| == |rs|
    ensures forall i :: 0 <= i < |rs| ==> ns[i] == rs[i].testName
  {
    seq(|rs|, i requires 0 <= i < |rs| => rs[i].testName)
  }

  /** A record whose fields can be written unquoted and whose count fits a `usize`. */
  predicate Plain(r: CostRecord) {
    Avoids(r.testName, FieldBreaks) && Avoids(r.cost, FieldBreaks) && r.count < UsizeLimit
  }

  /**
   * The data part of a cost file: everything before the last `---`, or the
   * whole content when there is none.
   */
  function StripTrailer(content: string): string {
    match LastIndexOf(content, Trailer)
    case Some(end) => content[..end]
    case None => content
  }

  /**
   * Cutting keeps a prefix: the whole content when there is no `---`, and
   * otherwise exactly what precedes the last `---`.
   */
  lemma StripTrailerSpec(content: string)
    ensures StripTrailer(content) <= content
    ensures (forall j :: !OccursAt(content, Trailer, j)) ==> StripTrailer(content) == content
    ensures (exists j :: OccursAt(content, Trailer, j)) ==>
              && OccursAt(content, Trailer, |StripTrailer(content)|)
              && forall j :: |StripTrailer(content)| < j ==> !OccursAt(content, Trailer, j)
  {
    LastIndexOfSpec(content, Trailer);
  }

  /** The record lines of the data part; the CSV reader skips blank lines. */
  function Lines(text: string): seq<string> {
    NonEmpty(Split(text, LineBreaks))
  }

  /** Each line is non-empty and has no terminator in it. */
  lemma LinesShape(text: string)
    ensures forall i :: 0 <= i < |Lines(text)| ==> Lines(text)[i] != [] && Avoids(Lines(text)[i], LineBreaks)
  {
    var pieces := Split(text, LineBreaks);
    SplitAvoids(text, LineBreaks);
    NonEmptyKeeps(pieces);
    forall i | 0 <= i < |Lines(text)| ensures Avoids(Lines(text)[i], LineBreaks) {
      var k :| 0 <= k < |pieces| && pieces[k] == Lines(text)[i];
    }
  }

  /** A line terminator ends a line: the lines around it are those before it, then those after it. */
  lemma LinesAtBreak(a: string, c: char, b: string)
    requires c in LineBreaks
    ensures Lines(a + [c] + b) == Lines(a) + Lines(b)
  {
    SplitAtSeparator(a, c, b, LineBreaks);
    NonEmptyAppend(Split(a, LineBreaks), Split(b, LineBreaks));
  }

  /** Text without a terminator is a single line, or no line at all when it is empty. */
  lemma LinesOfLine(a: string)
    requires Avoids(a, LineBreaks)
    ensures Lines(a) == if a == [] then [] else [a]
  {
    SplitPlain(a, LineBreaks);
    assert [a][1..] == [];
    assert NonEmpty([a]) == (if a == [] then [] else [a]) + NonEmpty([]);
  }

  /** The space-separated fields of one line. */
  function Fields(line: string): seq<string> {
    Split(line, {Delimiter})
  }

  /**
   * Rust's `from_str_radix` for a 64-bit unsigned integer (`str::parse` when
   * `radix` is 10): an optional `+`, then at least one digit of the radix, and
   * a value below 2^64.
   */
  function ParseUnsigned(s: string, radix: nat): (r: Option<nat>)
    ensures r.Some? ==> r.value < UsizeLimit
  {
    var digits := if |s| > 0 && s[0] == '+' then s[1..] else s;
    if |digits| > 0 && AllDigits(digits, radix) && DigitsValue(digits, radix) < UsizeLimit
    then Some(DigitsValue(digits, radix))
    else None
  }

  /**
   * The CSV deserializer's reading of an unsigned integer field: hexadecimal
   * after a `0x` prefix, decimal otherwise.
   */
  function ParseCount(field: string): (r: Option<nat>)
    ensures r.Some? ==> r.value < UsizeLimit
  {
    if |field| >= 2 && field[..2] == "0x" then ParseUnsigned(field[2..], 16)
    else ParseUnsigned(field, 10)
  }

  /** The prefixes a count may carry: the hexadecimal ones select base 16. */
  const DecimalPrefixes: set<string> := {"", "+"}
  const HexPrefixes: set<string> := {"0x", "0x+"}

  /** `field` is `prefix` followed by at least one digit of the radix that prefix selects. */
  predicate CountSpelling(field: string, prefix: string, digits: string) {
    && (prefix in DecimalPrefixes || prefix in HexPrefixes)
    && field == prefix + digits
    && |digits| > 0
    && AllDigits(digits, if prefix in HexPrefixes then 16 else 10)
  }

  /**
   * A field is a count exactly when it is spelled with one of the prefixes
   * and digits of the radix that prefix selects, and the value is below 2^64.
   */
  lemma ParseCountSpec(field: string, n: nat)
    ensures ParseCount(field) == Some(n) <==>
              exists prefix, digits :: CountSpelling(field, prefix, digits) &&
                DigitsValue(digits, if prefix in HexPrefixes then 16 else 10) == n && n < UsizeLimit
  {
    if ParseCount(field) == Some(n) {
      var prefix, digits := SpellingOf(field);
    }
    if exists prefix, digits :: CountSpelling(field, prefix, digits) &&
         DigitsValue(digits, if prefix in HexPrefixes then 16 else 10) == n && n < UsizeLimit {
      var prefix, digits :| CountSpelling(field, prefix, digits) &&
        DigitsValue(digits, if prefix in HexPrefixes then 16 else 10) == n && n < UsizeLimit;
      ParseCountOfSpelling(field, prefix, digits);
    }
  }

  /** How an accepted count is spelled: its prefix and its digits. */
  lemma SpellingOf(field: string) returns (prefix: string, digits: string)
    requires ParseCount(field).Some?
    ensures CountSpelling(field, prefix, digits)
    ensures DigitsValue(digits, if prefix in HexPrefixes then 16 else 10) == ParseCount(field).value
  {
    if |field| >= 2 && field[..2] == "0x" {
      prefix, digits := HexSpelling(field);
    } else {
      prefix, digits := UnsignedSpelling(field, 10);
    }
  }

  /** A field read as hexadecimal is `0x`, an optional `+`, and hexadecimal digits denoting its value. */
  lemma HexSpelling(field: string) returns (prefix: string, digits: string)
    requires |field| >= 2 && field[..2] == "0x" && ParseUnsigned(field[2..], 16).Some?
    ensures prefix in HexPrefixes && field == prefix + digits
    ensures |digits| > 0 && AllDigits(digits, 16) && DigitsValue(digits, 16) == ParseUnsigned(field[2..], 16).value
  {
    var sign;
    sign, digits := UnsignedSpelling(field[2..], 16);
    prefix := "0x" + sign;
    assert prefix in HexPrefixes by {
      if sign == "" { assert prefix == "0x"; } else { assert prefix == "0x+"; }
    }
    PrefixThenRest(field, "0x", sign, digits);
  }

  /** A string that starts with `p` and continues with `q + r` is `(p + q) + r`. */
  lemma PrefixThenRest(s: string, p: string, q: string, r: string)
    requires |p| <= |s| && s[..|p|] == p && s[|p|..] == q + r
    ensures s == p + q + r
  {
    assert s == s[..|p|] + s[|p|..];
  }

  /** A parsed unsigned integer is an optional `+` and digits of the radix denoting its value. */
  lemma UnsignedSpelling(body: string, radix: nat) returns (sign: string, digits: string)
    requires ParseUnsigned(body, radix).Some?
    ensures sign in DecimalPrefixes && body == sign + digits
    ensures |digits| > 0 && AllDigits(digits, radix) && DigitsValue(digits, radix) == ParseUnsigned(body, radix).value
  {
    if |body| > 0 && body[0] == '+' {
      sign, digits := "+", body[1..];
    } else {
      sign, digits := "", body;
    }
  }

  /** A spelled count is read with the radix of its prefix. */
  lemma ParseCountOfSpelling(field: string, prefix: string, digits: string)
    requires CountSpelling(field, prefix, digits)
    ensures var radix := if prefix in HexPrefixes then 16 else 10;
            ParseCount(field) == if DigitsValue(digits, radix) < UsizeLimit then Some(DigitsValue(digits, radix)) else None
  {
    if prefix in HexPrefixes {
      assert field[..2] == "0x" && field[2..] == prefix[2..] + digits;
      ParseUnsignedDigits(prefix[2..], digits, 16);
    } else {
      DecimalHasNoHexPrefix(field, prefix, digits);
      ParseUnsignedDigits(prefix, digits, 10);
    }
  }

  /** A decimal spelling never starts with `0x`. */
  lemma DecimalHasNoHexPrefix(field: string, prefix: string, digits: string)
    requires CountSpelling(field, prefix, digits) && prefix in DecimalPrefixes
    ensures !(|field| >= 2 && field[..2] == "0x")
  {
    if |field| >= 2 {
      assert field[1] == if prefix == "" then digits[1] else digits[0];
      assert DigitValue(field[1]) < 10;
    }
  }

  /** Digits after an optional `+` are read as their value in the radix. */
  lemma ParseUnsignedDigits(sign: string, digits: string, radix: nat)
    requires sign == "" || sign == "+"
    requires |digits| > 0 && AllDigits(digits, radix) && radix <= 16
    ensures ParseUnsigned(sign + digits, radix) ==
              if DigitsValue(digits, radix) < UsizeLimit then Some(DigitsValue(digits, radix)) else None
  {
    assert DigitValue(digits[0]) < 16;
    if sign == "+" {
      assert (sign + digits)[1..] == digits;
    } else {
      assert sign + digits == digits;
    }
  }

  /**
   * One line deserialized into a record. Fields are taken by position: a line
   * needs at least three, the second must be a count, and any field after the
   * third is ignored.
   */
  function ParseRow(line: string): (r: Option<CostRecord>)
    ensures r.Some? ==> r.value.count < UsizeLimit
  {
    var fields := Fields(line);
    if |fields| < 3 then None
    else match ParseCount(fields[1])
      case None => None
      case Some(count) => Some(CostRecord(fields[0], count, fields[2]))
  }

  /**
   * `line` is `r` written out with its count spelled `c`, followed by the
   * `extra` fields: all of them joined by single spaces, none containing a
   * space.
   */
  predicate SpelledAs(line: string, r: CostRecord, c: string, extra: seq<string>) {
    && line == Join([r.testName, c, r.cost] + extra, Delimiter)
    && Avoids(r.testName, {Delimiter}) && Avoids(c, {Delimiter}) && Avoids(r.cost, {Delimiter})
    && (forall i :: 0 <= i < |extra| ==> Avoids(extra[i], {Delimiter}))
    && ParseCount(c) == Some(r.count)
  }

  /**
   * A line deserializes to `r` exactly when it is `r` written out, possibly
   * followed by more fields: space-free fields, the second a count spelling
   * `r.count`.
   */
  lemma ParseRowSpec(line: string, r: CostRecord)
    ensures ParseRow(line) == Some(r) <==> exists c, extra :: SpelledAs(line, r, c, extra)
  {
    if ParseRow(line) == Some(r) {
      var fields := Fields(line);
      JoinSplit(line, Delimiter);
      SplitAvoids(line, {Delimiter});
      assert fields == [r.testName, fields[1], r.cost] + fields[3..];
      assert SpelledAs(line, r, fields[1], fields[3..]);
    }
    if exists c, extra :: SpelledAs(line, r, c, extra) {
      var c, extra :| SpelledAs(line, r, c, extra);
      var parts := [r.testName, c, r.cost] + extra;
      forall i | 0 <= i < |parts| ensures Avoids(parts[i], {Delimiter}) {
        if i >= 3 {
          assert parts[i] == extra[i - 3];
        }
      }
      SplitJoin(parts, Delimiter, {Delimiter});
    }
  }

  /**
   * A line as the CSV reader yields it in a file whose first record has
   * `width` fields: the reader is not flexible, so a line of any other width
   * is an error before it is deserialized.
   */
  function ReadRow(line: string, width: nat): Option<CostRecord> {
    if |Fields(line)| != width then None else ParseRow(line)
  }

  /** The number of fields of the first line, which every other line must match. */
  function FirstWidth(lines: seq<string>): nat {
    if lines == [] then 0 else |Fields(lines[0])|
  }

  /** Every line as a record, or failure as soon as one line is malformed. */
  function ParseRows(rows: seq<string>, width: nat): (r: Option<seq<CostRecord>>)
    ensures r.Some? ==> |r.value| == |rows|
    decreases |rows|
  {
    if rows == [] then Some([])
    else match ReadRow(rows[0], width)
      case None => None
      case Some(record) =>
        match ParseRows(rows[1..], width)
        case None => None
        case Some(rest) => Some([record] + rest)
  }

  /**
   * All or nothing: the rows parse exactly when every line does, and then
   * record `i` is line `i` read; a single bad line yields no records.
   */
  lemma {:induction false} ParseRowsSpec(rows: seq<string>, width: nat)
    ensures ParseRows(rows, width).Some? <==> forall i :: 0 <= i < |rows| ==> ReadRow(rows[i], width).Some?
    ensures ParseRows(rows, width).Some? ==> |ParseRows(rows, width).value| == |rows|
    ensures ParseRows(rows, width).Some? ==>
              forall i :: 0 <= i < |rows| ==> ReadRow(rows[i], width) == Some(ParseRows(rows, width).value[i])
    decreases |rows|
  {
    if rows != [] {
      ParseRowsSpec(rows[1..], width);
      assert forall i :: 0 < i < |rows| ==> rows[i] == rows[1..][i - 1];
    }
  }

  /** The records of a file's lines, each line as wide as the first. */
  function ReadRows(lines: seq<string>): (r: Option<seq<CostRecord>>)
    ensures r.Some? ==> |r.value| == |lines|
  {
    ParseRows(lines, FirstWidth(lines))
  }

  /**
   * A file's lines read exactly when every line has as many fields as the
   * first and deserializes; record `i` is then line `i` deserialized.
   */
  lemma ReadRowsSpec(lines: seq<string>)
    ensures ReadRows(lines).Some? <==>
              forall i :: 0 <= i < |lines| ==> |Fields(lines[i])| == |Fields(lines[0])| && ParseRow(lines[i]).Some?
    ensures ReadRows(lines).Some? ==>
              forall i :: 0 <= i < |lines| ==> ParseRow(lines[i]) == Some(ReadRows(lines).value[i])
  {
    ParseRowsSpec(lines, FirstWidth(lines));
  }

  /** Reading a whole cost file: cut at the last trailer, then read every line. */
  function ReadRecordFile(content: string): (r: Option<seq<CostRecord>>)
    ensures r.Some? ==> |r.value| == |Lines(StripTrailer(content))|
  {
    ReadRows(Lines(StripTrailer(content)))
  }

  /** One record as the CSV writer prints it, without the line terminator. */
  function FormatLine(r: CostRecord): string {
    Join([r.testName, Decimal(r.count), r.cost], Delimiter)
  }

  function FormatRow(r: CostRecord): string {
    FormatLine(r) + "\n"
  }

  function FormatRows(rs: seq<CostRecord>): string
    decreases |rs|
  {
    if rs == [] then "" else FormatRow(rs[0]) + FormatRows(rs[1..])
  }

  /**
   * The whole output file: every row, then the bare trailer. The trailer
   * written last is the last `---` in the file, so reading cuts exactly the
   * written rows back out.
   */
  function Serialize(rs: seq<CostRecord>): (s: string)
    ensures StripTrailer(s) == FormatRows(rs)
  {
    var body := FormatRows(rs);
    var s := body + Trailer;
    StripTrailerSpec(s);
    assert s[|body|..|body| + 3] == Trailer;
    assert OccursAt(s, Trailer, |body|);
    s
  }

  /** Writes the rows one by one and then appends the trailer. */
  method WriteCostFile(rows: seq<CostRecord>) returns (out: string)
    ensures out == Serialize(rows)
  {
    out := "";
    for i := 0 to |rows|
      invariant out == FormatRows(rows[..i])
    {
      FormatRowsAppend(rows[..i], rows[i]);
      assert rows[..i + 1] == rows[..i] + [rows[i]];
      out := out + FormatRow(rows[i]);
    }
    assert rows[..|rows|] == rows;
    out := out + Trailer;
  }

  lemma {:induction false} FormatRowsAppend(rs: seq<CostRecord>, r: CostRecord)
    ensures FormatRows(rs + [r]) == FormatRows(rs) + FormatRow(r)
    decreases |rs|
  {
    if rs == [] {
      assert [r][1..] == [];
    } else {
      assert (rs + [r])[1..] == rs[1..] + [r];
      FormatRowsAppend(rs[1..], r);
    }
  }

  /** Reading a count back gives the number that was written. */
  lemma ParseCountDecimal(n: nat)
    requires n < UsizeLimit
    ensures ParseCount(Decimal(n)) == Some(n)
  {
    assert "" + Decimal(n) == Decimal(n);
    ParseCountOfSpelling(Decimal(n), "", Decimal(n));
  }

  /** A plain record survives being written as a line and parsed again. */
  lemma ParseRowFormatLine(r: CostRecord)
    requires Plain(r)
    ensures |Fields(FormatLine(r))| == 3
    ensures ParseRow(FormatLine(r)) == Some(r)
  {
    var parts := [r.testName, Decimal(r.count), r.cost];
    forall i | 0 <= i < |parts| ensures Avoids(parts[i], {Delimiter}) {
      assert Avoids(parts[i], FieldBreaks);
    }
    SplitJoin(parts, Delimiter, {Delimiter});
    ParseCountDecimal(r.count);
  }

  /**
   * Fields after the third do not change the record: a plain record written
   * with extra space-free fields after it deserializes to the same record,
   * and the line is as wide as its fields.
   */
  lemma ParseRowIgnoresExtra(r: CostRecord, extra: seq<string>)
    requires Plain(r)
    requires forall i :: 0 <= i < |extra| ==> Avoids(extra[i], {Delimiter})
    ensures var line := Join([r.testName, Decimal(r.count), r.cost] + extra, Delimiter);
            |Fields(line)| == 3 + |extra| && ParseRow(line) == Some(r)
  {
    var parts := [r.testName, Decimal(r.count), r.cost] + extra;
    forall i | 0 <= i < |parts| ensures Avoids(parts[i], {Delimiter}) {
      if i < 3 {
        assert Avoids(parts[i], FieldBreaks);
      } else {
        assert parts[i] == extra[i - 3];
      }
    }
    SplitJoin(parts, Delimiter, {Delimiter});
    ParseCountDecimal(r.count);
  }

  lemma FormatLineShape(r: CostRecord)
    requires Plain(r)
    ensures FormatLine(r) != [] && Avoids(FormatLine(r), LineBreaks)
  {
    var parts := [r.testName, Decimal(r.count), r.cost];
    forall i | 0 <= i < |parts| ensures Avoids(parts[i], LineBreaks) {
      assert Avoids(parts[i], FieldBreaks);
    }
    JoinAvoids(parts, Delimiter, LineBreaks);
  }

  /** The lines of written rows are exactly the formatted records. */
  lemma {:induction false} LinesOfFormatRows(rs: seq<CostRecord>)
    requires forall i :: 0 <= i < |rs| ==> Plain(rs[i])
    ensures |Lines(FormatRows(rs))| == |rs|
    ensures forall i :: 0 <= i < |rs| ==> Lines(FormatRows(rs))[i] == FormatLine(rs[i])
    decreases |rs|
  {
    if rs == [] {
      assert Split(FormatRows(rs), LineBreaks) == [""];
      assert [""][1..] == [];
    } else {
      FormatLineShape(rs[0]);
      LinesAtBreak(FormatLine(rs[0]), '\n', FormatRows(rs[1..]));
      LinesOfLine(FormatLine(rs[0]));
      assert FormatRows(rs) == FormatLine(rs[0]) + ['\n'] + FormatRows(rs[1..]);
      LinesOfFormatRows(rs[1..]);
    }
  }

  /** Parsing formatted lines gives the records back. */
  lemma {:induction false} ParseFormattedRows(rs: seq<CostRecord>, lines: seq<string>)
    requires |lines| == |rs|
    requires forall i :: 0 <= i < |rs| ==> Plain(rs[i]) && lines[i] == FormatLine(rs[i])
    ensures ParseRows(lines, 3) == Some(rs)
    decreases |rs|
  {
    if rs != [] {
      ParseRowFormatLine(rs[0]);
      assert forall i :: 0 <= i < |rs| - 1 ==> rs[1..][i] == rs[i + 1] && lines[1..][i] == lines[i + 1];
      ParseFormattedRows(rs[1..], lines[1..]);
      assert [rs[0]] + rs[1..] == rs;
    }
  }

  /** Round trip: a written cost file reads back as the records that were written. */
  lemma SerializeRoundTrip(rs: seq<CostRecord>)
    requires forall i :: 0 <= i < |rs| ==> Plain(rs[i])
    ensures ReadRecordFile(Serialize(rs)) == Some(rs)
  {
    LinesOfFormatRows(rs);
    ParseFormattedRows(rs, Lines(FormatRows(rs)));
    if rs != [] {
      ParseRowFormatLine(rs[0]);
    }
  }

  /** Every record read from a file is plain: the reader never leaves a separator in a field. */
  lemma ParsedRowPlain(line: string)
    requires Avoids(line, LineBreaks) && ParseRow(line).Some?
    ensures Plain(ParseRow(line).value)
  {
    var fields := Fields(line);
    SplitAvoids(line, {Delimiter});
    SplitKeepsAvoiding(line, {Delimiter}, LineBreaks);
    var r := ParseRow(line).value;
    assert fields[0] == r.testName && fields[2] == r.cost;
    assert Avoids(fields[0], {Delimiter}) && Avoids(fields[0], LineBreaks);
    assert Avoids(fields[2], {Delimiter}) && Avoids(fields[2], LineBreaks);
  }

  lemma ReadRecordsPlain(content: string)
    requires ReadRecordFile(content).Some?
    ensures forall i :: 0 <= i < |ReadRecordFile(content).value| ==> Plain(ReadRecordFile(content).value[i])
  {
    var rows := Lines(StripTrailer(content));
    LinesShape(StripTrailer(content));
    ReadRowsSpec(rows);
    forall i | 0 <= i < |rows| ensures Plain(ReadRecordFile(content).value[i]) {
      ParsedRowPlain(rows[i]);
    }
  }
}
