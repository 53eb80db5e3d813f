/**
 The text of the CSV export: a fixed 14-column header line followed by one line
 per record, lines joined with a newline. Only the remarks value is quoted; no
 value is escaped. `formatTime` stands for the locale date-time formatter
 applied to each record's timestamp.

 Beside the writer, a reader that splits a line at the commas outside double
 quotes states what the writer's lines mean: each record line reads back as its
 14 values as long as no unquoted value holds a comma or a quote and the
 remarks hold no double quote.
 */
module Csv {
  import opened Wrappers
  import opened Types
  import opened Strings

  const Headers: seq<string> := [
    "Serial Number", "Block", "GP", "Village", "Beneficiary ID", "Name", "Status",
    "Remarks", "Latitude", "Longitude", "Superior Name", "Designation", "Superior ID",
    "Timestamp"]

  function HeaderLine(): string
  {
    Join(",", Headers)
  }

  /**
   `row.latitude || ''`: empty when the coordinate is absent and also when it is 0,
   which JavaScript treats as false; otherwise the number's decimal text.
   */
  function Coordinate(o: Option<int>): (s: string)
    ensures s == "" <==> o.None? || o.value == 0
    ensures o.Some? && o.value != 0 ==> s == IntToDecimal(o.value)
    ensures forall k :: 0 <= k < |s| ==> IsDigit(s[k]) || (k == 0 && s[k] == '-')
  {
    match o
    case None => ""
    case Some(n) => if n == 0 then "" else IntToDecimal(n)
  }

  /** The remarks value wrapped in double quotes, also when it is empty. */
  function Quoted(s: string): (q: string)
    ensures |q| == |s| + 2 && q[0] == '"' && q[|q| - 1] == '"' && q[1..|q| - 1] == s
  {
    "\"" + s + "\""
  }

  /** The 14 values of a record's line, in header order. */
  function RowValues(r: BeneficiaryRecord, formatTime: int -> string): (vs: seq<string>)
    ensures |vs| == |Headers|
  {
    [r.serialNumber, r.blockName, r.gpName, r.village, r.beneficiaryId, r.beneficiaryName,
     StatusText(r.status), Quoted(r.remarks), Coordinate(r.latitude), Coordinate(r.longitude),
     r.superiorName, r.superiorDesignation, r.superiorIdSrh, formatTime(r.timestamp)]
  }

  function Row(r: BeneficiaryRecord, formatTime: int -> string): string
  {
    Join(",", RowValues(r, formatTime))
  }

  /** The lines of the export: the header, then one line per record in collection order. */
  function Lines(rs: seq<BeneficiaryRecord>, formatTime: int -> string): seq<string>
  {
    [HeaderLine()] + Rows(rs, formatTime)
  }

  function Rows(rs: seq<BeneficiaryRecord>, formatTime: int -> string): (ls: seq<string>)
    ensures |ls| == |rs|
    ensures forall k :: 0 <= k < |rs| ==> ls[k] == Row(rs[k], formatTime)
  {
    seq(|rs|, k requires 0 <= k < |rs| => Row(rs[k], formatTime))
  }

  /** Taking one more record adds that record's line at the end. */
  lemma RowsSnoc(rs: seq<BeneficiaryRecord>, i: nat, formatTime: int -> string)
    requires i < |rs|
    ensures Rows(rs[..i + 1], formatTime) == Rows(rs[..i], formatTime) + [Row(rs[i], formatTime)]
  {
    var a, b := Rows(rs[..i + 1], formatTime), Rows(rs[..i], formatTime) + [Row(rs[i], formatTime)];
    forall k | 0 <= k < |a| ensures a[k] == b[k] {
      if k < i { assert rs[..i + 1][k] == rs[..i][k]; }
    }
  }

  /** Taking one more record adds that record's line at the end of the export's lines. */
  lemma LinesSnoc(rs: seq<BeneficiaryRecord>, i: nat, formatTime: int -> string)
    requires i < |rs|
    ensures Lines(rs[..i + 1], formatTime) == Lines(rs[..i], formatTime) + [Row(rs[i], formatTime)]
  {
    RowsSnoc(rs, i, formatTime);
  }

  function Text(rs: seq<BeneficiaryRecord>, formatTime: int -> string): string
  {
    Join("\n", Lines(rs, formatTime))
  }

  // ----- Reading a line back -----------------------------------------------------

  /**
   Splits `s` at the commas that lie outside double quotes (`quoted` says whether
   the text starts inside quotes). Quote characters stay part of the value.
   */
  function FieldsFrom(s: string, quoted: bool): (r: seq<string>)
    ensures |r| >= 1
    decreases |s|
  {
    if s == [] then [""]
    else
      var rest := FieldsFrom(s[1..], if s[0] == '"' then !quoted else quoted);
      if s[0] == ',' && !quoted then [""] + rest else [[s[0]] + rest[0]] + rest[1..]
  }

  function SplitFields(line: string): seq<string>
  {
    FieldsFrom(line, false)
  }

  /** A value written as it is: it holds neither a comma nor a double quote. */
  predicate Plain(v: string) { ',' !in v && '"' !in v }

  /** A value that reads back as itself: plain, or a quoted text without inner quotes. */
  predicate Safe(v: string)
  {
    Plain(v) || (|v| >= 2 && v[0] == '"' && v[|v| - 1] == '"' && '"' !in v[1..|v| - 1])
  }

  /** Text without quotes (and, outside quotes, without commas) extends the current value. */
  lemma {:induction false} Absorb(a: string, t: string, quoted: bool)
    requires '"' !in a && (quoted || ',' !in a)
    ensures FieldsFrom(a + t, quoted) == [a + FieldsFrom(t, quoted)[0]] + FieldsFrom(t, quoted)[1..]
    decreases |a|
  {
    if a == [] {
      var x := FieldsFrom(t, quoted);
      assert a + t == t && a + x[0] == x[0];
      assert [x[0]] + x[1..] == x;
    } else {
      assert a[0] in a;
      assert (a + t)[0] == a[0] && (a + t)[1..] == a[1..] + t;
      Absorb(a[1..], t, quoted);
      var rest := FieldsFrom(a[1..] + t, quoted);
      assert FieldsFrom(a + t, quoted) == [[a[0]] + rest[0]] + rest[1..];
      assert [a[0]] + (a[1..] + FieldsFrom(t, quoted)[0]) == a + FieldsFrom(t, quoted)[0];
    }
  }

  /** A quote character starts one run of the current value and switches the quote state. */
  lemma QuoteStep(t: string, quoted: bool)
    ensures FieldsFrom("\"" + t, quoted) == [['"'] + FieldsFrom(t, !quoted)[0]] + FieldsFrom(t, !quoted)[1..]
  {
    assert ("\"" + t)[0] == '"' && ("\"" + t)[1..] == t;
  }

  /** A safe value at the start of the text becomes all of the current value's beginning. */
  lemma SafePrefix(v: string, t: string)
    requires Safe(v)
    ensures FieldsFrom(v + t, false) == [v + FieldsFrom(t, false)[0]] + FieldsFrom(t, false)[1..]
  {
    if Plain(v) {
      Absorb(v, t, false);
    } else {
      var m := v[1..|v| - 1];
      assert v == "\"" + m + "\"";
      assert v + t == "\"" + (m + ("\"" + t));
      QuoteStep(m + ("\"" + t), false);
      Absorb(m, "\"" + t, true);
      QuoteStep(t, true);
      var x := FieldsFrom(t, false);
      assert FieldsFrom(v + t, false) == [['"'] + (m + (['"'] + x[0]))] + x[1..];
      assert ['"'] + (m + (['"'] + x[0])) == v + x[0];
    }
  }

  /** Reading back a comma-joined line of safe values gives the values. */
  lemma {:induction false} SplitFieldsOfJoin(vs: seq<string>)
    requires |vs| >= 1
    requires forall k :: 0 <= k < |vs| ==> Safe(vs[k])
    ensures SplitFields(Join(",", vs)) == vs
    decreases |vs|
  {
    var rest := vs[1..];
    JoinCons(",", vs[0], rest);
    assert [vs[0]] + rest == vs;
    if |rest| == 0 {
      SafePrefix(vs[0], "");
      assert vs[0] + "" == vs[0];
    } else {
      var t := "," + Join(",", rest);
      SafePrefix(vs[0], t);
      assert t[0] == ',' && t[1..] == Join(",", rest);
      SplitFieldsOfJoin(rest);
      assert FieldsFrom(t, false) == [""] + rest;
      assert vs[0] + "" == vs[0];
    }
  }

  /** A plain value that holds one comma reads back as two values: the line gains a column. */
  lemma UnquotedCommaAddsColumn(vs: seq<string>, k: nat, a: string, b: string)
    requires k < |vs| && vs[k] == a + "," + b && Plain(a) && Plain(b)
    requires forall j :: 0 <= j < |vs| && j != k ==> Safe(vs[j])
    ensures |SplitFields(Join(",", vs))| == |vs| + 1
  {
    var ws := vs[..k] + [a, b] + vs[k + 1..];
    assert vs == vs[..k] + [a + "," + b] + vs[k + 1..];
    JoinSplice(",", vs[..k], a, b, vs[k + 1..]);
    forall j | 0 <= j < |ws| ensures Safe(ws[j]) {
      if j < k { assert ws[j] == vs[j]; }
      else if j > k + 1 { assert ws[j] == vs[j - 1]; }
    }
    SplitFieldsOfJoin(ws);
  }

  // ----- What the export promises ---------------------------------------------

  lemma HeadersArePlain()
    ensures forall k :: 0 <= k < |Headers| ==> Plain(Headers[k]) && '\n' !in Headers[k]
  {
  }

  /** The header line reads back as the 14 column names. */
  lemma HeaderFields()
    ensures SplitFields(HeaderLine()) == Headers && |Headers| == 14
  {
    HeadersArePlain();
    SplitFieldsOfJoin(Headers);
  }

  /** The record's own text fields that are written unquoted hold no comma or quote. */
  predicate UnquotedFieldsPlain(r: BeneficiaryRecord)
  {
    && Plain(r.serialNumber) && Plain(r.blockName) && Plain(r.gpName) && Plain(r.village)
    && Plain(r.beneficiaryId) && Plain(r.beneficiaryName)
    && Plain(r.superiorName) && Plain(r.superiorDesignation) && Plain(r.superiorIdSrh)
  }

  /**
   The record's own text fields read back: the unquoted ones are plain, and the
   remarks hold no quote, since a quote inside them is not escaped.
   */
  predicate FieldsReadBack(r: BeneficiaryRecord)
  {
    UnquotedFieldsPlain(r) && '"' !in r.remarks
  }

  /** Every value of the record's line is read back as it was written. */
  predicate ReadsBack(r: BeneficiaryRecord, formatTime: int -> string)
  {
    FieldsReadBack(r) && Plain(formatTime(r.timestamp))
  }

  lemma CoordinatePlain(o: Option<int>)
    ensures Plain(Coordinate(o)) && '\n' !in Coordinate(o)
  {
    var s := Coordinate(o);
    forall k | 0 <= k < |s| ensures s[k] != ',' && s[k] != '"' && s[k] != '\n' { }
  }

  lemma QuotedSafe(s: string)
    requires '"' !in s
    ensures Safe(Quoted(s))
  {
  }

  /**
   Apart from the quoted remarks (column 7) and the timestamp (column 13), the
   values of a line are plain when the record's unquoted fields are.
   */
  lemma UnquotedValuesPlain(r: BeneficiaryRecord, formatTime: int -> string)
    requires UnquotedFieldsPlain(r)
    ensures forall k :: 0 <= k < 13 && k != 7 ==> Plain(RowValues(r, formatTime)[k])
    ensures RowValues(r, formatTime)[7] == Quoted(r.remarks)
    ensures RowValues(r, formatTime)[13] == formatTime(r.timestamp)
  {
    var lat, lon, q := Coordinate(r.latitude), Coordinate(r.longitude), Quoted(r.remarks);
    CoordinatePlain(r.latitude);
    CoordinatePlain(r.longitude);
    var vs := RowValues(r, formatTime);
    assert vs == [r.serialNumber, r.blockName, r.gpName, r.village, r.beneficiaryId, r.beneficiaryName,
                  StatusText(r.status), q, lat, lon,
                  r.superiorName, r.superiorDesignation, r.superiorIdSrh, formatTime(r.timestamp)];
  }

  /**
   A record's line has exactly 14 top-level values, in header order; the remarks
   column is the remarks in double quotes, commas included.
   */
  lemma RowFields(r: BeneficiaryRecord, formatTime: int -> string)
    requires ReadsBack(r, formatTime)
    ensures SplitFields(Row(r, formatTime)) == RowValues(r, formatTime)
    ensures |SplitFields(Row(r, formatTime))| == 14
    ensures SplitFields(Row(r, formatTime))[7] == Quoted(r.remarks)
  {
    var vs := RowValues(r, formatTime);
    UnquotedValuesPlain(r, formatTime);
    QuotedSafe(r.remarks);
    assert forall k :: 0 <= k < |vs| ==> Safe(vs[k]);
    SplitFieldsOfJoin(vs);
  }

  /**
   A timestamp text with a comma in it (as some locales' date-time formats have)
   gives a line of 15 top-level values: the timestamp is not quoted.
   */
  lemma TimestampCommaAddsColumn(r: BeneficiaryRecord, formatTime: int -> string, a: string, b: string)
    requires FieldsReadBack(r)
    requires formatTime(r.timestamp) == a + "," + b && Plain(a) && Plain(b)
    ensures |SplitFields(Row(r, formatTime))| == 15
  {
    var vs := RowValues(r, formatTime);
    UnquotedValuesPlain(r, formatTime);
    QuotedSafe(r.remarks);
    assert forall j :: 0 <= j < |vs| && j != 13 ==> Safe(vs[j]);
    UnquotedCommaAddsColumn(vs, 13, a, b);
  }

  /** Safe values, comma-joined in front of a text, read back ahead of that text's values. */
  lemma {:induction false} SafeValuesThen(pre: seq<string>, t: string)
    requires |pre| >= 1
    requires forall k :: 0 <= k < |pre| ==> Safe(pre[k])
    ensures FieldsFrom(Join(",", pre) + "," + t, false) == pre + FieldsFrom(t, false)
    decreases |pre|
  {
    var rest := pre[1..];
    assert pre == [pre[0]] + rest;
    JoinCons(",", pre[0], rest);
    if |rest| == 0 {
      assert Join(",", pre) + "," + t == pre[0] + ("," + t);
      SafeThenComma(pre[0], t);
    } else {
      var u := Join(",", rest) + "," + t;
      JoinHeadComma(pre, t);
      SafeThenComma(pre[0], u);
      forall k | 0 <= k < |rest| ensures Safe(rest[k]) {
        assert rest[k] == pre[k + 1];
      }
      SafeValuesThen(rest, t);
      assert [pre[0]] + (rest + FieldsFrom(t, false)) == pre + FieldsFrom(t, false);
    }
  }

  lemma JoinHeadComma(pre: seq<string>, t: string)
    requires |pre| >= 2
    ensures Join(",", pre) + "," + t == pre[0] + ("," + (Join(",", pre[1..]) + "," + t))
  {
  }

  /** A safe value and an unquoted comma in front of a text read back as that value first. */
  lemma SafeThenComma(v: string, u: string)
    requires Safe(v)
    ensures FieldsFrom(v + ("," + u), false) == [v] + FieldsFrom(u, false)
  {
    CommaStep(u);
    SafePrefix(v, "," + u);
    assert v + "" == v;
  }

  /** An unquoted comma ends the current value with nothing in it. */
  lemma CommaStep(u: string)
    ensures FieldsFrom("," + u, false) == [""] + FieldsFrom(u, false)
  {
    assert ("," + u)[0] == ',' && ("," + u)[1..] == u;
  }

  /** A quote opened after a plain value runs to the end of a quote-free text. */
  lemma OpenQuoteToEnd(c: string, rest: string)
    requires Plain(c) && '"' !in rest
    ensures FieldsFrom(c + ("\"" + ("," + rest)), false) == [c + "\"," + rest]
  {
    var t := "," + rest;
    assert '"' !in t by {
      assert forall k :: 0 <= k < |t| ==> t[k] == if k == 0 then ',' else rest[k - 1];
    }
    Absorb(t, "", true);
    assert t + "" == t;
    QuoteStep(t, false);
    assert FieldsFrom("\"" + t, false) == [['"'] + t];
    Absorb(c, "\"" + t, false);
    assert c + (['"'] + t) == c + "\"," + rest;
  }

  lemma QuotedRemarksSplit(a: string, b: string, c: string, t: string)
    ensures Quoted(a + "\"" + b + "," + c) + t == "\"" + (a + ("\"" + (b + ("," + (c + ("\"" + t))))))
  {
    var m := a + "\"" + b + "," + c;
    assert m + ("\"" + t) == a + ("\"" + (b + ("," + (c + ("\"" + t)))));
  }

  /**
   Remarks `a"b,c` followed by the rest of a quote-free line: the inner quote
   closes the quoted value early, its comma splits the remarks, and the closing
   quote opens a value that runs to the end of the line.
   */
  lemma UnescapedQuoteTail(a: string, b: string, c: string, rest: string)
    requires Plain(a) && Plain(b) && Plain(c) && '"' !in rest
    ensures FieldsFrom(Quoted(a + "\"" + b + "," + c) + ("," + rest), false)
         == ["\"" + a + "\"" + b, c + "\"," + rest]
  {
    var v := c + "\"," + rest;
    var x5 := c + ("\"" + ("," + rest));
    var x4 := "," + x5;
    var x3 := b + x4;
    var x2 := "\"" + x3;
    var x1 := a + x2;
    QuotedRemarksSplit(a, b, c, "," + rest);
    OpenQuoteToEnd(c, rest);
    assert x4[0] == ',' && x4[1..] == x5;
    assert FieldsFrom(x4, false) == ["", v];
    Absorb(b, x4, false);
    assert b + "" == b;
    QuoteStep(x3, true);
    assert FieldsFrom(x2, true) == [['"'] + b, v];
    Absorb(a, x2, true);
    assert FieldsFrom(x1, true) == [a + (['"'] + b), v];
    QuoteStep(x1, false);
    assert ['"'] + (a + (['"'] + b)) == "\"" + a + "\"" + b;
  }

  /**
   A double quote in the remarks is not escaped, so remarks `a"b,c` corrupt the
   line: it reads back as 9 values instead of 14, the remarks column ends at the
   comma, and everything after it runs together into the last value.
   */
  lemma RemarksQuoteMergesColumns(r: BeneficiaryRecord, formatTime: int -> string, a: string, b: string, c: string)
    requires UnquotedFieldsPlain(r) && Plain(formatTime(r.timestamp))
    requires r.remarks == a + "\"" + b + "," + c && Plain(a) && Plain(b) && Plain(c)
    ensures |SplitFields(Row(r, formatTime))| == 9
    ensures SplitFields(Row(r, formatTime))[7] == "\"" + a + "\"" + b
  {
    var vs := RowValues(r, formatTime);
    UnquotedValuesPlain(r, formatTime);
    var pre, post := vs[..7], vs[8..];
    assert vs == pre + vs[7..];
    assert vs[7..] == [vs[7]] + post;
    JoinAppend(",", pre, vs[7..]);
    JoinCons(",", vs[7], post);
    forall k | 0 <= k < |post| ensures '"' !in post[k] {
      assert post[k] == vs[k + 8];
    }
    NotInJoin('"', ",", post);
    var rest := Join(",", post);
    UnescapedQuoteTail(a, b, c, rest);
    assert Join(",", vs) == Join(",", pre) + "," + (Quoted(r.remarks) + "," + rest);
    forall k | 0 <= k < |pre| ensures Safe(pre[k]) {
      assert pre[k] == vs[k];
    }
    SafeValuesThen(pre, Quoted(r.remarks) + "," + rest);
  }

  /** No value of the record's line holds a newline. */
  predicate SingleLine(r: BeneficiaryRecord, formatTime: int -> string)
  {
    && '\n' !in r.serialNumber && '\n' !in r.blockName && '\n' !in r.gpName && '\n' !in r.village
    && '\n' !in r.beneficiaryId && '\n' !in r.beneficiaryName && '\n' !in r.remarks
    && '\n' !in r.superiorName && '\n' !in r.superiorDesignation && '\n' !in r.superiorIdSrh
    && '\n' !in formatTime(r.timestamp)
  }

  lemma ValuesSingleLine(r: BeneficiaryRecord, formatTime: int -> string)
    requires SingleLine(r, formatTime)
    ensures forall k :: 0 <= k < 14 ==> '\n' !in RowValues(r, formatTime)[k]
  {
    var lat, lon, q := Coordinate(r.latitude), Coordinate(r.longitude), Quoted(r.remarks);
    CoordinatePlain(r.latitude);
    CoordinatePlain(r.longitude);
    assert '\n' !in q by {
      assert q == ['"'] + r.remarks + ['"'];
    }
    var vs := RowValues(r, formatTime);
    assert vs == [r.serialNumber, r.blockName, r.gpName, r.village, r.beneficiaryId, r.beneficiaryName,
                  StatusText(r.status), q, lat, lon,
                  r.superiorName, r.superiorDesignation, r.superiorIdSrh, formatTime(r.timestamp)];
  }

  lemma RowSingleLine(r: BeneficiaryRecord, formatTime: int -> string)
    requires SingleLine(r, formatTime)
    ensures '\n' !in Row(r, formatTime)
  {
    ValuesSingleLine(r, formatTime);
    NotInJoin('\n', ",", RowValues(r, formatTime));
  }

  lemma HeaderLineSingleLine()
    ensures '\n' !in HeaderLine()
  {
    HeadersArePlain();
    NotInJoin('\n', ",", Headers);
  }

  /**
   The first line of the export is the header line, whatever the records hold;
   with no records the export is the header line alone.
   */
  lemma TextStartsWithHeader(rs: seq<BeneficiaryRecord>, formatTime: int -> string)
    ensures SplitOn('\n', Text(rs, formatTime))[0] == HeaderLine()
    ensures rs == [] ==> Text(rs, formatTime) == HeaderLine()
  {
    var ls := Lines(rs, formatTime);
    var rows := ls[1..];
    assert ls == [HeaderLine()] + rows;
    JoinCons("\n", HeaderLine(), rows);
    HeaderLineSingleLine();
    var tail := if |rows| == 0 then "" else "\n" + Join("\n", rows);
    SplitOnPrefix('\n', HeaderLine(), tail);
    if |rows| > 0 {
      assert tail[0] == '\n' && tail[1..] == Join("\n", rows);
    }
    assert HeaderLine() + "" == HeaderLine();
  }

  /**
   When no record value holds a newline, the export has exactly one line more than
   there are records: the header, then each record's line in collection order.
   */
  lemma TextLines(rs: seq<BeneficiaryRecord>, formatTime: int -> string)
    requires forall k :: 0 <= k < |rs| ==> SingleLine(rs[k], formatTime)
    ensures SplitOn('\n', Text(rs, formatTime)) == Lines(rs, formatTime)
    ensures |SplitOn('\n', Text(rs, formatTime))| == |rs| + 1
    ensures forall k :: 0 <= k < |rs| ==> SplitOn('\n', Text(rs, formatTime))[k + 1] == Row(rs[k], formatTime)
  {
    var ls := Lines(rs, formatTime);
    LinesShape(rs, formatTime);
    LinesSingleLine(rs, formatTime);
    SplitOnJoin('\n', ls);
  }

  lemma LinesShape(rs: seq<BeneficiaryRecord>, formatTime: int -> string)
    ensures |Lines(rs, formatTime)| == |rs| + 1 && Lines(rs, formatTime)[0] == HeaderLine()
    ensures forall k :: 0 <= k < |rs| ==> Lines(rs, formatTime)[k + 1] == Row(rs[k], formatTime)
  {
    ConsIndex(HeaderLine(), Rows(rs, formatTime));
  }

  lemma ConsIndex(h: string, rows: seq<string>)
    ensures forall k :: 0 <= k < |rows| ==> ([h] + rows)[k + 1] == rows[k]
  {
  }

  lemma LinesSingleLine(rs: seq<BeneficiaryRecord>, formatTime: int -> string)
    requires forall k :: 0 <= k < |rs| ==> SingleLine(rs[k], formatTime)
    ensures forall k :: 0 <= k < |Lines(rs, formatTime)| ==> '\n' !in Lines(rs, formatTime)[k]
  {
    var ls := Lines(rs, formatTime);
    LinesShape(rs, formatTime);
    HeaderLineSingleLine();
    forall k | 0 <= k < |ls| ensures '\n' !in ls[k] {
      if k > 0 { RowSingleLine(rs[k - 1], formatTime); }
    }
  }
}
