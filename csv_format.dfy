/** The converter's field escaping (`Csv`) for its ';'-separated output, and
    a reader for such rows that the escaping is proved against. */
module CsvFormat {
  import opened Wrappers
  import opened Text

  /** The characters that force a field to be quoted: the separator ';',
      the comma, the double quote and the line-break characters. */
  predicate MustQuote(c: char) {
    c == ';' || c == ',' || c == '"' || c == '\n' || c == '\r'
  }

  predicate NeedsQuotes(s: string) {
    exists i :: 0 <= i < |s| && MustQuote(s[i])
  }

  /** `s.Replace("\"", "\"\"")`. */
  function DoubleQuotes(s: string): (r: string)
    ensures |r| >= |s|
    ensures Excludes(s, '"') ==> r == s
    decreases |s|
  {
    if s == [] then []
    else (if s[0] == '"' then "\"\"" else [s[0]]) + DoubleQuotes(s[1..])
  }

  /** `Csv`: a null field is written empty, a field holding one of the
      quote-forcing characters is written between double quotes with each
      inner quote doubled, and any other field is written as it is. */
  function Csv(field: Option<string>): (r: string)
    ensures field.None? ==> r == ""
    ensures field.Some? && !NeedsQuotes(field.value) ==> r == field.value
    ensures field.Some? && NeedsQuotes(field.value) ==>
              |r| >= 2 && r[0] == '"' && r[|r| - 1] == '"' && |r| > |field.value|
  {
    match field
    case None => ""
    case Some(s) => if NeedsQuotes(s) then "\"" + DoubleQuotes(s) + "\"" else s
  }

  // ----- Reading rows back -----

  /** The rest of a quoted field after its opening quote: a doubled quote
      stands for one quote, and a single quote closes the field. Returns
      the field and what follows the closing quote; `None` when the quote is
      never closed. */
  function ReadQuoted(s: string): (r: Option<(string, string)>)
    ensures r.Some? ==> |r.value.1| < |s|
    decreases |s|
  {
    if s == [] then None
    else if s[0] == '"' then
      if |s| >= 2 && s[1] == '"' then
        match ReadQuoted(s[2..])
        case None => None
        case Some(fr) => Some(("\"" + fr.0, fr.1))
      else Some(("", s[1..]))
    else
      match ReadQuoted(s[1..])
      case None => None
      case Some(fr) => Some(([s[0]] + fr.0, fr.1))
  }

  /** An unquoted field runs to the next ';' or to the end. */
  function ReadUnquoted(s: string): (r: (string, string))
    ensures |r.1| <= |s| && (r.1 == [] || r.1[0] == ';')
    decreases |s|
  {
    if s == [] || s[0] == ';' then ("", s)
    else
      var fr := ReadUnquoted(s[1..]);
      ([s[0]] + fr.0, fr.1)
  }

  /** One field at the front of `s`, and what follows it. */
  function ReadField(s: string): (r: Option<(string, string)>)
    ensures r.Some? ==> |r.value.1| <= |s|
  {
    if s != [] && s[0] == '"' then ReadQuoted(s[1..]) else Some(ReadUnquoted(s))
  }

  /** A whole ';'-separated row; `None` when a quoted field is not closed or
      is followed by something other than ';'. */
  function ReadRow(s: string): (r: Option<seq<string>>)
    ensures r.Some? ==> |r.value| >= 1
    decreases |s|
  {
    match ReadField(s)
    case None => None
    case Some(fr) =>
      if fr.1 == [] then Some([fr.0])
      else if fr.1[0] == ';' then
        match ReadRow(fr.1[1..])
        case None => None
        case Some(fs) => Some([fr.0] + fs)
      else None
  }

  /** Every field through `Csv`, in order. */
  function EscapeAll(fields: seq<string>): (r: seq<string>)
    ensures |r| == |fields| && forall k :: 0 <= k < |fields| ==> r[k] == Csv(Some(fields[k]))
    decreases |fields|
  {
    if fields == [] then [] else [Csv(Some(fields[0]))] + EscapeAll(fields[1..])
  }

  /** The written row: the escaped fields joined with ';'. */
  function WriteRow(fields: seq<string>): (line: string) {
    Join(EscapeAll(fields), ";")
  }

  /** The body of a quoted field reads back as the original text, whatever
      follows it, provided it does not start with a quote. */
  lemma {:induction false} ReadQuotedOf(f: string, tail: string)
    requires tail == [] || tail[0] != '"'
    ensures ReadQuoted(DoubleQuotes(f) + "\"" + tail) == Some((f, tail))
    decreases |f|
  {
    var s := DoubleQuotes(f) + "\"" + tail;
    if f == [] {
      assert s == "\"" + tail;
      assert s[1..] == tail;
    } else {
      ReadQuotedOf(f[1..], tail);
      var inner := DoubleQuotes(f[1..]) + "\"" + tail;
      if f[0] == '"' {
        assert s == "\"\"" + inner;
        assert s[2..] == inner;
        assert "\"" + f[1..] == f;
      } else {
        assert s == [f[0]] + inner;
        assert s[1..] == inner;
        assert [f[0]] + f[1..] == f;
      }
    }
  }

  /** Text without ';' reads as one unquoted field up to the separator or the end. */
  lemma {:induction false} ReadUnquotedOf(f: string, tail: string)
    requires Excludes(f, ';') && (tail == [] || tail[0] == ';')
    ensures ReadUnquoted(f + tail) == (f, tail)
    decreases |f|
  {
    if f == [] {
      assert f + tail == tail;
    } else {
      assert (f + tail)[1..] == f[1..] + tail;
      ReadUnquotedOf(f[1..], tail);
      assert [f[0]] + f[1..] == f;
    }
  }

  /** Every escaped field reads back as the original text, and reading
      stops at the separator that follows it. */
  lemma ReadFieldOf(f: string, tail: string)
    requires tail == [] || tail[0] == ';'
    ensures ReadField(Csv(Some(f)) + tail) == Some((f, tail))
  {
    if NeedsQuotes(f) {
      ReadQuotedFieldOf(f, tail);
    } else {
      ReadPlainFieldOf(f, tail);
    }
  }

  lemma ReadQuotedFieldOf(f: string, tail: string)
    requires NeedsQuotes(f) && (tail == [] || tail[0] == ';')
    ensures ReadField(Csv(Some(f)) + tail) == Some((f, tail))
  {
    var q := DoubleQuotes(f) + "\"" + tail;
    var s := Csv(Some(f)) + tail;
    assert s == "\"" + q;
    assert s[0] == '"' && s[1..] == q;
    ReadQuotedOf(f, tail);
  }

  lemma ReadPlainFieldOf(f: string, tail: string)
    requires !NeedsQuotes(f) && (tail == [] || tail[0] == ';')
    ensures ReadField(Csv(Some(f)) + tail) == Some((f, tail))
  {
    assert f != [] ==> f[0] != '"';
    assert Excludes(f, ';');
    ReadUnquotedOf(f, tail);
  }

  /** Writing a row and reading it back gives the fields written. */
  lemma {:induction false} ReadWriteRow(fields: seq<string>)
    requires fields != []
    ensures ReadRow(WriteRow(fields)) == Some(fields)
    decreases |fields|
  {
    var first := Csv(Some(fields[0]));
    if |fields| == 1 {
      ReadFieldOf(fields[0], []);
      assert WriteRow(fields) == first;
      assert first + [] == first;
      assert fields == [fields[0]];
    } else {
      var rest := WriteRow(fields[1..]);
      assert WriteRow(fields) == first + (";" + rest);
      ReadFieldOf(fields[0], ";" + rest);
      assert (";" + rest)[1..] == rest;
      ReadWriteRow(fields[1..]);
      assert [fields[0]] + fields[1..] == fields;
    }
  }

  /** The documented example: `a;b"c` is written as `"a;b""c"`, which reads back as `a;b"c`. */
  lemma QuotedExample(f: string)
    requires f == "a;b\"c"
    ensures Csv(Some(f)) == "\"a;b\"\"c\""
    ensures ReadField(Csv(Some(f))) == Some((f, ""))
  {
    assert MustQuote(f[1]);
    assert f == "a;b" + "\"" + "c";
    assert DoubleQuotes("c") == "c";
    assert DoubleQuotes("\"c") == "\"\"c";
    assert DoubleQuotes("b\"c") == "b\"\"c";
    assert DoubleQuotes(";b\"c") == ";b\"\"c";
    assert DoubleQuotes(f) == "a;b\"\"c";
    ReadFieldOf(f, "");
    assert Csv(Some(f)) + "" == Csv(Some(f));
  }
}
