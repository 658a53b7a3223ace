/** PHP's fputcsv with its default arguments (delimiter ',', enclosure '"',
    escape character '\', end of line "\n"), and a reader for the records it
    writes. */
module Csv {

  /** A character that makes fputcsv enclose the field in double quotes. */
  predicate ForcesEnclosure(c: char)
  {
    c == ',' || c == '"' || c == '\\' || c == '\n' || c == '\r' || c == '\t' || c == ' '
  }

  predicate NeedsEnclosure(f: string)
  {
    exists i :: 0 <= i < |f| && ForcesEnclosure(f[i])
  }

  predicate NoEscapeChar(f: string)
  {
    forall i :: 0 <= i < |f| ==> f[i] != '\\'
  }

  /** The inside of an enclosed field: a double quote is doubled unless it
      directly follows the escape character '\'. */
  function EscapeBody(f: string, escaped: bool): (r: string)
    ensures |r| >= |f|
  {
    if f == [] then []
    else if f[0] == '\\' then ['\\'] + EscapeBody(f[1..], true)
    else if !escaped && f[0] == '"' then ['"', '"'] + EscapeBody(f[1..], false)
    else [f[0]] + EscapeBody(f[1..], false)
  }

  /** One field as fputcsv writes it. */
  function Field(f: string): string
  {
    if NeedsEnclosure(f) then ['"'] + EscapeBody(f, false) + ['"'] else f
  }

  /** The fields of one record, each written by Field, separated by ','. */
  function JoinFields(fs: seq<string>): string
  {
    if fs == [] then []
    else if |fs| == 1 then Field(fs[0])
    else Field(fs[0]) + [','] + JoinFields(fs[1..])
  }

  /** One call of fputcsv: the record and its line terminator. */
  function Record(fs: seq<string>): (line: string)
    ensures |line| > 0 && line[|line| - 1] == '\n'
  {
    JoinFields(fs) + ['\n']
  }

  /** The text of a stream after one fputcsv call per record, in order. */
  function Document(rs: seq<seq<string>>): string
  {
    if rs == [] then [] else Record(rs[0]) + Document(rs[1..])
  }

  lemma {:induction false} DocumentAppend(rs: seq<seq<string>>, r: seq<string>)
    ensures Document(rs + [r]) == Document(rs) + Record(r)
  {
    if rs == [] {
      assert rs + [r] == [r];
    } else {
      assert (rs + [r])[1..] == rs[1..] + [r];
      DocumentAppend(rs[1..], r);
    }
  }

  /** Without an escape character in the field, every double quote is doubled. */
  lemma {:induction false} EscapeBodyDoublesQuotes(f: string)
    requires NoEscapeChar(f)
    ensures EscapeBody(f, false) == DoubleQuotes(f)
  {
    if f != [] {
      EscapeBodyDoublesQuotes(f[1..]);
    }
  }

  /** The standard escaping of section 2 of RFC 4180: each '"' becomes '""'. */
  function DoubleQuotes(f: string): string
  {
    if f == [] then []
    else if f[0] == '"' then ['"', '"'] + DoubleQuotes(f[1..])
    else [f[0]] + DoubleQuotes(f[1..])
  }

  /** A field with a delimiter, quote, escape character, space, tab, CR or LF
      is written between double quotes with its quotes doubled; any other
      field is written as it is. */
  lemma FieldShape(f: string)
    requires NoEscapeChar(f)
    ensures NeedsEnclosure(f) ==> Field(f) == ['"'] + DoubleQuotes(f) + ['"']
    ensures !NeedsEnclosure(f) ==> Field(f) == f
  {
    EscapeBodyDoublesQuotes(f);
  }

  // ---------------------------------------------------------------------
  // Reading back what fputcsv writes

  /** An unenclosed field runs up to the next ',' or end of line. */
  function ReadBare(s: string): (r: (string, string))
    ensures |r.1| <= |s|
  {
    if s == [] || s[0] == ',' || s[0] == '\n' then ([], s)
    else
      var (f, rest) := ReadBare(s[1..]);
      ([s[0]] + f, rest)
  }

  /** The inside of an enclosed field, after its opening quote: '""' stands for
      '"', and a lone '"' closes the field. */
  function ReadEnclosed(s: string): (r: (string, string))
    ensures |r.1| <= |s|
    ensures s != [] ==> |r.1| < |s|
  {
    if s == [] then ([], [])
    else if s[0] == '"' then
      if |s| > 1 && s[1] == '"' then
        var (f, rest) := ReadEnclosed(s[2..]);
        (['"'] + f, rest)
      else ([], s[1..])
    else
      var (f, rest) := ReadEnclosed(s[1..]);
      ([s[0]] + f, rest)
  }

  function ReadField(s: string): (r: (string, string))
    ensures |r.1| <= |s|
  {
    if s != [] && s[0] == '"' then ReadEnclosed(s[1..]) else ReadBare(s)
  }

  /** Reads one record up to and including its end of line. */
  function ReadRecord(s: string): (r: (seq<string>, string))
    ensures |r.1| <= |s|
    ensures s != [] ==> |r.1| < |s|
    decreases |s|
  {
    var (f, rest) := ReadField(s);
    if rest == [] then ([f], [])
    else if rest[0] == ',' then
      var (fs, rest') := ReadRecord(rest[1..]);
      ([f] + fs, rest')
    else ([f], rest[1..])
  }

  /** Splits a whole text into its records. */
  function Parse(s: string): seq<seq<string>>
    decreases |s|
  {
    if s == [] then []
    else
      var (fs, rest) := ReadRecord(s);
      [fs] + Parse(rest)
  }

  /** The text after a field: nothing, or a field or record separator. */
  predicate AtSeparator(t: string)
  {
    t == [] || t[0] == ',' || t[0] == '\n'
  }

  lemma {:induction false} ReadBareField(f: string, t: string)
    requires forall i :: 0 <= i < |f| ==> f[i] != ',' && f[i] != '\n'
    requires AtSeparator(t)
    ensures ReadBare(f + t) == (f, t)
  {
    if f == [] {
      assert f + t == t;
    } else {
      assert (f + t)[0] == f[0];
      assert (f + t)[1..] == f[1..] + t;
      assert forall i :: 0 <= i < |f[1..]| ==> f[1..][i] == f[i + 1];
      ReadBareField(f[1..], t);
      assert [f[0]] + f[1..] == f;
    }
  }

  lemma {:induction false} ReadEnclosedField(f: string, t: string)
    requires NoEscapeChar(f)
    requires t == [] || t[0] != '"'
    ensures ReadEnclosed(DoubleQuotes(f) + ['"'] + t) == (f, t)
  {
    var s := DoubleQuotes(f) + ['"'] + t;
    if f == [] {
      assert s == ['"'] + t;
      assert s[1..] == t;
    } else {
      assert NoEscapeChar(f[1..]) by {
        assert forall i :: 0 <= i < |f[1..]| ==> f[1..][i] == f[i + 1];
      }
      ReadEnclosedField(f[1..], t);
      assert [f[0]] + f[1..] == f;
      if f[0] == '"' {
        assert s == ['"', '"'] + (DoubleQuotes(f[1..]) + ['"'] + t);
        assert s[2..] == DoubleQuotes(f[1..]) + ['"'] + t;
      } else {
        assert s == [f[0]] + (DoubleQuotes(f[1..]) + ['"'] + t);
        assert s[1..] == DoubleQuotes(f[1..]) + ['"'] + t;
      }
    }
  }

  lemma ReadWrittenEnclosedField(f: string, t: string)
    requires NoEscapeChar(f) && NeedsEnclosure(f)
    requires AtSeparator(t)
    ensures ReadField(Field(f) + t) == (f, t)
  {
    EscapeBodyDoublesQuotes(f);
    var s := Field(f) + t;
    assert s == ['"'] + (DoubleQuotes(f) + ['"'] + t);
    ReadEnclosedField(f, t);
  }

  lemma ReadWrittenBareField(f: string, t: string)
    requires !NeedsEnclosure(f)
    requires AtSeparator(t)
    ensures ReadField(Field(f) + t) == (f, t)
  {
    assert Field(f) == f;
    assert forall i :: 0 <= i < |f| ==> !ForcesEnclosure(f[i]);
    ReadBareField(f, t);
    if f == [] {
      assert f + t == t;
    } else {
      assert (f + t)[0] == f[0];
    }
  }

  /** Reading a written field gives the field back and stops at the separator. */
  lemma ReadWrittenField(f: string, t: string)
    requires NoEscapeChar(f)
    requires AtSeparator(t)
    ensures ReadField(Field(f) + t) == (f, t)
  {
    if NeedsEnclosure(f) {
      ReadWrittenEnclosedField(f, t);
    } else {
      ReadWrittenBareField(f, t);
    }
  }

  predicate WritableFields(fs: seq<string>)
  {
    forall i :: 0 <= i < |fs| ==> NoEscapeChar(fs[i])
  }

  lemma {:induction false} ReadWrittenRecord(fs: seq<string>, t: string)
    requires |fs| > 0 && WritableFields(fs)
    ensures ReadRecord(Record(fs) + t) == (fs, t)
  {
    var s := Record(fs) + t;
    if |fs| == 1 {
      assert s == Field(fs[0]) + (['\n'] + t);
      ReadWrittenField(fs[0], ['\n'] + t);
      assert (['\n'] + t)[1..] == t;
      assert [fs[0]] == fs;
    } else {
      var more := JoinFields(fs[1..]) + ['\n'] + t;
      assert s == Field(fs[0]) + ([','] + more);
      ReadWrittenField(fs[0], [','] + more);
      assert ([','] + more)[1..] == more;
      assert more == Record(fs[1..]) + t;
      ReadWrittenRecord(fs[1..], t);
      assert [fs[0]] + fs[1..] == fs;
    }
  }

  /** Every record has at least one field, and no field holds the escape
      character. */
  predicate Writable(rs: seq<seq<string>>)
  {
    forall j :: 0 <= j < |rs| ==> |rs[j]| > 0 && WritableFields(rs[j])
  }

  /** Reading back the text fputcsv wrote gives the records that were written. */
  lemma {:induction false} ParseDocument(rs: seq<seq<string>>)
    requires Writable(rs)
    ensures Parse(Document(rs)) == rs
  {
    if rs != [] {
      ReadWrittenRecord(rs[0], Document(rs[1..]));
      assert Writable(rs[1..]) by {
        forall j | 0 <= j < |rs[1..]| ensures |rs[1..][j]| > 0 && WritableFields(rs[1..][j]) {
          assert rs[1..][j] == rs[j + 1];
        }
      }
      ParseDocument(rs[1..]);
    }
  }

  /** The escape character breaks the round trip: the field `\"` is written as
      `"\""`, whose quote is not doubled; read back, the two quotes stand for
      one quote and the end of line becomes part of the field. */
  lemma EscapeCharNotInverted()
    ensures Field("\\\"") == "\"\\\"\""
    ensures Parse(Document([["\\\""]])) == [["\\\"\n"]]
  {
    var f: string := "\\\"";
    assert NeedsEnclosure(f) by { assert ForcesEnclosure(f[0]); }
    assert EscapeBody(f[1..], true) == f[1..];
    assert EscapeBody(f, false) == f;
    assert Field(f) == "\"\\\"\"";
    assert JoinFields([f]) == Field(f);
    var rs: seq<seq<string>> := [[f]];
    var none: seq<seq<string>> := [];
    assert rs[1..] == none && Document(none) == [];
    var doc := Document(rs);
    assert doc == Record([f]);
    assert doc == "\"\\\"\"\n";
    // Reading back: the escape character, then '""' as one quote, then the end of line.
    var eol: string := "\n";
    assert eol[1..] == [];
    assert ReadEnclosed(eol).0 == eol && ReadEnclosed(eol).1 == [];
    var quotes: string := "\"\"\n";
    assert quotes[2..] == eol;
    assert ReadEnclosed(quotes).0 == "\"\n" && ReadEnclosed(quotes).1 == [];
    assert doc[1..][1..] == quotes;
    assert ReadEnclosed(doc[1..]).0 == "\\\"\n" && ReadEnclosed(doc[1..]).1 == [];
    assert ReadRecord(doc) == ([ "\\\"\n" ], []);
  }
}
