/** array_to_csv (index.php): a decoded response becomes a list of rows, the
    union of their keys becomes the header, and every row becomes one CSV
    record in header order. */
module CsvExport {
  import opened PhpValues
  import opened Sequences
  import Csv

  // ---------------------------------------------------------------------
  // Rows

  /** array_to_csv iterates the elements of a list as arrays; the model
      requires them to be arrays (a scalar element is not given a row of
      its own). */
  predicate RowsAreArrays(arr: Value)
  {
    arr.Arr? && !IsAssoc(arr) ==> forall i :: 0 <= i < |arr.entries| ==> arr.entries[i].val.Arr?
  }

  function ListRows(es: seq<Entry>): (rows: seq<seq<Entry>>)
    requires forall i :: 0 <= i < |es| ==> es[i].val.Arr?
    ensures |rows| == |es|
    ensures forall i :: 0 <= i < |es| ==> rows[i] == es[i].val.entries
  {
    seq(|es|, i requires 0 <= i < |es| && es[i].val.Arr? => es[i].val.entries)
  }

  /** The row that stands for a scalar: {"value": json_encode(v)}. */
  function ScalarRow(v: Value, jsonEncode: Value -> string): seq<Entry>
  {
    [Entry(StrKey("value"), Str(jsonEncode(v)))]
  }

  /** `$rows`: the array itself when associative, its elements when a list,
      and a single wrapped row for anything else. */
  function Rows(arr: Value, jsonEncode: Value -> string): seq<seq<Entry>>
    requires RowsAreArrays(arr)
  {
    if IsAssoc(arr) then [arr.entries]
    else if arr.Arr? then ListRows(arr.entries)
    else [ScalarRow(arr, jsonEncode)]
  }

  /** There is always at least one row: an array that is empty or not keyed
      0..count-1 is one row, a non-empty list keyed 0..count-1 has one row per
      element, and a scalar is one row holding its JSON text under "value". */
  lemma RowsShape(arr: Value, jsonEncode: Value -> string)
    requires RowsAreArrays(arr)
    ensures |Rows(arr, jsonEncode)| >= 1
    ensures arr.Arr? && (arr.entries == [] || !KeyedAsList(arr.entries)) ==> Rows(arr, jsonEncode) == [arr.entries]
    ensures arr.Arr? && arr.entries == [] ==> Rows(arr, jsonEncode) == [[]]
    ensures arr.Arr? && arr.entries != [] && KeyedAsList(arr.entries) ==>
      |Rows(arr, jsonEncode)| == |arr.entries| &&
      forall i :: 0 <= i < |arr.entries| ==> Rows(arr, jsonEncode)[i] == arr.entries[i].val.entries
    ensures !arr.Arr? ==> Rows(arr, jsonEncode) == [[Entry(StrKey("value"), Str(jsonEncode(arr)))]]
  {
    IsAssocIff(arr);
  }

  // ---------------------------------------------------------------------
  // Columns: keys in first-seen order

  /** Every key of every row, rows in order and each row in its own order. */
  function AllKeys(rows: seq<seq<Entry>>): seq<Key>
  {
    if rows == [] then [] else AllKeys(rows[..|rows| - 1]) + KeysOf(rows[|rows| - 1])
  }

  /** The header of array_to_csv. */
  function Columns(rows: seq<seq<Entry>>): seq<Key>
  {
    FirstSeen(AllKeys(rows))
  }

  lemma {:induction false} AllKeysMembers(rows: seq<seq<Entry>>, k: Key)
    ensures k in AllKeys(rows) <==> exists j, i :: 0 <= j < |rows| && 0 <= i < |rows[j]| && rows[j][i].key == k
  {
    if rows != [] {
      var init := rows[..|rows| - 1];
      AllKeysMembers(init, k);
      var last := rows[|rows| - 1];
      if k in KeysOf(last) {
        var i :| 0 <= i < |last| && KeysOf(last)[i] == k;
        assert rows[|rows| - 1][i].key == k;
      }
      if exists j, i :: 0 <= j < |rows| && 0 <= i < |rows[j]| && rows[j][i].key == k {
        var j, i :| 0 <= j < |rows| && 0 <= i < |rows[j]| && rows[j][i].key == k;
        if j < |rows| - 1 {
          assert init[j][i].key == k;
        } else {
          assert KeysOf(last)[i] == k;
        }
      }
    }
  }

  /** The header holds every key of every row, nothing else, each exactly
      once, in the order in which the keys are first met. */
  lemma ColumnsSpec(rows: seq<seq<Entry>>)
    ensures forall j, i :: 0 <= j < |rows| && 0 <= i < |rows[j]| ==> rows[j][i].key in Columns(rows)
    ensures forall k :: k in Columns(rows) ==>
      exists j, i :: 0 <= j < |rows| && 0 <= i < |rows[j]| && rows[j][i].key == k
    ensures forall p, q :: 0 <= p < q < |Columns(rows)| ==> Columns(rows)[p] != Columns(rows)[q]
    ensures forall p, q :: 0 <= p < q < |Columns(rows)| ==>
      Columns(rows)[p] in AllKeys(rows) && Columns(rows)[q] in AllKeys(rows) &&
      IndexOf(AllKeys(rows), Columns(rows)[p]) < IndexOf(AllKeys(rows), Columns(rows)[q])
  {
    var s := AllKeys(rows);
    FirstSeenSpec(s);
    assert Columns(rows) == FirstSeen(s);
    forall j, i | 0 <= j < |rows| && 0 <= i < |rows[j]| ensures rows[j][i].key in Columns(rows) {
      AllKeysMembers(rows, rows[j][i].key);
    }
    forall k | k in Columns(rows)
      ensures exists j, i :: 0 <= j < |rows| && 0 <= i < |rows[j]| && rows[j][i].key == k
    {
      AllKeysMembers(rows, k);
    }
  }

  lemma AllKeysSnoc(rows: seq<seq<Entry>>, j: nat)
    requires j < |rows|
    ensures AllKeys(rows[..j + 1]) == AllKeys(rows[..j]) + KeysOf(rows[j])
  {
    assert rows[..j + 1][..j] == rows[..j];
  }

  /** Appending one more row keeps the columns already found and their order. */
  lemma ColumnsStable(rows: seq<seq<Entry>>, row: seq<Entry>)
    ensures |Columns(rows)| <= |Columns(rows + [row])|
    ensures Columns(rows + [row])[..|Columns(rows)|] == Columns(rows)
  {
    assert (rows + [row])[..|rows|] == rows;
    FirstSeenPrefix(AllKeys(rows), KeysOf(row));
  }

  // ---------------------------------------------------------------------
  // Records

  /** The string fputcsv makes of a field value: true is "1", false and null
      are "", an array is "Array". */
  function FieldText(v: Value): string
  {
    match v
    case Null => ""
    case Bool(b) => if b then "1" else ""
    case Int(i) => IntToString(i)
    case Str(s) => s
    case Arr(_) => "Array"
  }

  function KeyText(k: Key): string
  {
    match k
    case IntKey(i) => IntToString(i)
    case StrKey(s) => s
  }

  /** `$r[$k] ?? ''`, as text: a missing key and a null value give "". */
  function Cell(row: seq<Entry>, k: Key): string
  {
    match Lookup(row, k)
    case None => ""
    case Some(v) => if v.Null? then "" else FieldText(v)
  }

  function HeaderRecord(keys: seq<Key>): (r: seq<string>)
    ensures |r| == |keys|
    ensures forall i :: 0 <= i < |keys| ==> r[i] == KeyText(keys[i])
  {
    seq(|keys|, i requires 0 <= i < |keys| => KeyText(keys[i]))
  }

  function DataRecord(row: seq<Entry>, keys: seq<Key>): (r: seq<string>)
    ensures |r| == |keys|
    ensures forall i :: 0 <= i < |keys| ==> r[i] == Cell(row, keys[i])
  {
    seq(|keys|, i requires 0 <= i < |keys| => Cell(row, keys[i]))
  }

  function DataRecords(rows: seq<seq<Entry>>, keys: seq<Key>): (rs: seq<seq<string>>)
    ensures |rs| == |rows|
    ensures forall j :: 0 <= j < |rows| ==> rs[j] == DataRecord(rows[j], keys)
  {
    seq(|rows|, j requires 0 <= j < |rows| => DataRecord(rows[j], keys))
  }

  /** The records written: the header, then one record per row. */
  function Records(rows: seq<seq<Entry>>): seq<seq<string>>
  {
    [HeaderRecord(Columns(rows))] + DataRecords(rows, Columns(rows))
  }

  /** The text array_to_csv returns. */
  function CsvText(arr: Value, jsonEncode: Value -> string): string
    requires RowsAreArrays(arr)
  {
    Csv.Document(Records(Rows(arr, jsonEncode)))
  }

  /** The nested loops of array_to_csv that collect `$keys`. */
  method CollectKeys(rows: seq<seq<Entry>>) returns (keys: seq<Key>)
    ensures keys == Columns(rows)
  {
    keys := [];
    var j := 0;
    while j < |rows|
      invariant 0 <= j <= |rows|
      invariant keys == FirstSeen(AllKeys(rows[..j]))
    {
      var r := rows[j];
      var i := 0;
      assert AllKeys(rows[..j]) + KeysOf(r[..0]) == AllKeys(rows[..j]);
      while i < |r|
        invariant 0 <= i <= |r|
        invariant keys == FirstSeen(AllKeys(rows[..j]) + KeysOf(r[..i]))
      {
        ghost var before := AllKeys(rows[..j]) + KeysOf(r[..i]);
        assert AllKeys(rows[..j]) + KeysOf(r[..i + 1]) == before + [r[i].key] by {
          assert KeysOf(r[..i + 1]) == KeysOf(r[..i]) + [r[i].key];
        }
        FirstSeenSnoc(before, r[i].key);
        if r[i].key !in keys {
          keys := keys + [r[i].key];
        }
        i := i + 1;
      }
      assert r[..|r|] == r;
      AllKeysSnoc(rows, j);
      j := j + 1;
    }
    assert rows[..|rows|] == rows;
  }

  /** `$row[] = $r[$k] ?? ''` for every header key, in header order. */
  method BuildRow(r: seq<Entry>, keys: seq<Key>) returns (row: seq<string>)
    ensures row == DataRecord(r, keys)
  {
    row := [];
    var i := 0;
    while i < |keys|
      invariant 0 <= i <= |keys|
      invariant row == DataRecord(r, keys[..i])
    {
      assert keys[..i + 1][..i] == keys[..i];
      row := row + [Cell(r, keys[i])];
      i := i + 1;
    }
    assert keys[..|keys|] == keys;
  }

  /** The fputcsv calls of array_to_csv: the header, then one record per row. */
  method WriteRecords(rows: seq<seq<Entry>>, keys: seq<Key>) returns (csv: string)
    ensures csv == Csv.Document([HeaderRecord(keys)] + DataRecords(rows, keys))
  {
    var header := HeaderRecord(keys);
    csv := Csv.Record(header);
    ghost var none: seq<seq<string>> := [];
    assert Csv.Document([header] + DataRecords(rows[..0], keys)) == csv by {
      assert [header] + DataRecords(rows[..0], keys) == [header];
      assert [header][1..] == none;
    }
    var j := 0;
    while j < |rows|
      invariant 0 <= j <= |rows|
      invariant csv == Csv.Document([header] + DataRecords(rows[..j], keys))
    {
      var row := BuildRow(rows[j], keys);
      ghost var done := [header] + DataRecords(rows[..j], keys);
      assert [header] + DataRecords(rows[..j + 1], keys) == done + [row];
      Csv.DocumentAppend(done, row);
      csv := csv + Csv.Record(row);
      j := j + 1;
    }
    assert rows[..|rows|] == rows;
  }

  /** array_to_csv, with fputcsv defaults; the php://memory stream is the
      string being appended to. */
  method ArrayToCsv(arr: Value, jsonEncode: Value -> string) returns (csv: string)
    requires RowsAreArrays(arr)
    ensures csv == CsvText(arr, jsonEncode)
  {
    var rows := Rows(arr, jsonEncode);
    var keys := CollectKeys(rows);
    csv := WriteRecords(rows, keys);
  }

  // ---------------------------------------------------------------------
  // What the written text holds

  /** No key and no value of any row, as text, holds fputcsv's escape character. */
  predicate FreeOfEscapeChar(rows: seq<seq<Entry>>)
  {
    forall j, i :: 0 <= j < |rows| && 0 <= i < |rows[j]| ==>
      Csv.NoEscapeChar(KeyText(rows[j][i].key)) && Csv.NoEscapeChar(FieldText(rows[j][i].val))
  }

  lemma CellFreeOfEscapeChar(row: seq<Entry>, k: Key)
    requires forall i :: 0 <= i < |row| ==> Csv.NoEscapeChar(FieldText(row[i].val))
    ensures Csv.NoEscapeChar(Cell(row, k))
  {
    var found := Lookup(row, k);
    if found.Some? && !found.value.Null? {
      var i :| 0 <= i < |row| && row[i].key == k && row[i].val == found.value;
      assert Cell(row, k) == FieldText(row[i].val);
    }
  }

  lemma HeaderWritable(rows: seq<seq<Entry>>)
    requires FreeOfEscapeChar(rows)
    ensures Csv.WritableFields(HeaderRecord(Columns(rows)))
  {
    var cols := Columns(rows);
    ColumnsSpec(rows);
    forall p | 0 <= p < |cols| ensures Csv.NoEscapeChar(HeaderRecord(cols)[p]) {
      assert cols[p] in cols;
      var j, i :| 0 <= j < |rows| && 0 <= i < |rows[j]| && rows[j][i].key == cols[p];
    }
  }

  lemma DataRecordWritable(row: seq<Entry>, keys: seq<Key>)
    requires forall i :: 0 <= i < |row| ==> Csv.NoEscapeChar(FieldText(row[i].val))
    ensures Csv.WritableFields(DataRecord(row, keys))
  {
    forall p | 0 <= p < |keys| ensures Csv.NoEscapeChar(DataRecord(row, keys)[p]) {
      CellFreeOfEscapeChar(row, keys[p]);
    }
  }

  lemma RecordsWritable(rows: seq<seq<Entry>>)
    requires FreeOfEscapeChar(rows)
    requires |Columns(rows)| > 0
    ensures Csv.Writable(Records(rows))
  {
    var cols := Columns(rows);
    var recs := Records(rows);
    HeaderWritable(rows);
    forall n | 0 <= n < |recs| ensures |recs[n]| > 0 && Csv.WritableFields(recs[n]) {
      if n > 0 {
        assert recs[n] == DataRecord(rows[n - 1], cols);
        DataRecordWritable(rows[n - 1], cols);
      }
    }
  }

  /** Reading back the text array_to_csv returns gives one header record and
      one record per row; every record has one field per column, and field i
      of the record for a row is that row's value under column i, with a
      missing key or a null value read as the empty string. Both conditions
      are needed: with no column at all every record is an empty line, and
      the escape character suppresses the doubling of a following quote. */
  lemma CsvReadsBack(arr: Value, jsonEncode: Value -> string)
    requires RowsAreArrays(arr)
    requires FreeOfEscapeChar(Rows(arr, jsonEncode))
    requires |Columns(Rows(arr, jsonEncode))| > 0
    ensures var rows := Rows(arr, jsonEncode);
            var cols := Columns(rows);
            var recs := Csv.Parse(CsvText(arr, jsonEncode));
            && |recs| == |rows| + 1
            && |recs[0]| == |cols|
            && (forall i :: 0 <= i < |cols| ==> recs[0][i] == KeyText(cols[i]))
            && (forall j :: 1 <= j < |recs| ==> |recs[j]| == |recs[0]|)
            && (forall j, i :: 0 <= j < |rows| && 0 <= i < |cols| ==>
                  recs[j + 1][i] == (match Lookup(rows[j], cols[i])
                                     case None => ""
                                     case Some(v) => if v.Null? then "" else FieldText(v)))
  {
    var rows := Rows(arr, jsonEncode);
    RecordsWritable(rows);
    Csv.ParseDocument(Records(rows));
  }

  /** The empty array is associative, so it gives one row with no keys: an
      empty header line and one empty data line. */
  lemma EmptyArrayCsv(jsonEncode: Value -> string)
    ensures RowsAreArrays(Arr([]))
    ensures CsvText(Arr([]), jsonEncode) == "\n\n"
  {
    IsAssocIff(Arr([]));
    var rows := Rows(Arr([]), jsonEncode);
    assert rows == [[]];
    var none: seq<Key> := [];
    assert AllKeys(rows) == none by {
      assert rows[..0] == [];
    }
    assert Columns(rows) == none;
    var recs := Records(rows);
    var blank: seq<string> := [];
    assert recs == [blank, blank];
    assert Csv.Record(blank) == "\n";
    var tail: seq<seq<string>> := [blank];
    var out: seq<seq<string>> := [];
    assert recs[1..] == tail && tail[1..] == out;
    assert Csv.Document(out) == [];
    assert Csv.Document(tail) == "\n";
    assert Csv.Document(recs) == "\n" + "\n";
  }

  // Two records with different keys: {"name":"A","mobile":"1"} and {"name":"B","circle":"X"}.
  const RecordA: seq<Entry> := [Entry(StrKey("name"), Str("A")), Entry(StrKey("mobile"), Str("1"))]
  const RecordB: seq<Entry> := [Entry(StrKey("name"), Str("B")), Entry(StrKey("circle"), Str("X"))]

  lemma ExampleColumns()
    ensures Columns([RecordA, RecordB]) == [StrKey("name"), StrKey("mobile"), StrKey("circle")]
  {
    var rows := [RecordA, RecordB];
    var name, mobile, circle := StrKey("name"), StrKey("mobile"), StrKey("circle");
    var none: seq<seq<Entry>> := [];
    assert rows[..1] == [RecordA] && [RecordA][..0] == none;
    assert AllKeys([RecordA]) == [name, mobile];
    var all := [name, mobile, name, circle];
    assert AllKeys(rows) == all;
    var empty: seq<Key> := [];
    assert all[..3] == [name, mobile, name];
    assert [name, mobile, name][..2] == [name, mobile];
    assert [name, mobile][..1] == [name];
    assert [name][..0] == empty;
    assert FirstSeen([name]) == [name];
    assert FirstSeen([name, mobile]) == [name, mobile];
    assert FirstSeen([name, mobile, name]) == [name, mobile];
  }

  lemma ExampleRecords()
    ensures Records([RecordA, RecordB]) == [["name", "mobile", "circle"], ["A", "1", ""], ["B", "", "X"]]
  {
    ExampleColumns();
    var cols := [StrKey("name"), StrKey("mobile"), StrKey("circle")];
    assert Cell(RecordA, StrKey("circle")) == "";
    assert Cell(RecordB, StrKey("mobile")) == "";
    assert DataRecord(RecordA, cols) == ["A", "1", ""];
    assert DataRecord(RecordB, cols) == ["B", "", "X"];
    assert HeaderRecord(cols) == ["name", "mobile", "circle"];
    assert DataRecords([RecordA, RecordB], cols) == [["A", "1", ""], ["B", "", "X"]];
  }

  lemma BareField(f: string)
    requires forall i :: 0 <= i < |f| ==> 'A' <= f[i] <= 'Z' || 'a' <= f[i] <= 'z' || '0' <= f[i] <= '9'
    ensures Csv.Field(f) == f
  {
    assert forall i :: 0 <= i < |f| ==> !Csv.ForcesEnclosure(f[i]);
  }

  lemma ExampleHeaderLine()
    ensures Csv.Record(["name", "mobile", "circle"]) == "name,mobile,circle\n"
  {
    var name: string, mobile: string, circle: string := "name", "mobile", "circle";
    BareField(name); BareField(mobile); BareField(circle);
    var fs := [name, mobile, circle];
    assert fs[1..] == [mobile, circle] && [mobile, circle][1..] == [circle];
    assert Csv.JoinFields([circle]) == circle;
    assert Csv.JoinFields([mobile, circle]) == mobile + "," + circle;
    assert Csv.JoinFields(fs) == name + "," + (mobile + "," + circle);
    assert name + "," + mobile + "," + circle == "name,mobile,circle";
  }

  lemma ExampleLineA()
    ensures Csv.Record(["A", "1", ""]) == "A,1,\n"
  {
    BareField("A"); BareField("1"); BareField("");
    assert Csv.JoinFields([""]) == "";
    assert Csv.JoinFields(["1", ""]) == "1,";
  }

  lemma ExampleLineB()
    ensures Csv.Record(["B", "", "X"]) == "B,,X\n"
  {
    BareField("B"); BareField(""); BareField("X");
    assert Csv.JoinFields(["X"]) == "X";
    assert Csv.JoinFields(["", "X"]) == ",X";
  }

  lemma ExampleDocument()
    ensures Csv.Document([["name", "mobile", "circle"], ["A", "1", ""], ["B", "", "X"]])
         == "name,mobile,circle\nA,1,\nB,,X\n"
  {
    var recs := [["name", "mobile", "circle"], ["A", "1", ""], ["B", "", "X"]];
    ExampleHeaderLine(); ExampleLineA(); ExampleLineB();
    var none: seq<seq<string>> := [];
    assert recs[1..] == [recs[1], recs[2]] && [recs[1], recs[2]][1..] == [recs[2]] && [recs[2]][1..] == none;
  }

  /** Two records with different keys: the header is name,mobile,circle in
      first-seen order and each record leaves its missing column empty. */
  lemma HeterogeneousListCsv(jsonEncode: Value -> string)
    ensures var list := Arr([Entry(IntKey(0), Arr(RecordA)), Entry(IntKey(1), Arr(RecordB))]);
            RowsAreArrays(list) && CsvText(list, jsonEncode) == "name,mobile,circle\nA,1,\nB,,X\n"
  {
    var list := Arr([Entry(IntKey(0), Arr(RecordA)), Entry(IntKey(1), Arr(RecordB))]);
    IsAssocIff(list);
    assert KeyedAsList(list.entries);
    assert Rows(list, jsonEncode) == [RecordA, RecordB];
    ExampleRecords();
    ExampleDocument();
  }
}
