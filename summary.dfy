/** The summary card list of index.php: the record to summarise, and the
    whitelisted fields it shows. */
module Summary {
  import opened PhpValues
  import opened Sequences

  /** The fields a summary may show, in the order it shows them. */
  const Whitelist: seq<string> := ["name", "fname", "mobile", "email", "address", "circle", "id"]

  /** One card: a field name and the value displayed under it. */
  datatype Shown = Shown(field: string, value: Value)

  /** What the summary column displays: "No data" for a falsy result, and
      otherwise the cards, with the "No standard fields found" notice when
      no card was shown. */
  datatype SummaryView = NoData | Cards(shown: seq<Shown>, noStandardFields: bool)

  /** `$summary`: an associative array is its own record, a list is
      summarised by its element at index 0, anything else by {"value": v}. */
  function SummaryRecord(result: Value): Value
  {
    if IsAssoc(result) then result
    else if result.Arr? then
      match Lookup(result.entries, IntKey(0))
      case Some(v) => v
      case None => Null
    else Arr([Entry(StrKey("value"), result)])
  }

  /** `$summary[$f]` as empty() reads it: a missing key reads as null, and
      so does every whitelisted name on a record that is not an array (a
      string has no offset named like a whitelisted field). */
  function FieldValue(record: Value, f: string): Value
  {
    if record.Arr? then
      match Lookup(record.entries, StrKey(f))
      case Some(v) => v
      case None => Null
    else Null
  }

  /** The card of field f, if the record's value for it is non-empty. */
  function Card(record: Value, f: string): seq<Shown>
  {
    if IsEmpty(FieldValue(record, f)) then [] else [Shown(f, FieldValue(record, f))]
  }

  /** The cards shown for the given fields, in the order of the fields. */
  function ShownFields(record: Value, fields: seq<string>): seq<Shown>
  {
    if fields == [] then []
    else
      ShownFields(record, fields[..|fields| - 1]) + Card(record, fields[|fields| - 1])
  }

  lemma ShownFieldsSnoc(record: Value, fields: seq<string>, f: string)
    ensures ShownFields(record, fields + [f]) == ShownFields(record, fields) + Card(record, f)
  {
    assert (fields + [f])[..|fields|] == fields;
  }

  /** The summary block of index.php (the loop over the whitelist and the
      `$shown` flag). */
  method Summarize(result: Value) returns (view: SummaryView)
    ensures view.NoData? <==> IsEmpty(result)
    ensures view.Cards? ==> view.shown == ShownFields(SummaryRecord(result), Whitelist)
    ensures view.Cards? ==> (view.noStandardFields <==> view.shown == [])
  {
    if IsEmpty(result) {
      return NoData;
    }
    var summary := SummaryRecord(result);
    var shown := false;
    var cards: seq<Shown> := [];
    for i := 0 to |Whitelist|
      invariant cards == ShownFields(summary, Whitelist[..i])
      invariant shown <==> cards != []
    {
      var f := Whitelist[i];
      CardsSnoc(summary, Whitelist, i);
      var v := FieldValue(summary, f);
      if !IsEmpty(v) {
        cards := cards + [Shown(f, v)];
        shown := true;
      }
    }
    assert Whitelist[..|Whitelist|] == Whitelist;
    view := Cards(cards, !shown);
  }

  /** Extending the fields by one adds that field's card. */
  lemma CardsSnoc(record: Value, fields: seq<string>, n: nat)
    requires n < |fields|
    ensures ShownFields(record, fields[..n + 1]) == ShownFields(record, fields[..n]) + Card(record, fields[n])
  {
    assert fields[..n + 1] == fields[..n] + [fields[n]];
    ShownFieldsSnoc(record, fields[..n], fields[n]);
  }

  lemma CardsHead(record: Value, fields: seq<string>)
    requires |fields| >= 3
    ensures ShownFields(record, fields[..3]) ==
      Card(record, fields[0]) + Card(record, fields[1]) + Card(record, fields[2])
  {
    var c0, c1, c2 := Card(record, fields[0]), Card(record, fields[1]), Card(record, fields[2]);
    assert ShownFields(record, fields[..1]) == c0 by {
      assert fields[..0] == [];
      CardsSnoc(record, fields, 0);
    }
    assert ShownFields(record, fields[..2]) == c0 + c1 by { CardsSnoc(record, fields, 1); }
    assert ShownFields(record, fields[..3]) == c0 + c1 + c2 by { CardsSnoc(record, fields, 2); }
  }

  lemma CardsTail(record: Value, fields: seq<string>)
    requires |fields| == 7
    ensures ShownFields(record, fields) ==
      ShownFields(record, fields[..3]) + Card(record, fields[3]) + Card(record, fields[4]) +
      Card(record, fields[5]) + Card(record, fields[6])
  {
    var h := ShownFields(record, fields[..3]);
    var c3, c4, c5, c6 := Card(record, fields[3]), Card(record, fields[4]), Card(record, fields[5]), Card(record, fields[6]);
    assert ShownFields(record, fields[..4]) == h + c3 by { CardsSnoc(record, fields, 3); }
    assert ShownFields(record, fields[..5]) == h + c3 + c4 by { CardsSnoc(record, fields, 4); }
    assert ShownFields(record, fields[..6]) == h + c3 + c4 + c5 by { CardsSnoc(record, fields, 5); }
    assert ShownFields(record, fields[..7]) == h + c3 + c4 + c5 + c6 by { CardsSnoc(record, fields, 6); }
    assert fields[..7] == fields;
  }

  /** The cards over the whitelist, field by field. */
  lemma WhitelistCards(record: Value)
    ensures ShownFields(record, Whitelist) ==
      Card(record, Whitelist[0]) + Card(record, Whitelist[1]) + Card(record, Whitelist[2]) +
      Card(record, Whitelist[3]) + Card(record, Whitelist[4]) + Card(record, Whitelist[5]) +
      Card(record, Whitelist[6])
  {
    CardsHead(record, Whitelist);
    CardsTail(record, Whitelist);
  }

  /** Every card is one of the given fields with the record's non-empty
      value for it, and every given field whose value is non-empty has a
      card. */
  lemma {:induction false} ShownFieldsExact(record: Value, fields: seq<string>)
    ensures forall n :: 0 <= n < |ShownFields(record, fields)| ==>
      var c := ShownFields(record, fields)[n];
      c.field in fields && c.value == FieldValue(record, c.field) && !IsEmpty(c.value)
    ensures forall p :: 0 <= p < |fields| && !IsEmpty(FieldValue(record, fields[p])) ==>
      exists n :: 0 <= n < |ShownFields(record, fields)| && ShownFields(record, fields)[n].field == fields[p]
  {
    if fields != [] {
      var init, f := fields[..|fields| - 1], fields[|fields| - 1];
      assert fields == init + [f];
      ShownFieldsExact(record, init);
      var before := ShownFields(record, init);
      var now := ShownFields(record, fields);
      assert before == now[..|before|];
      forall p | 0 <= p < |fields| && !IsEmpty(FieldValue(record, fields[p]))
        ensures exists n :: 0 <= n < |now| && now[n].field == fields[p]
      {
        if p < |init| {
          assert init[p] == fields[p];
          var n :| 0 <= n < |before| && before[n].field == init[p];
          assert now[n] == before[n];
        } else {
          assert now[|now| - 1].field == f;
        }
      }
    }
  }

  /** Over fields without repetition, the cards come in the fields' order. */
  lemma {:induction false} ShownFieldsInOrder(record: Value, fields: seq<string>)
    requires Distinct(fields)
    ensures forall n, m :: 0 <= n < m < |ShownFields(record, fields)| ==>
      var a, b := ShownFields(record, fields)[n].field, ShownFields(record, fields)[m].field;
      a in fields && b in fields && IndexOf(fields, a) < IndexOf(fields, b)
  {
    ShownFieldsExact(record, fields);
    if fields != [] {
      var init, f := fields[..|fields| - 1], fields[|fields| - 1];
      assert fields == init + [f];
      assert Distinct(init);
      ShownFieldsInOrder(record, init);
      ShownFieldsExact(record, init);
      var before := ShownFields(record, init);
      var now := ShownFields(record, fields);
      assert before == now[..|before|];
      assert IndexOf(fields, f) == |init| by {
        assert fields[|init|] == f;
        assert forall j :: 0 <= j < |init| ==> fields[j] == init[j] && fields[j] != f;
      }
      forall x | x in init ensures IndexOf(fields, x) == IndexOf(init, x) {
        IndexOfPrefix(init, [f], x);
      }
      forall n, m | 0 <= n < m < |now|
        ensures now[n].field in fields && now[m].field in fields
        ensures IndexOf(fields, now[n].field) < IndexOf(fields, now[m].field)
      {
        assert now[n] == before[n];
        if m < |before| {
          assert now[m] == before[m];
        } else {
          assert now[m].field == f;
        }
      }
    }
  }

  lemma WhitelistDistinct()
    ensures Distinct(Whitelist)
  {
  }

  /** The summary shows only whitelisted fields, each with a non-empty value
      taken from the record, in whitelist order whatever the record's own
      key order, and every whitelisted field with a non-empty value. */
  lemma SummaryFields(record: Value)
    ensures var shown := ShownFields(record, Whitelist);
      && (forall n :: 0 <= n < |shown| ==>
            shown[n].field in Whitelist && shown[n].value == FieldValue(record, shown[n].field) &&
            !IsEmpty(shown[n].value))
      && (forall f :: f in Whitelist && !IsEmpty(FieldValue(record, f)) ==>
            exists n :: 0 <= n < |shown| && shown[n].field == f)
      && (forall n, m :: 0 <= n < m < |shown| ==>
            shown[n].field in Whitelist && shown[m].field in Whitelist &&
            IndexOf(Whitelist, shown[n].field) < IndexOf(Whitelist, shown[m].field))
  {
    ShownFieldsExact(record, Whitelist);
    WhitelistDistinct();
    ShownFieldsInOrder(record, Whitelist);
    forall f | f in Whitelist && !IsEmpty(FieldValue(record, f))
      ensures exists n :: 0 <= n < |ShownFields(record, Whitelist)| && ShownFields(record, Whitelist)[n].field == f
    {
      var p :| 0 <= p < |Whitelist| && Whitelist[p] == f;
    }
  }

  /** The cards depend on the record only through the values of its fields. */
  lemma {:induction false} ShownFieldsByValues(r1: Value, r2: Value, fields: seq<string>)
    requires forall f :: f in fields ==> FieldValue(r1, f) == FieldValue(r2, f)
    ensures ShownFields(r1, fields) == ShownFields(r2, fields)
  {
    if fields != [] {
      var init := fields[..|fields| - 1];
      assert fields[|fields| - 1] in fields;
      assert forall f :: f in init ==> f in fields;
      ShownFieldsByValues(r1, r2, init);
    }
  }

  /** Reordering the keys of a record does not change its summary. */
  lemma SummaryIgnoresKeyOrder(a: seq<Entry>, b: seq<Entry>)
    requires DistinctKeys(a) && DistinctKeys(b)
    requires multiset(a) == multiset(b)
    ensures ShownFields(Arr(a), Whitelist) == ShownFields(Arr(b), Whitelist)
  {
    forall f | f in Whitelist ensures FieldValue(Arr(a), f) == FieldValue(Arr(b), f) {
      LookupIgnoresOrder(a, b, StrKey(f));
    }
    ShownFieldsByValues(Arr(a), Arr(b), Whitelist);
  }

  /** An array with a string key is associative, so it is summarised as it
      stands. */
  lemma ObjectIsItsOwnRecord(a: seq<Entry>, k: nat)
    requires k < |a| && a[k].key.StrKey?
    ensures SummaryRecord(Arr(a)) == Arr(a)
  {
    IsAssocIff(Arr(a));
  }

  /** A list is summarised by its first element only. */
  lemma ListSummarisedByFirstElement(result: Value)
    requires result.Arr? && !IsAssoc(result)
    ensures SummaryRecord(result) == result.entries[0].val
  {
    ListFirstElement(result);
  }

  /** A truthy scalar, such as a body that was not JSON, has no standard
      field: its summary is the fallback notice alone. */
  lemma ScalarHasNoStandardFields(v: Value)
    requires !v.Arr?
    ensures ShownFields(SummaryRecord(v), Whitelist) == []
  {
    var record := SummaryRecord(v);
    assert record == Arr([Entry(StrKey("value"), v)]);
    forall f | f in Whitelist ensures FieldValue(record, f) == Null {
      assert StrKey(f) != StrKey("value");
    }
    ShownFieldsByValues(record, Null, Whitelist);
    NothingShownForNull(Whitelist);
  }

  lemma {:induction false} NothingShownForNull(fields: seq<string>)
    ensures ShownFields(Null, fields) == []
  {
    if fields != [] {
      NothingShownForNull(fields[..|fields| - 1]);
    }
  }
}
