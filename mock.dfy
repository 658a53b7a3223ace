/** mock_lookup (index.php): a fixed sample record chosen by the term's
    CRC-32, with the term as its mobile number. */
module Mock {
  import opened PhpValues
  import Summary

  /** The keys of every sample, in order. */
  const SampleKeys: seq<Key> := [StrKey("name"), StrKey("fname"), StrKey("mobile"), StrKey("email"), StrKey("address")]

  /** The names of the three samples, in order. */
  const SampleNames: seq<string> := ["Rahul Kumar", "Priya Sharma", "Amit Verma"]

  function Sample(name: string, fname: string, mobile: string, email: string, address: string): Value
  {
    Arr([Entry(StrKey("name"), Str(name)), Entry(StrKey("fname"), Str(fname)), Entry(StrKey("mobile"), Str(mobile)),
         Entry(StrKey("email"), Str(email)), Entry(StrKey("address"), Str(address))])
  }

  /** `$samples`, each with the term as its mobile number. */
  function Samples(term: string): seq<Value>
  {
    [ Sample("Rahul Kumar", "Suresh Kumar", term, "rahul.k@example.com", "Delhi"),
      Sample("Priya Sharma", "Anil Sharma", term, "priya.sh@example.com", "Mumbai"),
      Sample("Amit Verma", "R.C. Verma", term, "amit.v@example.com", "Kolkata") ]
  }

  /** `abs(crc32($term)) % count($samples)`; crc32 is supplied by the caller. */
  function SampleIndex(term: string, crc32: string -> int): (i: nat)
    ensures i < 3
  {
    Abs(crc32(term)) % |Samples(term)|
  }

  lemma SampleShape(name: string, fname: string, mobile: string, email: string, address: string)
    ensures var r := Sample(name, fname, mobile, email, address);
      && r.Arr? && |r.entries| == 5 && KeysOf(r.entries) == SampleKeys && DistinctKeys(r.entries)
      && Lookup(r.entries, StrKey("name")) == Some(Str(name))
      && Lookup(r.entries, StrKey("mobile")) == Some(Str(mobile))
  {
    var r := Sample(name, fname, mobile, email, address);
    assert forall i :: 0 <= i < 5 ==> r.entries[i].key == SampleKeys[i];
    LookupFindsEntry(r.entries, 0);
    LookupFindsEntry(r.entries, 2);
  }

  /** The mock record is one of the three samples, the one whose name is
      listed at the term's hash index; its keys are the sample keys, its
      mobile entry holds the term, and every other entry is the sample's
      own whatever the term. */
  function MockLookup(term: string, crc32: string -> int): (r: Value)
    ensures exists i :: 0 <= i < 3 && r == Samples(term)[i]
    ensures r.Arr? && |r.entries| == 5 && KeysOf(r.entries) == SampleKeys && DistinctKeys(r.entries)
    ensures Lookup(r.entries, StrKey("mobile")) == Some(Str(term))
    ensures Lookup(r.entries, StrKey("name")) == Some(Str(SampleNames[Abs(crc32(term)) % 3]))
  {
    var i := SampleIndex(term, crc32);
    if i == 0 then
      SampleShape("Rahul Kumar", "Suresh Kumar", term, "rahul.k@example.com", "Delhi");
      Samples(term)[0]
    else if i == 1 then
      SampleShape("Priya Sharma", "Anil Sharma", term, "priya.sh@example.com", "Mumbai");
      Samples(term)[1]
    else
      SampleShape("Amit Verma", "R.C. Verma", term, "amit.v@example.com", "Kolkata");
      Samples(term)[2]
  }

  /** A sample with another mobile number is the same sample with its mobile
      entry replaced. */
  lemma SampleWithMobile(name: string, fname: string, mobile: string, other: string, email: string, address: string)
    ensures Sample(name, fname, mobile, email, address).entries ==
      Sample(name, fname, other, email, address).entries[2 := Entry(StrKey("mobile"), Str(mobile))]
  {
  }

  /** The mock record is the sample at index abs(crc32(term)) % 3 with its
      mobile entry set to the term and every other entry as listed. */
  lemma MockIsIndexedSample(term: string, crc32: string -> int)
    ensures MockLookup(term, crc32).entries ==
      Samples("")[Abs(crc32(term)) % 3].entries[2 := Entry(StrKey("mobile"), Str(term))]
  {
    var i := SampleIndex(term, crc32);
    if i == 0 {
      SampleWithMobile("Rahul Kumar", "Suresh Kumar", term, "", "rahul.k@example.com", "Delhi");
    } else if i == 1 {
      SampleWithMobile("Priya Sharma", "Anil Sharma", term, "", "priya.sh@example.com", "Mumbai");
    } else {
      SampleWithMobile("Amit Verma", "R.C. Verma", term, "", "amit.v@example.com", "Kolkata");
    }
  }

  /** Two terms in the same hash class get the same record except for the
      mobile number, which is the term of each. */
  lemma MockDiffersOnlyInMobile(t1: string, t2: string, crc32: string -> int)
    requires Abs(crc32(t1)) % 3 == Abs(crc32(t2)) % 3
    ensures var r1, r2 := MockLookup(t1, crc32), MockLookup(t2, crc32);
      && r1.entries[2] == Entry(StrKey("mobile"), Str(t1))
      && r2.entries[2] == Entry(StrKey("mobile"), Str(t2))
      && forall i :: 0 <= i < 5 && i != 2 ==> r1.entries[i] == r2.entries[i]
  {
    MockIsIndexedSample(t1, crc32);
    MockIsIndexedSample(t2, crc32);
  }

  /** The value of a sample under the p-th sample key. */
  lemma SampleFieldValue(name: string, fname: string, mobile: string, email: string, address: string, p: nat)
    requires p < 5
    ensures var r := Sample(name, fname, mobile, email, address);
      Summary.FieldValue(r, Summary.Whitelist[p]) == r.entries[p].val
  {
    var r := Sample(name, fname, mobile, email, address);
    SampleShape(name, fname, mobile, email, address);
    assert r.entries[p].key == StrKey(Summary.Whitelist[p]);
    LookupFindsEntry(r.entries, p);
  }

  /** A sample has no entry for the other whitelisted names. */
  lemma SampleLacks(name: string, fname: string, mobile: string, email: string, address: string, f: string)
    requires f == "circle" || f == "id"
    ensures Summary.FieldValue(Sample(name, fname, mobile, email, address), f) == Null
  {
    var r := Sample(name, fname, mobile, email, address);
    forall i | 0 <= i < 5 ensures r.entries[i].key != StrKey(f) {
      assert r.entries[i].key == SampleKeys[i];
    }
  }

  /** The cards of a record holding the sample fields, whatever else it is. */
  lemma CardsOfSampleFields(r: Value, name: string, fname: string, mobile: string, email: string, address: string)
    requires !IsEmpty(Str(name)) && !IsEmpty(Str(fname)) && !IsEmpty(Str(email)) && !IsEmpty(Str(address))
    requires Summary.FieldValue(r, Summary.Whitelist[0]) == Str(name)
    requires Summary.FieldValue(r, Summary.Whitelist[1]) == Str(fname)
    requires Summary.FieldValue(r, Summary.Whitelist[2]) == Str(mobile)
    requires Summary.FieldValue(r, Summary.Whitelist[3]) == Str(email)
    requires Summary.FieldValue(r, Summary.Whitelist[4]) == Str(address)
    requires Summary.FieldValue(r, Summary.Whitelist[5]) == Null
    requires Summary.FieldValue(r, Summary.Whitelist[6]) == Null
    ensures Summary.ShownFields(r, Summary.Whitelist) ==
      [Summary.Shown("name", Str(name)), Summary.Shown("fname", Str(fname))] +
      (if IsEmpty(Str(mobile)) then [] else [Summary.Shown("mobile", Str(mobile))]) +
      [Summary.Shown("email", Str(email)), Summary.Shown("address", Str(address))]
  {
    Summary.WhitelistCards(r);
    var w := Summary.Whitelist;
    assert Summary.Card(r, w[0]) == [Summary.Shown("name", Str(name))];
    assert Summary.Card(r, w[1]) == [Summary.Shown("fname", Str(fname))];
    assert Summary.Card(r, w[2]) == if IsEmpty(Str(mobile)) then [] else [Summary.Shown("mobile", Str(mobile))];
    assert Summary.Card(r, w[3]) == [Summary.Shown("email", Str(email))];
    assert Summary.Card(r, w[4]) == [Summary.Shown("address", Str(address))];
    assert Summary.Card(r, w[5]) == [] && Summary.Card(r, w[6]) == [];
  }

  /** The cards of a sample whose name, father's name, e-mail and address
      are non-empty: those four, and the mobile card unless the mobile is
      empty under empty() ("" or "0"), in whitelist order. */
  lemma SampleSummary(name: string, fname: string, mobile: string, email: string, address: string)
    requires !IsEmpty(Str(name)) && !IsEmpty(Str(fname)) && !IsEmpty(Str(email)) && !IsEmpty(Str(address))
    ensures Summary.ShownFields(Sample(name, fname, mobile, email, address), Summary.Whitelist) ==
      [Summary.Shown("name", Str(name)), Summary.Shown("fname", Str(fname))] +
      (if IsEmpty(Str(mobile)) then [] else [Summary.Shown("mobile", Str(mobile))]) +
      [Summary.Shown("email", Str(email)), Summary.Shown("address", Str(address))]
  {
    var w := Summary.Whitelist;
    SampleFieldValue(name, fname, mobile, email, address, 0);
    SampleFieldValue(name, fname, mobile, email, address, 1);
    SampleFieldValue(name, fname, mobile, email, address, 2);
    SampleFieldValue(name, fname, mobile, email, address, 3);
    SampleFieldValue(name, fname, mobile, email, address, 4);
    SampleLacks(name, fname, mobile, email, address, w[5]);
    SampleLacks(name, fname, mobile, email, address, w[6]);
    CardsOfSampleFields(Sample(name, fname, mobile, email, address), name, fname, mobile, email, address);
  }

  /** The cards of the i-th sample, read back from its entries. */
  lemma IndexedSampleCards(term: string, i: nat)
    requires i < 3
    ensures var r := Samples(term)[i];
      Summary.ShownFields(r, Summary.Whitelist) ==
        [Summary.Shown("name", r.entries[0].val), Summary.Shown("fname", r.entries[1].val)] +
        (if IsEmpty(Str(term)) then [] else [Summary.Shown("mobile", Str(term))]) +
        [Summary.Shown("email", r.entries[3].val), Summary.Shown("address", r.entries[4].val)]
  {
    if i == 0 {
      SampleSummary("Rahul Kumar", "Suresh Kumar", term, "rahul.k@example.com", "Delhi");
    } else if i == 1 {
      SampleSummary("Priya Sharma", "Anil Sharma", term, "priya.sh@example.com", "Mumbai");
    } else {
      SampleSummary("Amit Verma", "R.C. Verma", term, "amit.v@example.com", "Kolkata");
    }
  }

  /** The mock record is summarised as it stands, by its name, father's
      name, e-mail and address cards and by the mobile card unless the term
      is empty under empty(); it never falls back to the "no standard
      fields" notice. */
  lemma MockSummary(term: string, crc32: string -> int)
    ensures var r := MockLookup(term, crc32);
      Summary.ShownFields(Summary.SummaryRecord(r), Summary.Whitelist) ==
        [Summary.Shown("name", r.entries[0].val), Summary.Shown("fname", r.entries[1].val)] +
        (if IsEmpty(Str(term)) then [] else [Summary.Shown("mobile", Str(term))]) +
        [Summary.Shown("email", r.entries[3].val), Summary.Shown("address", r.entries[4].val)]
  {
    var r := MockLookup(term, crc32);
    Summary.ObjectIsItsOwnRecord(r.entries, 0);
    var i := SampleIndex(term, crc32);
    assert r == Samples(term)[i];
    IndexedSampleCards(term, i);
  }
}
