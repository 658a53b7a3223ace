/** PHP values as the request handler in index.php sees them: decoded JSON
    (with objects decoded to arrays) and PHP's ordered arrays. */
module PhpValues {

  datatype Option<T> = None | Some(value: T)

  /** An array key after PHP's key normalisation: a string that looks like a
      decimal integer is stored as an integer key, every other string as it is. */
  datatype Key = IntKey(i: int) | StrKey(s: string)

  /** A PHP value. An array is an ordered sequence of key/value entries;
      floating-point numbers are not modelled. */
  datatype Value =
    | Null
    | Bool(b: bool)
    | Int(i: int)
    | Str(s: string)
    | Arr(entries: seq<Entry>)

  datatype Entry = Entry(key: Key, val: Value)

  /** array_keys: the keys of an array, in its own order. */
  function KeysOf(entries: seq<Entry>): (ks: seq<Key>)
    ensures |ks| == |entries|
    ensures forall i :: 0 <= i < |entries| ==> ks[i] == entries[i].key
  {
    seq(|entries|, i requires 0 <= i < |entries| => entries[i].key)
  }

  /** `$a[$k]`: the value stored under key k, if any. */
  function Lookup(entries: seq<Entry>, k: Key): (r: Option<Value>)
    ensures r.None? <==> forall i :: 0 <= i < |entries| ==> entries[i].key != k
    ensures r.Some? ==> exists i :: 0 <= i < |entries| && entries[i].key == k && entries[i].val == r.value
  {
    if entries == [] then None
    else if entries[0].key == k then Some(entries[0].val)
    else Lookup(entries[1..], k)
  }

  /** No key is stored twice, as in every PHP array. */
  predicate DistinctKeys(entries: seq<Entry>)
  {
    forall i, j :: 0 <= i < j < |entries| ==> entries[i].key != entries[j].key
  }

  /** In an array without repeated keys, the lookup finds the value of the one
      entry that carries the key. */
  lemma {:induction false} LookupFindsEntry(entries: seq<Entry>, i: nat)
    requires DistinctKeys(entries)
    requires i < |entries|
    ensures Lookup(entries, entries[i].key) == Some(entries[i].val)
  {
    if i > 0 {
      assert entries[0].key != entries[i].key;
      assert DistinctKeys(entries[1..]) by {
        forall p, q | 0 <= p < q < |entries[1..]|
          ensures entries[1..][p].key != entries[1..][q].key
        {
          assert entries[1..][p] == entries[p + 1] && entries[1..][q] == entries[q + 1];
        }
      }
      LookupFindsEntry(entries[1..], i - 1);
    }
  }

  /** A key found in one array is found, with the same value, in any
      reordering of it. */
  lemma LookupInReordering(a: seq<Entry>, b: seq<Entry>, k: Key)
    requires DistinctKeys(a) && DistinctKeys(b)
    requires multiset(a) == multiset(b)
    requires Lookup(a, k).Some?
    ensures Lookup(b, k) == Lookup(a, k)
  {
    var i :| 0 <= i < |a| && a[i].key == k && a[i].val == Lookup(a, k).value;
    assert a[i] in multiset(b);
    var j :| 0 <= j < |b| && b[j] == a[i];
    LookupFindsEntry(a, i);
    LookupFindsEntry(b, j);
  }

  /** Reordering the entries of an array leaves every lookup unchanged. */
  lemma LookupIgnoresOrder(a: seq<Entry>, b: seq<Entry>, k: Key)
    requires DistinctKeys(a) && DistinctKeys(b)
    requires multiset(a) == multiset(b)
    ensures Lookup(a, k) == Lookup(b, k)
  {
    if Lookup(a, k).Some? {
      LookupInReordering(a, b, k);
    } else if Lookup(b, k).Some? {
      LookupInReordering(b, a, k);
    }
  }

  /** PHP's empty(), which is also the negation of a value's truthiness
      (`!$x`): null, false, 0, "", "0" and the empty array. */
  predicate IsEmpty(v: Value)
  {
    match v
    case Null => true
    case Bool(b) => !b
    case Int(i) => i == 0
    case Str(s) => s == "" || s == "0"
    case Arr(es) => es == []
  }

  /** range($lo, $hi) with step 1: ascending when lo <= hi, descending otherwise. */
  function Range(lo: int, hi: int): (r: seq<int>)
    ensures |r| == (if lo <= hi then hi - lo + 1 else lo - hi + 1)
    ensures forall i :: 0 <= i < |r| ==> r[i] == (if lo <= hi then lo + i else lo - i)
    decreases if lo <= hi then hi - lo else lo - hi
  {
    if lo == hi then [lo]
    else if lo < hi then [lo] + Range(lo + 1, hi)
    else [lo] + Range(lo - 1, hi)
  }

  function IntKeys(ns: seq<int>): (ks: seq<Key>)
    ensures |ks| == |ns|
    ensures forall i :: 0 <= i < |ns| ==> ks[i] == IntKey(ns[i])
  {
    seq(|ns|, i requires 0 <= i < |ns| => IntKey(ns[i]))
  }

  /** The keys are exactly 0, 1, ..., count-1, in that order. */
  predicate KeyedAsList(entries: seq<Entry>)
  {
    forall i :: 0 <= i < |entries| ==> entries[i].key == IntKey(i)
  }

  /** is_assoc: an array whose key list is not identical to range(0, count-1). */
  predicate IsAssoc(v: Value)
  {
    v.Arr? && KeysOf(v.entries) != IntKeys(Range(0, |v.entries| - 1))
  }

  /** is_assoc holds exactly of the arrays that are empty or not keyed
      0..count-1 in order; range(0, -1) is [0, -1], so the empty array counts
      as associative. */
  lemma IsAssocIff(v: Value)
    ensures IsAssoc(v) <==> v.Arr? && (v.entries == [] || !KeyedAsList(v.entries))
  {
    if v.Arr? {
      var n := |v.entries|;
      if n == 0 {
        assert |IntKeys(Range(0, -1))| == 2;
      } else {
        if KeyedAsList(v.entries) {
          assert KeysOf(v.entries) == IntKeys(Range(0, n - 1));
        } else {
          var i :| 0 <= i < n && v.entries[i].key != IntKey(i);
          assert KeysOf(v.entries)[i] != IntKeys(Range(0, n - 1))[i];
        }
      }
    }
  }

  /** A non-associative array is a non-empty list whose first key is 0. */
  lemma ListFirstElement(v: Value)
    requires v.Arr? && !IsAssoc(v)
    ensures v.entries != []
    ensures Lookup(v.entries, IntKey(0)) == Some(v.entries[0].val)
  {
    IsAssocIff(v);
  }

  /** The value of a decimal digit. */
  function DigitValue(c: char): (d: nat)
    requires '0' <= c <= '9'
    ensures d < 10
  {
    c as int - '0' as int
  }

  function DigitChar(d: nat): (c: char)
    requires d < 10
    ensures '0' <= c <= '9' && DigitValue(c) == d
  {
    "0123456789"[d]
  }

  predicate AllDigits(s: string)
  {
    forall i :: 0 <= i < |s| ==> '0' <= s[i] <= '9'
  }

  /** The number a string of decimal digits denotes, most significant first. */
  function DecimalValue(s: string): nat
    requires AllDigits(s)
  {
    if s == [] then 0 else DecimalValue(s[..|s| - 1]) * 10 + DigitValue(s[|s| - 1])
  }

  /** The number an optionally signed decimal text denotes. */
  function SignedValue(s: string): int
    requires |s| > 0 && (s[0] == '-' ==> AllDigits(s[1..])) && (s[0] != '-' ==> AllDigits(s))
  {
    if s[0] == '-' then -(DecimalValue(s[1..]) as int) else DecimalValue(s)
  }

  /** Decimal text of a natural number, without leading zeros. */
  function NatToString(n: nat): (s: string)
    ensures |s| > 0 && AllDigits(s)
    ensures |s| > 1 ==> s[0] != '0'
  {
    if n < 10 then [DigitChar(n)] else NatToString(n / 10) + [DigitChar(n % 10)]
  }

  /** The digits written for n denote n. */
  lemma {:induction false} NatToStringValue(n: nat)
    ensures DecimalValue(NatToString(n)) == n
  {
    if n >= 10 {
      NatToStringValue(n / 10);
      var s := NatToString(n);
      assert s[..|s| - 1] == NatToString(n / 10);
    }
  }

  /** Decimal text of an integer, as PHP converts an int to a string. */
  function IntToString(i: int): (s: string)
    ensures |s| > 0
    ensures (s[0] == '-') <==> i < 0
    ensures s[0] == '-' ==> AllDigits(s[1..]) && |s| > 1
    ensures s[0] != '-' ==> AllDigits(s)
  {
    if i < 0 then "-" + NatToString(-i) else NatToString(i)
  }

  /** The text written for i reads back as i, so different integers are
      written differently. */
  lemma IntToStringValue(i: int)
    ensures SignedValue(IntToString(i)) == i
  {
    if i < 0 {
      NatToStringValue(-i);
      assert IntToString(i)[1..] == NatToString(-i);
    } else {
      NatToStringValue(i);
    }
  }

  lemma IntToStringInjective(i: int, j: int)
    requires IntToString(i) == IntToString(j)
    ensures i == j
  {
    IntToStringValue(i);
    IntToStringValue(j);
  }

  function Abs(i: int): (r: nat)
    ensures r == i || r == -i
  {
    if i < 0 then -i else i
  }
}
