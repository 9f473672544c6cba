/** A Python `dict` from dates to integers as a value: its keys in insertion
    order (the order `items()` lists them in) and the mapping itself. */
module PyDict {
  import opened Wrappers

  datatype RawDict = RawDict(keys: seq<int>, values: map<int, int>)
  {
    /** The keys are listed once each, and exactly the mapped keys are listed. */
    predicate Wf()
    {
      && (forall i, j :: 0 <= i < j < |keys| ==> keys[i] != keys[j])
      && values.Keys == set k | k in keys
    }
  }

  type Dict = d: RawDict | d.Wf() witness RawDict([], map[])

  datatype IndexError = IndexError

  function Empty(): Dict
  {
    RawDict([], map[])
  }

  /** `d[k] = v`: a new key goes to the end of the order, an existing key
      keeps its place. */
  function Insert(d: Dict, k: int, v: int): (r: Dict)
    ensures r.values == d.values[k := v]
    ensures k in d.values ==> r.keys == d.keys
    ensures k !in d.values ==> r.keys == d.keys + [k]
  {
    if k in d.values then RawDict(d.keys, d.values[k := v])
    else RawDict(d.keys + [k], d.values[k := v])
  }

  /** `list(d.items())`. */
  function Items(d: Dict): (r: seq<(int, int)>)
    ensures |r| == |d.keys|
    ensures forall i :: 0 <= i < |r| ==> r[i] == (d.keys[i], d.values[d.keys[i]])
  {
    seq(|d.keys|, i requires 0 <= i < |d.keys| => (d.keys[i], d.values[d.keys[i]]))
  }

  /** After `d[k] = v`, `list(d.items())` has `(k, v)` in place of the old
      pair for an existing key, and at the end for a new one; every other
      pair is where it was. */
  lemma InsertItems(d: Dict, k: int, v: int)
    ensures k in d.values ==>
      exists i :: 0 <= i < |d.keys| && d.keys[i] == k && Items(Insert(d, k, v)) == Items(d)[i := (k, v)]
    ensures k !in d.values ==> Items(Insert(d, k, v)) == Items(d) + [(k, v)]
  {
    var r := Insert(d, k, v);
    if k in d.values {
      assert k in d.keys;
      var i :| 0 <= i < |d.keys| && d.keys[i] == k;
      assert Items(r) == Items(d)[i := (k, v)];
    } else {
      assert Items(r) == Items(d) + [(k, v)];
    }
  }

  // ---------------------------------------------------------------------
  // Sorting items by date: `sorted(d.items(), key=lambda pair: pair[0])`.

  predicate SortedByDate(s: seq<(int, int)>)
  {
    forall i, j :: 0 <= i < j < |s| ==> s[i].0 <= s[j].0
  }

  function InsertByDate(x: (int, int), s: seq<(int, int)>): seq<(int, int)>
  {
    if s == [] || x.0 <= s[0].0 then [x] + s
    else [s[0]] + InsertByDate(x, s[1..])
  }

  /** A stable insertion sort on the date. */
  function SortByDate(s: seq<(int, int)>): seq<(int, int)>
  {
    if s == [] then [] else InsertByDate(s[0], SortByDate(s[1..]))
  }

  lemma {:induction false} InsertByDateKeeps(x: (int, int), s: seq<(int, int)>)
    requires SortedByDate(s)
    ensures SortedByDate(InsertByDate(x, s))
    ensures multiset(InsertByDate(x, s)) == multiset(s) + multiset{x}
  {
    InsertByDateItems(x, s);
    if s != [] && x.0 > s[0].0 {
      var t := InsertByDate(x, s[1..]);
      InsertByDateKeeps(x, s[1..]);
      InsertByDateBound(x, s[1..], s[0].0);
      assert InsertByDate(x, s) == [s[0]] + t;
    }
  }

  /** Inserting keeps the items and adds the new one. */
  lemma {:induction false} InsertByDateItems(x: (int, int), s: seq<(int, int)>)
    ensures multiset(InsertByDate(x, s)) == multiset(s) + multiset{x}
  {
    if s != [] && x.0 > s[0].0 {
      InsertByDateItems(x, s[1..]);
      assert s == [s[0]] + s[1..];
    }
  }

  /** Inserting an item dated no earlier than `lo` among items dated no
      earlier than `lo` keeps every date no earlier than `lo`. */
  lemma {:induction false} InsertByDateBound(x: (int, int), s: seq<(int, int)>, lo: int)
    requires x.0 >= lo
    requires forall k :: 0 <= k < |s| ==> s[k].0 >= lo
    ensures forall k :: 0 <= k < |InsertByDate(x, s)| ==> InsertByDate(x, s)[k].0 >= lo
  {
    if s != [] && x.0 > s[0].0 {
      InsertByDateBound(x, s[1..], lo);
    }
  }

  /** Sorting yields the same items, ordered by date. */
  lemma {:induction false} SortByDateSorts(s: seq<(int, int)>)
    ensures SortedByDate(SortByDate(s))
    ensures multiset(SortByDate(s)) == multiset(s)
  {
    if s != [] {
      SortByDateSorts(s[1..]);
      InsertByDateKeeps(s[0], SortByDate(s[1..]));
      assert s == [s[0]] + s[1..];
    }
  }

  function Reverse<T>(s: seq<T>): (r: seq<T>)
    ensures |r| == |s|
  {
    if s == [] then [] else Reverse(s[1..]) + [s[0]]
  }

  lemma {:induction false} ReverseAt<T>(s: seq<T>, i: nat)
    requires i < |s|
    ensures Reverse(s)[i] == s[|s| - 1 - i]
  {
    if i < |s| - 1 {
      ReverseAt(s[1..], i);
    }
  }

  predicate StrictlyDescending(s: seq<(int, int)>)
  {
    forall i, j :: 0 <= i < j < |s| ==> s[i].0 > s[j].0
  }

  lemma {:induction false} InsertLargest(x: (int, int), s: seq<(int, int)>)
    requires forall i :: 0 <= i < |s| ==> s[i].0 < x.0
    ensures InsertByDate(x, s) == s + [x]
  {
    if s != [] {
      InsertLargest(x, s[1..]);
      assert s == [s[0]] + s[1..];
    }
  }

  /** Items listed newest first come out of the sort in the reverse order. */
  lemma {:induction false} SortDescending(s: seq<(int, int)>)
    requires StrictlyDescending(s)
    ensures SortByDate(s) == Reverse(s)
  {
    if s != [] {
      SortDescending(s[1..]);
      forall i | 0 <= i < |s| - 1 ensures Reverse(s[1..])[i].0 < s[0].0 {
        ReverseAt(s[1..], i);
      }
      InsertLargest(s[0], Reverse(s[1..]));
    }
  }

  /** The levels of a map in date order, as `__str__` lists them. */
  function DateSortedLevels(d: Dict): (r: seq<int>)
  {
    var sorted := SortByDate(Items(d));
    seq(|sorted|, i requires 0 <= i < |sorted| => sorted[i].1)
  }

  // ---------------------------------------------------------------------
  // Scaling: `{date: boundaries[level] for date, level in d.items()}`.

  /** Python sequence indexing: a negative index counts from the end, and
      an index outside the sequence is an `IndexError`. */
  function PyIndex(b: seq<int>, i: int): Option<int>
  {
    if 0 <= i < |b| then Some(b[i])
    else if -|b| <= i < 0 then Some(b[|b| + i])
    else None
  }

  predicate Scalable(b: seq<int>, d: Dict)
  {
    forall k :: k in d.values ==> PyIndex(b, d.values[k]).Some?
  }

  /** The dict comprehension that replaces every level by its boundary; it
      raises `IndexError` (and builds nothing) when some level does not
      index the boundaries. */
  function Scale(b: seq<int>, d: Dict): (r: Result<Dict, IndexError>)
    ensures r.Ok? <==> Scalable(b, d)
  {
    if Scalable(b, d) then
      var m := map k | k in d.values :: PyIndex(b, d.values[k]).value;
      assert m.Keys == d.values.Keys;
      Ok(RawDict(d.keys, m))
    else Err(IndexError)
  }

  /** Scaling keeps every date and its place in the order, and replaces a
      level `l` in range by `b[l]`. */
  lemma ScaleReplacesLevels(b: seq<int>, d: Dict)
    requires forall k :: k in d.values ==> 0 <= d.values[k] < |b|
    ensures Scale(b, d).Ok?
    ensures Scale(b, d).value.keys == d.keys
    ensures forall k :: k in d.values ==> Scale(b, d).value.values[k] == b[d.values[k]]
  {
  }

  /** With non-decreasing boundaries, raising one date's level never lowers
      that date's scaled count, and leaves every other date's count alone. */
  lemma ScaleMonotone(b: seq<int>, d: Dict, k: int, v: int)
    requires forall i, j :: 0 <= i <= j < |b| ==> b[i] <= b[j]
    requires forall x :: x in d.values ==> 0 <= d.values[x] < |b|
    requires k in d.values && d.values[k] <= v < |b|
    ensures Scale(b, Insert(d, k, v)).Ok?
    ensures Scale(b, Insert(d, k, v)).value.values[k] >= Scale(b, d).value.values[k]
    ensures forall x :: x in d.values && x != k ==>
      Scale(b, Insert(d, k, v)).value.values[x] == Scale(b, d).value.values[x]
  {
    ScaleReplacesLevels(b, d);
    ScaleReplacesLevels(b, Insert(d, k, v));
  }
}
