/**
 * Station indexing: the station-name dictionary built from the raw timetable
 * rows (`get_unique_stations`), dictionary lookup, and the linear reverse
 * lookup from an index back to a name (`reverse_lookup`).
 *
 * A Python dict keeps its insertion order and `reverse_lookup` returns the
 * FIRST name whose index matches, so the dictionary is modelled as an ordered
 * list of entries rather than as a Dafny `map`.
 */
module Stations {
  import opened Wrappers

  /** One row of the timetable sheet: two station names and a journey time in minutes. */
  datatype Row = Row(fromStation: string, toStation: string, time: nat)

  /** One `name: index` item of the station dictionary. */
  datatype Entry = Entry(name: string, index: int)

  /** The station dictionary, its items in insertion order. */
  type StationMap = seq<Entry>

  // ---------------------------------------------------------------------------
  // Python's ordering of strings: code point by code point, a proper prefix first.

  /**
   * `a` is below `b` at position `k`: the two agree before `k`, and there `a`
   * has ended while `b` has not, or `a` has the smaller code point.
   */
  predicate LessAt(a: string, b: string, k: int)
  {
    0 <= k <= |a| && k < |b| && a[..k] == b[..k] && (k == |a| || a[k] < b[k])
  }

  lemma LessAtShift(a: string, b: string, k: int)
    requires |a| > 0 && |b| > 0 && a[0] == b[0]
    ensures LessAt(a, b, k + 1) <==> LessAt(a[1..], b[1..], k)
  {
    if 0 <= k < |a| && k < |b| {
      assert a[..k + 1] == [a[0]] + a[1..][..k];
      assert b[..k + 1] == [b[0]] + b[1..][..k];
    }
  }

  /** `a < b` on strings: `a` is below `b` at the first position where they differ. */
  predicate LexLess(a: string, b: string)
    ensures LexLess(a, b) <==> exists k :: LessAt(a, b, k)
  {
    if |b| == 0 then false
    else if |a| == 0 || a[0] < b[0] then
      assert LessAt(a, b, 0);
      true
    else if a[0] != b[0] then
      assert forall k :: LessAt(a, b, k) ==> a[..k] == b[..k] && (k == 0 || a[..k][0] == b[..k][0]);
      false
    else
      var r := LexLess(a[1..], b[1..]);
      assert forall k :: LessAt(a[1..], b[1..], k) <==> LessAt(a, b, k + 1) by {
        forall k { LessAtShift(a, b, k); }
      }
      assert (exists k :: LessAt(a, b, k)) ==> r by {
        if exists k :: LessAt(a, b, k) {
          var k :| LessAt(a, b, k);
          assert LessAt(a[1..], b[1..], k - 1);
        }
      }
      assert r ==> exists k :: LessAt(a, b, k) by {
        if r {
          var k :| LessAt(a[1..], b[1..], k);
          assert LessAt(a, b, k + 1);
        }
      }
      r
  }

  lemma {:induction false} LexIrreflexive(a: string)
    ensures !LexLess(a, a)
  {
    if |a| > 0 {
      LexIrreflexive(a[1..]);
    }
  }

  lemma {:induction false} LexAsymmetric(a: string, b: string)
    requires LexLess(a, b)
    ensures !LexLess(b, a)
  {
    if |a| > 0 && a[0] == b[0] {
      LexAsymmetric(a[1..], b[1..]);
    }
  }

  lemma {:induction false} LexTransitive(a: string, b: string, c: string)
    requires LexLess(a, b) && LexLess(b, c)
    ensures LexLess(a, c)
  {
    if |a| > 0 && a[0] == b[0] && b[0] == c[0] {
      LexTransitive(a[1..], b[1..], c[1..]);
    }
  }

  lemma {:induction false} LexTotal(a: string, b: string)
    requires a != b
    ensures LexLess(a, b) || LexLess(b, a)
  {
    if |a| > 0 && |b| > 0 && a[0] == b[0] {
      assert a == [a[0]] + a[1..] && b == [b[0]] + b[1..];
      LexTotal(a[1..], b[1..]);
    }
  }

  /** Strictly ascending, hence also free of duplicates. */
  predicate StrictlySorted(s: seq<string>)
  {
    forall i, j :: 0 <= i < j < |s| ==> LexLess(s[i], s[j])
  }

  /** Inserts `x` into a strictly ascending list, unless it is already there. */
  function InsertSorted(s: seq<string>, x: string): (r: seq<string>)
    requires StrictlySorted(s)
    ensures StrictlySorted(r)
    ensures forall y :: y in r <==> y in s || y == x
    decreases |s|
  {
    if s == [] then [x]
    else if x == s[0] then s
    else if LexLess(x, s[0]) then
      assert forall k :: 0 <= k < |s| ==> LexLess(x, s[k]) by {
        forall k | 0 < k < |s|
          ensures LexLess(x, s[k])
        {
          LexTransitive(x, s[0], s[k]);
        }
      }
      [x] + s
    else
      var t := InsertSorted(s[1..], x);
      assert LexLess(s[0], x) by {
        LexTotal(x, s[0]);
      }
      assert forall k :: 0 <= k < |t| ==> LexLess(s[0], t[k]) by {
        forall k | 0 <= k < |t|
          ensures LexLess(s[0], t[k])
        {
          if t[k] != x {
            assert t[k] in t;
            var j :| 0 <= j < |s[1..]| && s[1..][j] == t[k];
            assert s[j + 1] == t[k];
          }
        }
      }
      [s[0]] + t
  }

  /** Python's `sorted(set(xs))`: the distinct names of `xs` in ascending order. */
  function SortedDistinct(xs: seq<string>): (r: seq<string>)
    ensures StrictlySorted(r)
    ensures forall y :: y in r <==> y in xs
  {
    if xs == [] then []
    else
      var init := xs[..|xs| - 1];
      assert xs == init + [xs[|xs| - 1]];
      InsertSorted(SortedDistinct(init), xs[|xs| - 1])
  }

  /** There is only one strictly ascending list of a given set of names. */
  lemma {:induction false} SortedIsUnique(a: seq<string>, b: seq<string>)
    requires StrictlySorted(a) && StrictlySorted(b)
    requires forall y :: y in a <==> y in b
    ensures a == b
  {
    assert a != [] ==> a[0] in b;
    assert b != [] ==> b[0] in a;
    if a != [] && b != [] {
      assert a[0] == b[0] by {
        assert a[0] in b && b[0] in a;
        var i :| 0 <= i < |a| && a[i] == b[0];
        var j :| 0 <= j < |b| && b[j] == a[0];
        if a[0] != b[0] {
          assert LexLess(a[0], a[i]) && LexLess(b[0], b[j]);
          LexAsymmetric(a[0], b[0]);
        }
      }
      assert a == [a[0]] + a[1..] && b == [b[0]] + b[1..];
      forall y
        ensures y in a[1..] <==> y in b[1..]
      {
        if y in a[1..] {
          var i :| 0 <= i < |a[1..]| && a[1..][i] == y;
          assert LexLess(a[0], a[i + 1]);
          LexIrreflexive(y);
          assert y in b;
          var k :| 0 <= k < |b| && b[k] == y;
          assert b[1..][k - 1] == y;
        }
        if y in b[1..] {
          var j :| 0 <= j < |b[1..]| && b[1..][j] == y;
          assert LexLess(b[0], b[j + 1]);
          LexIrreflexive(y);
          assert y in a;
          var k :| 0 <= k < |a| && a[k] == y;
          assert a[1..][k - 1] == y;
        }
      }
      SortedIsUnique(a[1..], b[1..]);
    }
  }

  // ---------------------------------------------------------------------------
  // The dictionary

  /** True iff `name` occurs in either station column of `rows`. */
  predicate Mentions(rows: seq<Row>, name: string)
  {
    exists row :: row in rows && (row.fromStation == name || row.toStation == name)
  }

  /** Python dict keys never repeat. */
  predicate KeysDistinct(m: StationMap)
  {
    forall i, j :: 0 <= i < j < |m| ==> m[i].name != m[j].name
  }

  predicate IndicesDistinct(m: StationMap)
  {
    forall i, j :: 0 <= i < j < |m| ==> m[i].index != m[j].index
  }

  /** The item in position `i` maps to `i`: the indices are exactly 0 .. |m|-1, in item order. */
  predicate IsIndexing(m: StationMap)
  {
    forall i :: 0 <= i < |m| ==> m[i].index == i
  }

  /** `station_map[name]` when `name in station_map`, else None. */
  function Get(m: StationMap, name: string): (r: Option<int>)
    ensures r.None? <==> forall i :: 0 <= i < |m| ==> m[i].name != name
    ensures r.Some? ==> exists i :: 0 <= i < |m| && m[i].name == name && m[i].index == r.value
  {
    if m == [] then None
    else if m[0].name == name then Some(m[0].index)
    else
      var r := Get(m[1..], name);
      assert r.Some? ==> m[1..][Witness(m[1..], name, r.value)] == m[Witness(m[1..], name, r.value) + 1];
      r
  }

  /** A position holding `name` and `index`, for the proof of `Get`. */
  ghost function Witness(m: StationMap, name: string, index: int): (i: int)
    requires exists i :: 0 <= i < |m| && m[i].name == name && m[i].index == index
    ensures 0 <= i < |m| && m[i].name == name && m[i].index == index
  {
    var i :| 0 <= i < |m| && m[i].name == name && m[i].index == index; i
  }

  /** `reverse_lookup`: the name of the first item whose index is `index`, or None. */
  function ReverseLookup(m: StationMap, index: int): (r: Option<string>)
    ensures r.None? <==> forall i :: 0 <= i < |m| ==> m[i].index != index
    ensures r.Some? ==> exists i :: 0 <= i < |m| && m[i].index == index && m[i].name == r.value
                                    && forall j :: 0 <= j < i ==> m[j].index != index
  {
    if m == [] then None
    else if m[0].index == index then Some(m[0].name)
    else
      var r := ReverseLookup(m[1..], index);
      assert r.Some? ==> exists i :: 0 <= i < |m| && m[i].index == index && m[i].name == r.value
                                     && forall j :: 0 <= j < i ==> m[j].index != index by {
        if r.Some? {
          var i :| 0 <= i < |m[1..]| && m[1..][i].index == index && m[1..][i].name == r.value
                   && forall j :: 0 <= j < i ==> m[1..][j].index != index;
          assert forall j :: 0 <= j < i + 1 ==> m[j].index != index by {
            forall j | 0 < j < i + 1
              ensures m[j].index != index
            {
              assert m[j] == m[1..][j - 1];
            }
          }
        }
      }
      r
  }

  /** Every name of either column, with repetitions. */
  function ColumnNames(rows: seq<Row>): (r: seq<string>)
    ensures forall name :: name in r <==> Mentions(rows, name)
  {
    var froms := seq(|rows|, i requires 0 <= i < |rows| => rows[i].fromStation);
    var tos := seq(|rows|, i requires 0 <= i < |rows| => rows[i].toStation);
    assert forall name :: Mentions(rows, name) ==> name in froms + tos by {
      forall name | Mentions(rows, name)
        ensures name in froms + tos
      {
        var row :| row in rows && (row.fromStation == name || row.toStation == name);
        var k :| 0 <= k < |rows| && rows[k] == row;
        if row.fromStation == name {
          assert (froms + tos)[k] == name;
        } else {
          assert (froms + tos)[|rows| + k] == name;
        }
      }
    }
    assert forall name :: name in froms + tos ==> Mentions(rows, name) by {
      forall name | name in froms + tos
        ensures Mentions(rows, name)
      {
        var k :| 0 <= k < |froms + tos| && (froms + tos)[k] == name;
        if k < |rows| {
          assert rows[k] in rows;
        } else {
          assert rows[k - |rows|] in rows;
        }
      }
    }
    froms + tos
  }

  /**
   * `get_unique_stations`: every station named in either column gets one
   * index; the indices are 0 .. n-1 and follow ascending name order.
   */
  function GetUniqueStations(rows: seq<Row>): (m: StationMap)
    ensures IsIndexing(m)
    ensures forall i, j :: 0 <= i < j < |m| ==> LexLess(m[i].name, m[j].name)
    ensures forall name :: Get(m, name).Some? <==> Mentions(rows, name)
  {
    var names := SortedDistinct(ColumnNames(rows));
    var m := seq(|names|, i requires 0 <= i < |names| => Entry(names[i], i));
    assert forall name :: Get(m, name).Some? <==> name in names by {
      forall name
        ensures Get(m, name).Some? <==> name in names
      {
        if name in names {
          var k :| 0 <= k < |names| && names[k] == name;
          assert m[k].name == name;
        }
      }
    }
    m
  }

  /** The names of a `GetUniqueStations` dictionary are exactly the sorted distinct names of both columns. */
  lemma UniqueStationsAreTheSortedNames(rows: seq<Row>, sorted: seq<string>)
    requires StrictlySorted(sorted)
    requires forall name :: name in sorted <==> Mentions(rows, name)
    ensures |GetUniqueStations(rows)| == |sorted|
    ensures forall i :: 0 <= i < |sorted| ==> GetUniqueStations(rows)[i] == Entry(sorted[i], i)
  {
    var m := GetUniqueStations(rows);
    var names := seq(|m|, i requires 0 <= i < |m| => m[i].name);
    forall name
      ensures name in names <==> name in sorted
    {
      if name in names {
        var k :| 0 <= k < |names| && names[k] == name;
        assert Get(m, name).Some?;
      }
      if name in sorted {
        var k :| 0 <= k < |m| && m[k].name == name;
        assert names[k] == name;
      }
    }
    SortedIsUnique(names, sorted);
  }

  /** In a dictionary whose item `i` maps to `i`, reverse lookup of `i` is the name of item `i`. */
  lemma ReverseLookupOfIndexing(m: StationMap, i: int)
    requires IsIndexing(m) && 0 <= i < |m|
    ensures ReverseLookup(m, i) == Some(m[i].name)
  {
    assert m[i].index == i;
  }

  /** A dictionary with distinct keys and distinct indices is a bijection: reverse lookup inverts lookup. */
  lemma ReverseLookupInvertsGet(m: StationMap, name: string)
    requires KeysDistinct(m) && IndicesDistinct(m)
    requires Get(m, name).Some?
    ensures ReverseLookup(m, Get(m, name).value) == Some(name)
  {
    var i :| 0 <= i < |m| && m[i].name == name && m[i].index == Get(m, name).value;
    var r := ReverseLookup(m, m[i].index);
    var k :| 0 <= k < |m| && m[k].index == m[i].index && m[k].name == r.value
             && forall j :: 0 <= j < k ==> m[j].index != m[i].index;
    assert k == i;
  }

  /** ...and lookup inverts reverse lookup. */
  lemma GetInvertsReverseLookup(m: StationMap, index: int)
    requires KeysDistinct(m)
    requires ReverseLookup(m, index).Some?
    ensures Get(m, ReverseLookup(m, index).value) == Some(index)
  {
    var name := ReverseLookup(m, index).value;
    var i :| 0 <= i < |m| && m[i].index == index && m[i].name == name
             && forall j :: 0 <= j < i ==> m[j].index != index;
    var k :| 0 <= k < |m| && m[k].name == name && m[k].index == Get(m, name).value;
    assert k == i;
  }

  /** The dictionary `get_unique_stations` builds is a bijection between the names and 0 .. n-1. */
  lemma UniqueStationsBijective(rows: seq<Row>, m: StationMap)
    requires m == GetUniqueStations(rows)
    ensures KeysDistinct(m) && IndicesDistinct(m)
    ensures forall name :: Mentions(rows, name) ==>
              0 <= Get(m, name).value < |m| && ReverseLookup(m, Get(m, name).value) == Some(name)
    ensures forall i :: 0 <= i < |m| ==> ReverseLookup(m, i) == Some(m[i].name) && Get(m, m[i].name) == Some(i)
  {
    forall i, j | 0 <= i < j < |m|
      ensures m[i].name != m[j].name
    {
      if m[i].name == m[j].name {
        LexIrreflexive(m[i].name);
      }
    }
    forall name | Mentions(rows, name)
      ensures 0 <= Get(m, name).value < |m| && ReverseLookup(m, Get(m, name).value) == Some(name)
    {
      ReverseLookupInvertsGet(m, name);
    }
    forall i | 0 <= i < |m|
      ensures ReverseLookup(m, i) == Some(m[i].name) && Get(m, m[i].name) == Some(i)
    {
      assert m[i].index == i;
      GetInvertsReverseLookup(m, i);
    }
  }
}
