/**
 * Edge deduplication (`map_stations_to_indices`): the timetable rows are
 * folded into a dictionary keyed by the canonical index pair `(min, max)`,
 * keeping the smallest journey time of each unordered pair and a stop count
 * of 1.
 */
module Edges {
  import opened Wrappers
  import opened Stations

  /** An undirected edge as the pair of its endpoint indices. */
  type Key = (int, int)

  /** The two weights stored per edge: `{'time': t, 'stops': 1}`. */
  datatype Weights = Weights(time: nat, stops: nat)

  /** `tuple(sorted((u, v)))`: the canonical key of the unordered pair {u, v}. */
  function Canon(u: int, v: int): (k: Key)
    ensures k.0 <= k.1
    ensures (k.0 == u && k.1 == v) || (k.0 == v && k.1 == u)
  {
    if u <= v then (u, v) else (v, u)
  }

  /** Both orientations of a pair have one key, and a canonical key is its own key. */
  lemma CanonIsOrderFree(u: int, v: int)
    ensures Canon(u, v) == Canon(v, u)
    ensures u <= v ==> Canon(u, v) == (u, v)
  {
  }

  /** The key of one row; `station_map[name]` raises KeyError, the from-column first. */
  function RowKey(m: StationMap, row: Row): (r: Result<Key>)
    ensures Get(m, row.fromStation).None? ==> r == Err(KeyError(row.fromStation))
    ensures Get(m, row.fromStation).Some? && Get(m, row.toStation).None? ==> r == Err(KeyError(row.toStation))
    ensures r.Ok? <==> Get(m, row.fromStation).Some? && Get(m, row.toStation).Some?
    ensures r.Ok? ==> r.value.0 <= r.value.1
                      && {r.value.0, r.value.1} == {Get(m, row.fromStation).value, Get(m, row.toStation).value}
  {
    match Get(m, row.fromStation)
    case None => Err(KeyError(row.fromStation))
    case Some(u) =>
      match Get(m, row.toStation)
      case None => Err(KeyError(row.toStation))
      case Some(v) => Ok(Canon(u, v))
  }

  function Min(a: nat, b: nat): nat
  {
    if a <= b then a else b
  }

  /** One step of the fold: record `time` for key `k`, keeping the smaller time. */
  function AddRow(d: map<Key, Weights>, k: Key, time: nat): (r: map<Key, Weights>)
    ensures r.Keys == d.Keys + {k}
    ensures r[k].stops == 1 && r[k].time <= time && (k in d ==> r[k].time <= d[k].time)
    ensures r[k].time == time || (k in d && r[k].time == d[k].time)
    ensures forall j :: j in d && j != k ==> r[j] == d[j]
  {
    if k in d then d[k := Weights(Min(time, d[k].time), 1)] else d[k := Weights(time, 1)]
  }

  /** An observed journey time between the two stations of a key. */
  type Timed = (Key, nat)

  /**
   * The key and time of every row, in row order, or the KeyError Python raises
   * for the first row naming a station missing from `m`.
   */
  function KeyRows(m: StationMap, rows: seq<Row>): (r: Result<seq<Timed>>)
    ensures r.Ok? <==> forall j :: 0 <= j < |rows| ==> RowKey(m, rows[j]).Ok?
    ensures r.Ok? ==> |r.value| == |rows|
                      && forall j :: 0 <= j < |rows| ==> r.value[j] == (RowKey(m, rows[j]).value, rows[j].time)
    ensures r.Err? ==> exists j :: 0 <= j < |rows| && RowKey(m, rows[j]).Err?
                                   && r.error == RowKey(m, rows[j]).error
                                   && forall i :: 0 <= i < j ==> RowKey(m, rows[i]).Ok?
    decreases |rows|
  {
    if rows == [] then Ok([])
    else
      var init := rows[..|rows| - 1];
      var last := rows[|rows| - 1];
      assert forall j :: 0 <= j < |init| ==> init[j] == rows[j];
      match KeyRows(m, init)
      case Err(e) => Err(e)
      case Ok(ps) =>
        match RowKey(m, last)
        case Err(e) => Err(e)
        case Ok(k) => Ok(ps + [(k, last.time)])
  }

  /** The dictionary the loop builds from the keyed rows, one `AddRow` per row. */
  function Fold(ps: seq<Timed>): map<Key, Weights>
  {
    if ps == [] then map[] else AddRow(Fold(ps[..|ps| - 1]), ps[|ps| - 1].0, ps[|ps| - 1].1)
  }

  /**
   * The dictionary `map_stations_to_indices` returns for `rows`, or the
   * KeyError it raises.
   */
  function Dedup(m: StationMap, rows: seq<Row>): Result<map<Key, Weights>>
  {
    match KeyRows(m, rows)
    case Err(e) => Err(e)
    case Ok(ps) => Ok(Fold(ps))
  }

  /**
   * What the dictionary means, independently of the order of the rows: its keys
   * are the keys of the rows, every stop count is 1, and every time is the
   * smallest time among the rows of that key.
   */
  ghost predicate Summarizes(d: map<Key, Weights>, ps: seq<Timed>)
  {
    && (forall k :: k in d <==> exists j :: 0 <= j < |ps| && ps[j].0 == k)
    && (forall k :: k in d ==> d[k].stops == 1)
    && (forall k :: k in d ==> exists j :: 0 <= j < |ps| && ps[j] == (k, d[k].time))
    && (forall k, j :: k in d && 0 <= j < |ps| && ps[j].0 == k ==> d[k].time <= ps[j].1)
  }

  lemma {:induction false} FoldSummarizes(ps: seq<Timed>)
    ensures Summarizes(Fold(ps), ps)
    decreases |ps|
  {
    if ps != [] {
      var init := ps[..|ps| - 1];
      assert ps == init + [ps[|ps| - 1]];
      FoldSummarizes(init);
      AddRowSummarizes(Fold(init), init, ps[|ps| - 1].0, ps[|ps| - 1].1);
    }
  }

  /** One more row keeps the summary: `AddRow` is the step of the fold. */
  lemma AddRowSummarizes(d0: map<Key, Weights>, init: seq<Timed>, k0: Key, t0: nat)
    requires Summarizes(d0, init)
    ensures Summarizes(AddRow(d0, k0, t0), init + [(k0, t0)])
  {
    var ps := init + [(k0, t0)];
    var n := |init|;
    var d := AddRow(d0, k0, t0);
    forall k | k in d
      ensures exists j :: 0 <= j < |ps| && ps[j] == (k, d[k].time)
    {
      if k == k0 && d[k].time == t0 {
        assert ps[n] == (k, d[k].time);
      } else {
        var j :| 0 <= j < n && init[j] == (k, d0[k].time);
        assert ps[j] == (k, d[k].time);
      }
    }
    forall k | k in d
      ensures exists j :: 0 <= j < |ps| && ps[j].0 == k
    {
      if k == k0 {
        assert ps[n].0 == k;
      } else {
        var j :| 0 <= j < n && init[j].0 == k;
        assert ps[j].0 == k;
      }
    }
    forall k, j | 0 <= j < |ps| && ps[j].0 == k
      ensures k in d && d[k].time <= ps[j].1
    {
      if j < n {
        assert init[j].0 == k;
      }
    }
  }

  /** `Summarizes` admits one dictionary only: the result does not depend on the order of the rows. */
  lemma SummaryIsUnique(d1: map<Key, Weights>, d2: map<Key, Weights>, ps: seq<Timed>)
    requires Summarizes(d1, ps) && Summarizes(d2, ps)
    ensures d1 == d2
  {
    assert d1.Keys == d2.Keys;
    forall k | k in d1
      ensures d1[k] == d2[k]
    {
      var j1 :| 0 <= j1 < |ps| && ps[j1] == (k, d1[k].time);
      var j2 :| 0 <= j2 < |ps| && ps[j2] == (k, d2[k].time);
      assert d1[k].time <= ps[j2].1 && d2[k].time <= ps[j1].1;
    }
  }
  /**
   * The dictionary depends only on which keyed rows occur: reordering the
   * rows, or repeating one, leaves it unchanged.
   */
  lemma FoldOrderFree(ps: seq<Timed>, qs: seq<Timed>)
    requires forall p :: p in ps <==> p in qs
    ensures Fold(ps) == Fold(qs)
  {
    FoldSummarizes(ps);
    FoldSummarizes(qs);
    var d := Fold(ps);
    forall k | k in d
      ensures exists j :: 0 <= j < |qs| && qs[j].0 == k
      ensures exists j :: 0 <= j < |qs| && qs[j] == (k, d[k].time)
    {
      var i :| 0 <= i < |ps| && ps[i] == (k, d[k].time);
      assert ps[i] in qs;
      var j :| 0 <= j < |qs| && qs[j] == ps[i];
    }
    forall k | exists j :: 0 <= j < |qs| && qs[j].0 == k
      ensures k in d
    {
      var j :| 0 <= j < |qs| && qs[j].0 == k;
      assert qs[j] in ps;
      var i :| 0 <= i < |ps| && ps[i] == qs[j];
    }
    forall k, j | k in d && 0 <= j < |qs| && qs[j].0 == k
      ensures d[k].time <= qs[j].1
    {
      assert qs[j] in ps;
      var i :| 0 <= i < |ps| && ps[i] == qs[j];
    }
    SummaryIsUnique(d, Fold(qs), qs);
  }


  /**
   * `map_stations_to_indices` in terms of the rows: it raises iff some row names
   * a station missing from `m`; otherwise its keys are the canonical keys of the
   * rows, every stop count is 1 and every time is the least time of its pair.
   */
  lemma DedupMeaning(m: StationMap, rows: seq<Row>)
    ensures Dedup(m, rows).Ok? <==> forall j :: 0 <= j < |rows| ==> RowKey(m, rows[j]).Ok?
    ensures Dedup(m, rows).Ok? ==> Summarizes(Dedup(m, rows).value, KeyRows(m, rows).value)
    ensures Dedup(m, rows).Err? ==> exists j :: 0 <= j < |rows| && RowKey(m, rows[j]) == Err(Dedup(m, rows).error)
  {
    if KeyRows(m, rows).Ok? {
      FoldSummarizes(KeyRows(m, rows).value);
    }
  }

  /**
   * On the dictionary built from the same rows, `map_stations_to_indices`
   * never raises, and every key it produces is a canonical pair of indices
   * in 0 .. n-1.
   */
  lemma PreparedRowsDedup(rows: seq<Row>)
    ensures Dedup(GetUniqueStations(rows), rows).Ok?
    ensures forall k :: k in Dedup(GetUniqueStations(rows), rows).value ==>
              0 <= k.0 <= k.1 < |GetUniqueStations(rows)|
  {
    var m := GetUniqueStations(rows);
    forall j | 0 <= j < |rows|
      ensures RowKey(m, rows[j]).Ok?
      ensures 0 <= RowKey(m, rows[j]).value.0 && RowKey(m, rows[j]).value.1 < |m|
    {
      PreparedRowKey(rows, m, rows[j]);
    }
    var ps := KeyRows(m, rows).value;
    FoldSummarizes(ps);
    forall k | k in Fold(ps)
      ensures 0 <= k.0 <= k.1 < |m|
    {
      var j :| 0 <= j < |ps| && ps[j].0 == k;
    }
  }

  /** A row of the sheet has a key made of two indices of the dictionary built from the sheet. */
  lemma PreparedRowKey(rows: seq<Row>, m: StationMap, row: Row)
    requires m == GetUniqueStations(rows) && row in rows
    ensures RowKey(m, row).Ok?
    ensures 0 <= RowKey(m, row).value.0 && RowKey(m, row).value.1 < |m|
  {
    UniqueStationsBijective(rows, m);
    assert Mentions(rows, row.fromStation) && Mentions(rows, row.toStation);
  }

  /** Keying one more row extends the keyed prefix by that row. */
  lemma KeyRowsStep(m: StationMap, rows: seq<Row>, i: int)
    requires 0 <= i < |rows| && KeyRows(m, rows[..i]).Ok? && RowKey(m, rows[i]).Ok?
    ensures KeyRows(m, rows[..i + 1]) == Ok(KeyRows(m, rows[..i]).value + [(RowKey(m, rows[i]).value, rows[i].time)])
  {
    assert rows[..i + 1][..i] == rows[..i];
  }

  /** The first row whose key fails decides the KeyError of the whole sheet. */
  lemma FirstFailingRow(m: StationMap, rows: seq<Row>, i: int)
    requires 0 <= i < |rows| && KeyRows(m, rows[..i]).Ok? && RowKey(m, rows[i]).Err?
    ensures Dedup(m, rows) == Err(RowKey(m, rows[i]).error)
  {
    assert forall j :: 0 <= j < i ==> rows[..i][j] == rows[j];
    var j :| 0 <= j < |rows| && RowKey(m, rows[j]).Err? && KeyRows(m, rows).error == RowKey(m, rows[j]).error
             && forall h :: 0 <= h < j ==> RowKey(m, rows[h]).Ok?;
    assert j == i;
  }

  /** Folding one more keyed row is one more `AddRow`. */
  lemma FoldStep(ps: seq<Timed>, p: Timed)
    ensures Fold(ps + [p]) == AddRow(Fold(ps), p.0, p.1)
  {
    assert (ps + [p])[..|ps|] == ps;
  }

  /**
   * `map_stations_to_indices`: one pass over the rows, updating the
   * dictionary in place.
   */
  method MapStationsToIndices(rows: seq<Row>, m: StationMap) returns (r: Result<map<Key, Weights>>)
    ensures r == Dedup(m, rows)
  {
    var edges: map<Key, Weights> := map[];
    var i := 0;
    while i < |rows|
      invariant 0 <= i <= |rows|
      invariant KeyRows(m, rows[..i]).Ok? && Fold(KeyRows(m, rows[..i]).value) == edges
    {
      var row := rows[i];
      var fromIndex := Get(m, row.fromStation);
      if fromIndex.None? {
        FirstFailingRow(m, rows, i);
        r := Err(KeyError(row.fromStation));
        return;
      }
      var toIndex := Get(m, row.toStation);
      if toIndex.None? {
        FirstFailingRow(m, rows, i);
        r := Err(KeyError(row.toStation));
        return;
      }
      var key := Canon(fromIndex.value, toIndex.value);
      KeyRowsStep(m, rows, i);
      FoldStep(KeyRows(m, rows[..i]).value, (key, row.time));
      if key in edges {
        edges := edges[key := Weights(Min(row.time, edges[key].time), 1)];
      } else {
        edges := edges[key := Weights(row.time, 1)];
      }
      i := i + 1;
    }
    assert rows[..i] == rows;
    r := Ok(edges);
  }
}
