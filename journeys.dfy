/**
 * All-pairs journey statistics (`calculate_all_journeys`): one search per
 * station, and every finite distance to another station is recorded under
 * the canonical key of the pair, in a set, so that an observation repeated
 * from the other end of the pair is recorded once.
 *
 * The search is a parameter: `timeDist(s)` and `stopsDist(s)` are the
 * distance lists the chosen algorithm returns from `s` on the time graph and
 * on the stops graph. Infinite distances are `None`.
 */
module Journeys {
  import opened Wrappers
  import opened Stations
  import opened Edges

  /** `(journey, value)`: a canonical pair of indices and a distance between them. */
  type Observation = (Key, nat)

  /** What the function returns: one list for 'time' or 'stops', a pair of lists otherwise. */
  datatype JourneyLists = Single(values: seq<nat>) | Pair(times: seq<nat>, stops: seq<nat>)

  /** The observations of one search from `s` among the first `k` targets. */
  ghost function FromPrefix(s: int, d: seq<Option<nat>>, k: int): set<Observation>
  {
    set e | 0 <= e < k && e < |d| && e != s && d[e].Some? :: (Canon(s, e), d[e].value)
  }

  /** The observations of one search from `s`. */
  ghost function FromSource(s: int, d: seq<Option<nat>>): set<Observation>
  {
    FromPrefix(s, d, |d|)
  }

  /** The observations of the searches from the first `i` stations of the dictionary. */
  ghost function Collected(m: StationMap, dist: int -> seq<Option<nat>>, i: nat): set<Observation>
    requires i <= |m|
  {
    if i == 0 then {} else Collected(m, dist, i - 1) + FromSource(m[i - 1].index, dist(m[i - 1].index))
  }

  /** The set the function fills from the searches `dist`. */
  ghost function Observed(m: StationMap, dist: int -> seq<Option<nat>>): set<Observation>
  {
    Collected(m, dist, |m|)
  }

  /** The values of a set of observations, one per observation. */
  ghost function Values(obs: set<Observation>): multiset<nat>
    decreases |obs|
  {
    if obs == {} then multiset{}
    else
      var o :| o in obs;
      multiset{o.1} + Values(obs - {o})
  }

  /** `Values` does not depend on the element it takes first. */
  lemma {:induction false} ValuesRemove(obs: set<Observation>, o: Observation)
    requires o in obs
    ensures Values(obs) == multiset{o.1} + Values(obs - {o})
    decreases |obs|
  {
    var p :| p in obs && Values(obs) == multiset{p.1} + Values(obs - {p});
    if p != o {
      ValuesRemove(obs - {p}, o);
      ValuesRemove(obs - {o}, p);
      assert obs - {p} - {o} == obs - {o} - {p};
    }
  }

  /** Every observation contributes one value. */
  lemma {:induction false} ValuesCount(obs: set<Observation>)
    ensures |Values(obs)| == |obs|
    decreases |obs|
  {
    if obs != {} {
      var o :| o in obs;
      ValuesRemove(obs, o);
      ValuesCount(obs - {o});
    }
  }

  /** `[value for journey, value in obs]`, in whatever order the set yields its elements. */
  method ValuesOf(obs: set<Observation>) returns (r: seq<nat>)
    ensures multiset(r) == Values(obs)
  {
    r := [];
    var rest := obs;
    while rest != {}
      invariant rest <= obs
      invariant multiset(r) + Values(rest) == Values(obs)
      decreases rest
    {
      var o :| o in rest;
      ValuesRemove(rest, o);
      r := r + [o.1];
      rest := rest - {o};
    }
  }

  /** One more target of the inner loop adds at most its own observation. */
  lemma FromPrefixStep(s: int, d: seq<Option<nat>>, k: int)
    requires 0 <= k < |d|
    ensures FromPrefix(s, d, k + 1) ==
              FromPrefix(s, d, k) + if k != s && d[k].Some? then {(Canon(s, k), d[k].value)} else {}
  {
  }

  /** The inner loop: adds the observations of one search to `acc`. */
  method CollectFrom(s: int, d: seq<Option<nat>>, acc: set<Observation>) returns (r: set<Observation>)
    ensures r == acc + FromSource(s, d)
  {
    r := acc;
    var e := 0;
    while e < |d|
      invariant 0 <= e <= |d|
      invariant r == acc + FromPrefix(s, d, e)
    {
      FromPrefixStep(s, d, e);
      if e != s && d[e].Some? {
        r := r + {(Canon(s, e), d[e].value)};
      }
      e := e + 1;
    }
  }

  /**
   * `calculate_all_journeys`: for 'time' the values of the time observations,
   * for 'stops' those of the stop observations, for 'both' the two lists; any
   * other calculation type fills neither set and answers two empty lists.
   */
  method CalculateAllJourneys(m: StationMap, timeDist: int -> seq<Option<nat>>, stopsDist: int -> seq<Option<nat>>,
                              kind: string)
    returns (r: JourneyLists)
    ensures kind == "time" ==> r.Single? && multiset(r.values) == Values(Observed(m, timeDist))
    ensures kind == "stops" ==> r.Single? && multiset(r.values) == Values(Observed(m, stopsDist))
    ensures kind == "both" ==> r.Pair? && multiset(r.times) == Values(Observed(m, timeDist))
                                       && multiset(r.stops) == Values(Observed(m, stopsDist))
    ensures kind != "time" && kind != "stops" && kind != "both" ==> r == Pair([], [])
  {
    var times: set<Observation> := {};
    var stops: set<Observation> := {};
    var i := 0;
    while i < |m|
      invariant 0 <= i <= |m|
      invariant times == if kind == "time" || kind == "both" then Collected(m, timeDist, i) else {}
      invariant stops == if kind == "stops" || kind == "both" then Collected(m, stopsDist, i) else {}
    {
      var s := m[i].index;
      if kind == "time" || kind == "both" {
        times := CollectFrom(s, timeDist(s), times);
      }
      if kind == "stops" || kind == "both" {
        stops := CollectFrom(s, stopsDist(s), stops);
      }
      i := i + 1;
    }
    if kind == "time" {
      var values := ValuesOf(times);
      r := Single(values);
    } else if kind == "stops" {
      var values := ValuesOf(stops);
      r := Single(values);
    } else {
      var t := ValuesOf(times);
      var st := ValuesOf(stops);
      r := Pair(t, st);
    }
  }

  /** An observation from station `i` of the dictionary to target `e`. */
  ghost predicate ObservedFrom(m: StationMap, dist: int -> seq<Option<nat>>, o: Observation, i: int, e: int)
    requires 0 <= i < |m|
  {
    var s := m[i].index;
    && 0 <= e < |dist(s)| && e != s && dist(s)[e].Some?
    && o == (Canon(s, e), dist(s)[e].value)
  }

  /**
   * The set holds exactly the finite distances from a station of the
   * dictionary to another vertex, keyed by their canonical pair.
   */
  lemma {:induction false} CollectedMeaning(m: StationMap, dist: int -> seq<Option<nat>>, k: nat, o: Observation)
    requires k <= |m|
    ensures o in Collected(m, dist, k) <==> exists i, e :: 0 <= i < k && ObservedFrom(m, dist, o, i, e)
    decreases k
  {
    if k > 0 {
      CollectedMeaning(m, dist, k - 1, o);
      var j := k - 1;
      var s := m[j].index;
      if o in FromSource(s, dist(s)) {
        var e :| 0 <= e < |dist(s)| && e != s && dist(s)[e].Some? && o == (Canon(s, e), dist(s)[e].value);
        assert ObservedFrom(m, dist, o, j, e);
      }
      if exists e :: ObservedFrom(m, dist, o, j, e) {
        var e :| ObservedFrom(m, dist, o, j, e);
        assert o in FromSource(s, dist(s));
      }
    }
  }

  lemma ObservedMeaning(m: StationMap, dist: int -> seq<Option<nat>>, o: Observation)
    ensures o in Observed(m, dist) <==> exists i, e :: 0 <= i < |m| && ObservedFrom(m, dist, o, i, e)
  {
    CollectedMeaning(m, dist, |m|, o);
  }

  /** No observation is a self-pair: every key is strictly ordered. */
  lemma NoSelfPairs(m: StationMap, dist: int -> seq<Option<nat>>, o: Observation)
    requires o in Observed(m, dist)
    ensures o.0.0 < o.0.1
  {
    ObservedMeaning(m, dist, o);
  }

  /** Every station reaches every vertex it has a finite distance to, at that distance. */
  lemma EveryReachablePairObserved(m: StationMap, dist: int -> seq<Option<nat>>, u: int, v: int)
    requires IsIndexing(m) && 0 <= u < |m| && 0 <= v < |dist(u)| && u != v && dist(u)[v].Some?
    ensures (Canon(u, v), dist(u)[v].value) in Observed(m, dist)
  {
    assert m[u].index == u;
    assert ObservedFrom(m, dist, (Canon(u, v), dist(u)[v].value), u, v);
    ObservedMeaning(m, dist, (Canon(u, v), dist(u)[v].value));
  }

  /** Searches over an undirected graph with `n` vertices: one entry per vertex, and d(u, v) == d(v, u). */
  ghost predicate Symmetric(dist: int -> seq<Option<nat>>, n: nat)
  {
    && (forall u :: 0 <= u < n ==> |dist(u)| == n)
    && forall u, v :: 0 <= u < n && 0 <= v < n ==> dist(u)[v] == dist(v)[u]
  }

  /**
   * With symmetric distances, each unordered pair contributes one observation:
   * two observations with the same key are the same observation.
   */
  lemma OneObservationPerPair(m: StationMap, dist: int -> seq<Option<nat>>, o1: Observation, o2: Observation)
    requires IsIndexing(m) && Symmetric(dist, |m|)
    requires o1 in Observed(m, dist) && o2 in Observed(m, dist) && o1.0 == o2.0
    ensures o1 == o2
  {
    ObservedMeaning(m, dist, o1);
    ObservedMeaning(m, dist, o2);
    var i1, e1 :| 0 <= i1 < |m| && ObservedFrom(m, dist, o1, i1, e1);
    var i2, e2 :| 0 <= i2 < |m| && ObservedFrom(m, dist, o2, i2, e2);
    assert m[i1].index == i1 && m[i2].index == i2;
    assert dist(i1)[e1] == dist(e1)[i1];
  }
}
