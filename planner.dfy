/** The planner's map markers: the stops of a route's timeline, that is
    every entry that is not a stretch of driving, renumbered from 0 in
    timeline order and carrying the entry's display fields. */
module Planner {

  import opened Wrappers

  datatype Location = Location(latitude: real, longitude: real)

  /** One entry of the timeline the route planner returns. */
  datatype TimelineEntry = TimelineEntry(
    kind: string, reason: string, location: Location, startTime: string,
    endTime: string, address: string, duration: real, shift: int)

  datatype LatLng = LatLng(lat: real, lng: real)

  /** A marker handed to the map and the side bar. */
  datatype Marker = Marker(
    id: nat, position: LatLng, kind: string, reason: string, startTime: string,
    endTime: string, address: string, duration: real, shift: int)

  const Driving: string := "Driving"

  predicate IsStop(e: TimelineEntry) {
    e.kind != Driving
  }

  /** `timeline.filter(item => item.type !== "Driving")` */
  function Stops(t: seq<TimelineEntry>): (r: seq<TimelineEntry>)
    ensures |r| <= |t|
    ensures forall i :: 0 <= i < |r| ==> IsStop(r[i])
  {
    if t == [] then []
    else
      var init := Stops(t[..|t| - 1]);
      if IsStop(t[|t| - 1]) then init + [t[|t| - 1]] else init
  }

  /** The marker for the entry at position `idx` of the filtered list. */
  function ToMarker(e: TimelineEntry, idx: nat): Marker {
    Marker(idx, LatLng(e.location.latitude, e.location.longitude), e.kind, e.reason,
           e.startTime, e.endTime, e.address, e.duration, e.shift)
  }

  /** The `markers` memo: none without a timeline; otherwise the stops,
      each numbered by its place among the stops. */
  function Markers(timeline: Option<seq<TimelineEntry>>): (ms: seq<Marker>)
    ensures timeline.None? ==> ms == []
    ensures timeline.Some? ==> |ms| == |Stops(timeline.value)|
    ensures forall i :: 0 <= i < |ms| ==> ms[i].id == i && ms[i].kind != Driving
  {
    match timeline
    case None => []
    case Some(t) =>
      var stops := Stops(t);
      seq(|stops|, i requires 0 <= i < |stops| => ToMarker(stops[i], i))
  }

  /** How many stops come before position `j` of the timeline. */
  function Rank(t: seq<TimelineEntry>, j: nat): nat
    requires j <= |t|
  {
    if j == 0 then 0 else Rank(t, j - 1) + (if IsStop(t[j - 1]) then 1 else 0)
  }

  /** The stops of a prefix of the timeline begin the stops of the whole
      timeline, and there are `Rank(t, j)` of them. */
  lemma {:induction false} StopsOfPrefix(t: seq<TimelineEntry>, j: nat)
    requires j <= |t|
    ensures |Stops(t[..j])| == Rank(t, j)
    ensures Rank(t, j) <= |Stops(t)| && Stops(t)[..Rank(t, j)] == Stops(t[..j])
    decreases |t| - j
  {
    if j == |t| {
      assert t[..j] == t;
      CountStops(t);
    } else {
      StopsOfPrefix(t, j + 1);
      var p := Stops(t[..j + 1]);
      StopsOfNext(t, j);
      assert Stops(t)[..Rank(t, j)] == p[..Rank(t, j)];
    }
  }

  /** There are `Rank(t, |t|)` stops in all. */
  lemma {:induction false} CountStops(t: seq<TimelineEntry>)
    ensures |Stops(t)| == Rank(t, |t|)
  {
    if t != [] {
      var init := t[..|t| - 1];
      CountStops(init);
      RankOfPrefix(t, |t| - 1, |t| - 1);
    }
  }

  /** Counting in a prefix agrees with counting in the whole timeline. */
  lemma {:induction false} RankOfPrefix(t: seq<TimelineEntry>, j: nat, k: nat)
    requires k <= j <= |t|
    ensures Rank(t[..j], k) == Rank(t, k)
  {
    if k > 0 {
      RankOfPrefix(t, j, k - 1);
      assert t[..j][k - 1] == t[k - 1];
    }
  }

  /** Filtering one more entry appends it when it is a stop. */
  lemma StopsOfNext(t: seq<TimelineEntry>, j: nat)
    requires j < |t|
    ensures Stops(t[..j + 1]) == Stops(t[..j]) + (if IsStop(t[j]) then [t[j]] else [])
  {
    assert t[..j + 1][..j] == t[..j];
  }

  /** The stop at timeline position `j` is the stop numbered `Rank(t, j)`. */
  lemma StopAtRank(t: seq<TimelineEntry>, j: nat)
    requires j < |t| && IsStop(t[j])
    ensures Rank(t, j) < |Stops(t)| && Stops(t)[Rank(t, j)] == t[j]
  {
    var r := Rank(t, j);
    var before, upto := Stops(t[..j]), Stops(t[..j + 1]);
    assert |before| == r by { StopsOfPrefix(t, j); }
    assert upto == before + [t[j]] by { StopsOfNext(t, j); }
    assert r + 1 <= |Stops(t)| && Stops(t)[..r + 1] == upto by { StopsOfPrefix(t, j + 1); }
    assert Stops(t)[r] == Stops(t)[..r + 1][r];
  }

  /** The stop at timeline position `j` becomes the marker numbered
      `Rank(t, j)`, placed at the entry's location and copying its display
      fields. */
  lemma StopMarker(t: seq<TimelineEntry>, j: nat)
    requires j < |t| && IsStop(t[j])
    ensures Rank(t, j) < |Markers(Some(t))|
    ensures var m, e := Markers(Some(t))[Rank(t, j)], t[j];
      && m.id == Rank(t, j)
      && m.position == LatLng(e.location.latitude, e.location.longitude)
      && m.kind == e.kind && m.reason == e.reason
      && m.startTime == e.startTime && m.endTime == e.endTime
      && m.address == e.address && m.duration == e.duration && m.shift == e.shift
  {
    StopAtRank(t, j);
  }

  /** Markers keep the timeline's order: an earlier stop gets a smaller
      number than any later stop. */
  lemma {:induction false} RankIncreases(t: seq<TimelineEntry>, j: nat, k: nat)
    requires j < k < |t| && IsStop(t[j])
    ensures Rank(t, j) < Rank(t, k)
    decreases k - j
  {
    if k > j + 1 {
      RankIncreases(t, j, k - 1);
    }
  }

  /** Every marker comes from a stop of the timeline. */
  lemma {:induction false} MarkerHasStop(t: seq<TimelineEntry>, i: nat)
    requires i < |Markers(Some(t))|
    ensures exists j :: 0 <= j < |t| && IsStop(t[j]) && Rank(t, j) == i
  {
    CountStops(t);
    var j := RankReaches(t, |t|, i);
  }

  /** Below the count of stops in `t[..k]`, every number is the rank of one
      of those stops. */
  lemma {:induction false} RankReaches(t: seq<TimelineEntry>, k: nat, i: nat) returns (j: nat)
    requires k <= |t| && i < Rank(t, k)
    ensures j < k && IsStop(t[j]) && Rank(t, j) == i
  {
    if i == Rank(t, k - 1) {
      j := k - 1;
    } else {
      j := RankReaches(t, k - 1, i);
    }
  }
}
