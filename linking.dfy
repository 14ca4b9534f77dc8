/** Sighting records and the lines that join successive sightings of one
    chain: the loop of createMap that compares each record with the next one
    and adds a line trace when their ids are equal. */
module Linking {

  /** A cell that may be missing (a NaN in the table). */
  datatype Option<T> = None | Some(value: T)

  /** A map position, longitude first as the traces take it. */
  datatype Point = Point(lon: real, lat: real)

  /** One line trace: from one sighting to the next. */
  datatype Segment = Segment(from: Point, to: Point)

  /** One row of the connected-sightings table. The id is None when the cell
      is missing; the display fields hold the text that str() gives for the
      row's cells; created is the parsed sighting instant in seconds and
      createdText its printed form. */
  datatype Sighting = Sighting(
    id: Option<string>,
    lat: real,
    lon: real,
    created: int,
    createdText: string,
    kind: string,
    numSighted: string,
    comment: string)

  function Position(r: Sighting): Point
  {
    Point(r.lon, r.lat)
  }

  /** The record at i and the one after it belong to the same chain: both
      ids are present and equal. A missing id compares unequal to every id,
      itself included, as NaN does. */
  predicate Linked(rs: seq<Sighting>, i: int)
  {
    0 <= i < |rs| - 1 && rs[i].id.Some? && rs[i + 1].id.Some? && rs[i].id.value == rs[i + 1].id.value
  }

  /** The segment joining record i to record i + 1. */
  function SegmentAt(rs: seq<Sighting>, i: int): Segment
    requires 0 <= i < |rs| - 1
  {
    Segment(Position(rs[i]), Position(rs[i + 1]))
  }

  /** The linked indices below n, in increasing order: each i < n with
      Linked(rs, i) exactly once. */
  function LinkedBelow(rs: seq<Sighting>, n: nat): (ps: seq<nat>)
    ensures |ps| <= n
    ensures forall k :: 0 <= k < |ps| ==> ps[k] < n && Linked(rs, ps[k])
    ensures forall k, l :: 0 <= k < l < |ps| ==> ps[k] < ps[l]
  {
    if n == 0 then []
    else LinkedBelow(rs, n - 1) + (if Linked(rs, n - 1) then [n - 1] else [])
  }

  /** No linked index below n is missing from LinkedBelow(rs, n). */
  lemma {:induction false} LinkedBelowComplete(rs: seq<Sighting>, n: nat)
    ensures forall i :: 0 <= i < n && Linked(rs, i) ==> i in LinkedBelow(rs, n)
  {
    if n > 0 {
      LinkedBelowComplete(rs, n - 1);
      var ps := LinkedBelow(rs, n - 1);
      assert LinkedBelow(rs, n) == ps + (if Linked(rs, n - 1) then [n - 1] else []);
      forall i | 0 <= i < n && Linked(rs, i)
        ensures i in LinkedBelow(rs, n)
      {
        if i < n - 1 {
          var j :| 0 <= j < |ps| && ps[j] == i;
          assert LinkedBelow(rs, n)[j] == i;
        } else {
          assert LinkedBelow(rs, n)[|ps|] == i;
        }
      }
    }
  }

  /** Every linked index of the whole sequence: only linked indices, at most
      one per adjacent pair of records. */
  function LinkedPairs(rs: seq<Sighting>): (ps: seq<nat>)
    ensures forall k :: 0 <= k < |ps| ==> Linked(rs, ps[k])
    ensures |rs| >= 1 ==> |ps| <= |rs| - 1
    ensures forall k, l :: 0 <= k < l < |ps| ==> ps[k] < ps[l]
  {
    LinkedBelow(rs, if |rs| == 0 then 0 else |rs| - 1)
  }

  /** The linked indices: exactly the i with equal ids at i and i + 1, each
      once and in increasing order. */
  lemma LinkedPairsExact(rs: seq<Sighting>)
    ensures forall i :: i in LinkedPairs(rs) <==> Linked(rs, i)
    ensures forall k, l :: 0 <= k < l < |LinkedPairs(rs)| ==> LinkedPairs(rs)[k] < LinkedPairs(rs)[l]
  {
    LinkedBelowComplete(rs, if |rs| == 0 then 0 else |rs| - 1);
  }

  /** Zero or one record give no pair to link. */
  lemma NoLinksForShortInput(rs: seq<Sighting>)
    requires |rs| <= 1
    ensures LinkedPairs(rs) == []
  {
  }

  /** The line traces of createMap: one per linked index, in order, each from
      record i to record i + 1. */
  method BuildSegments(rs: seq<Sighting>) returns (segs: seq<Segment>)
    ensures |segs| == |LinkedPairs(rs)|
    ensures forall k :: 0 <= k < |segs| ==> segs[k] == SegmentAt(rs, LinkedPairs(rs)[k])
  {
    segs := [];
    var i := 0;
    while i < |rs| - 1
      invariant 0 <= i <= if |rs| == 0 then 0 else |rs| - 1
      invariant |segs| == |LinkedBelow(rs, i)|
      invariant forall k :: 0 <= k < |segs| ==> segs[k] == SegmentAt(rs, LinkedBelow(rs, i)[k])
    {
      ghost var before := LinkedBelow(rs, i);
      if rs[i].id.Some? && rs[i + 1].id.Some? && rs[i].id.value == rs[i + 1].id.value {
        assert LinkedBelow(rs, i + 1) == before + [i];
        segs := segs + [SegmentAt(rs, i)];
      } else {
        assert LinkedBelow(rs, i + 1) == before;
      }
      i := i + 1;
    }
    assert LinkedBelow(rs, i) == LinkedPairs(rs);
  }

  /** A record whose id is missing is joined to neither neighbour, even to
      a neighbour whose id is missing as well. */
  lemma MissingIdNeverLinks(rs: seq<Sighting>, i: nat)
    requires i < |rs| && rs[i].id.None?
    ensures i !in LinkedPairs(rs)
    ensures i > 0 ==> i - 1 !in LinkedPairs(rs)
  {
    LinkedPairsExact(rs);
  }

  /** Records with ids 1, 1, 2, 1 give exactly one segment, from the first
      record to the second. */
  lemma OneLinkExample(a: Sighting, b: Sighting, c: Sighting, d: Sighting)
    requires a.id == Some("1") && b.id == Some("1") && c.id == Some("2") && d.id == Some("1")
    ensures LinkedPairs([a, b, c, d]) == [0]
  {
    var rs := [a, b, c, d];
    assert Linked(rs, 0) && !Linked(rs, 1) && !Linked(rs, 2);
    assert LinkedBelow(rs, 1) == [0];
    assert LinkedBelow(rs, 2) == [0];
  }
}
