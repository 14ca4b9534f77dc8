/** The map document of createMap, built from the sighting records: a fixed
    layout, one line trace per linked pair, and one marker per sighting with
    its opacity tier and hover text. */
module MapComposer {
  import opened TextWrap
  import opened Recency
  import opened Linking

  /** The fixed map view. */
  datatype Layout = Layout(width: int, height: int, style: string, zoom: int, center: Point)

  /** 1000 by 750, streets style, zoom 8, centred on Puget Sound. */
  const MapLayout: Layout :=
    Layout(1000, 750, "mapbox://styles/mapbox/streets-v12", 8, Point(-122.4825, 47.58675))

  /** One sighting marker: where it is, how opaque, and what its hover box says. */
  datatype Marker = Marker(at: Point, opacity: real, text: string)

  /** The figure: its layout, the line traces in the order they were added,
      then the one marker trace (one marker per record), and the legend flag. */
  datatype MapDocument = MapDocument(
    layout: Layout,
    lines: seq<Segment>,
    markers: seq<Marker>,
    showLegend: bool)

  /** The last line of every hover box. */
  const Attribution: string := "Data aggregated by Acartia"

  /** The time_diff column: one pass computes the normalised age of every
      record, a second inverts it, a third quantises it, each overwriting the
      column in place. The clock is read once per record, so record i is aged
      against its own reading nows[i]. */
  method ComputeOpacities(rs: seq<Sighting>, nows: seq<int>) returns (timeDiff: array<real>)
    requires |nows| == |rs|
    ensures fresh(timeDiff)
    ensures timeDiff.Length == |rs|
    ensures forall i :: 0 <= i < |rs| ==> timeDiff[i] == Opacity(nows[i], rs[i].created)
  {
    timeDiff := new real[|rs|];
    var i := 0;
    while i < |rs|
      invariant 0 <= i <= |rs|
      invariant forall j :: 0 <= j < i ==> timeDiff[j] == NormalizeTimeDiff(nows[j], rs[j].created)
    {
      timeDiff[i] := NormalizeTimeDiff(nows[i], rs[i].created);
      i := i + 1;
    }
    i := 0;
    while i < |rs|
      invariant 0 <= i <= |rs|
      invariant forall j :: 0 <= j < i ==> timeDiff[j] == 1.0 - NormalizeTimeDiff(nows[j], rs[j].created)
      invariant forall j :: i <= j < |rs| ==> timeDiff[j] == NormalizeTimeDiff(nows[j], rs[j].created)
    {
      timeDiff[i] := 1.0 - timeDiff[i];
      i := i + 1;
    }
    i := 0;
    while i < |rs|
      invariant 0 <= i <= |rs|
      invariant forall j :: 0 <= j < i ==> timeDiff[j] == Opacity(nows[j], rs[j].created)
      invariant forall j :: i <= j < |rs| ==> timeDiff[j] == 1.0 - NormalizeTimeDiff(nows[j], rs[j].created)
    {
      timeDiff[i] := ApplyTransScale(timeDiff[i]);
      i := i + 1;
    }
  }

  /** Reading the clock per record matters: one sighting aged against two
      readings one second apart falls on two sides of the six-hour boundary. */
  lemma ClockReadingSplitsTier(created: int)
    ensures Opacity(created + 21599, created) == 1.00
    ensures Opacity(created + 21600, created) == 0.75
  {
    OpacityByAge(created + 21599, created);
    OpacityByAge(created + 21600, created);
  }

  /** The hover box around four already wrapped fields. */
  function HoverBox(kind: string, count: string, created: string, comment: string): string
  {
    kind + (Br + (count + (Br + (created + (Br + (Br + (comment + (Br + (Br + Attribution)))))))))
  }

  /** The hover box of one record: its type, count and creation time each
      wrapped on its own, a blank line, the wrapped comment, a blank line and
      the attribution. */
  function HoverText(r: Sighting): (t: string)
    ensures Wrap(r.kind, DefaultWidth) + Br <= t
    ensures |t| >= |Br + Br + Attribution|
    ensures t[|t| - |Br + Br + Attribution|..] == Br + Br + Attribution
  {
    HoverBox(
      Wrap(r.kind, DefaultWidth),
      Wrap("Count: " + r.numSighted, DefaultWidth),
      Wrap("Created: " + r.createdText, DefaultWidth),
      Wrap("Comments: " + r.comment, DefaultWidth))
  }

  /** The display lines of a hover box are those of each field in turn, with
      an empty line before the comment and before the attribution. */
  lemma HoverBoxLines(a: string, b: string, c: string, d: string)
    ensures SplitBr(HoverBox(a, b, c, d)) ==
      SplitBr(a) + (SplitBr(b) + (SplitBr(c) + ([""] + (SplitBr(d) + ([""] + [Attribution])))))
  {
    assert forall i :: 0 <= i < |Attribution| ==> Attribution[i] != '<';
    FreeOfBrPrefix(Attribution, []);
    assert Attribution + [] == Attribution;
    SplitBrFree(Attribution);
    var x := Br + Attribution;
    SplitBrLead(Attribution);
    var y := d + (Br + x);
    SplitBrCons(d, x);
    var z := Br + y;
    SplitBrLead(y);
    var w := c + (Br + z);
    SplitBrCons(c, z);
    var v := b + (Br + w);
    SplitBrCons(b, w);
    SplitBrCons(a, v);
    assert HoverBox(a, b, c, d) == a + (Br + v);
  }

  /** The display lines of one record's hover text, field by field. */
  lemma HoverTextLines(r: Sighting)
    ensures SplitBr(HoverText(r)) ==
      SplitBr(Wrap(r.kind, DefaultWidth))
      + (SplitBr(Wrap("Count: " + r.numSighted, DefaultWidth))
      + (SplitBr(Wrap("Created: " + r.createdText, DefaultWidth))
      + ([""]
      + (SplitBr(Wrap("Comments: " + r.comment, DefaultWidth))
      + ([""] + [Attribution])))))
  {
    var a := Wrap(r.kind, DefaultWidth);
    var b := Wrap("Count: " + r.numSighted, DefaultWidth);
    var c := Wrap("Created: " + r.createdText, DefaultWidth);
    var d := Wrap("Comments: " + r.comment, DefaultWidth);
    HoverBoxLines(a, b, c, d);
    assert HoverText(r) == HoverBox(a, b, c, d);
  }

  /** Every line of a hover box fits in width when every line of each
      field does (the attribution is 26 characters). */
  lemma HoverBoxFits(a: string, b: string, c: string, d: string, width: int)
    requires |Attribution| <= width
    requires forall p :: p in SplitBr(a) ==> |p| <= width
    requires forall p :: p in SplitBr(b) ==> |p| <= width
    requires forall p :: p in SplitBr(c) ==> |p| <= width
    requires forall p :: p in SplitBr(d) ==> |p| <= width
    ensures forall p :: p in SplitBr(HoverBox(a, b, c, d)) ==> |p| <= width
  {
    HoverBoxLines(a, b, c, d);
  }

  /** Every display line of a hover box fits in the default width, whatever
      its fields hold. */
  lemma HoverLinesFit(r: Sighting)
    ensures forall p :: p in SplitBr(HoverText(r)) ==> |p| <= DefaultWidth
  {
    var a := Wrap(r.kind, DefaultWidth);
    var b := Wrap("Count: " + r.numSighted, DefaultWidth);
    var c := Wrap("Created: " + r.createdText, DefaultWidth);
    var d := Wrap("Comments: " + r.comment, DefaultWidth);
    WrapLinesFit(r.kind, DefaultWidth);
    WrapLinesFit("Count: " + r.numSighted, DefaultWidth);
    WrapLinesFit("Created: " + r.createdText, DefaultWidth);
    WrapLinesFit("Comments: " + r.comment, DefaultWidth);
    HoverBoxFits(a, b, c, d, DefaultWidth);
    assert HoverText(r) == HoverBox(a, b, c, d);
  }

  /** createMap with the clock injected: the layout, the line traces of the
      linker, and one marker per record, in record order, at its position,
      with the opacity of its age at its own clock reading and its hover
      text; no legend. */
  method ComposeMap(rs: seq<Sighting>, nows: seq<int>) returns (doc: MapDocument)
    requires |nows| == |rs|
    ensures doc.layout == MapLayout && !doc.showLegend
    ensures |doc.lines| == |LinkedPairs(rs)|
    ensures forall k :: 0 <= k < |doc.lines| ==> doc.lines[k] == SegmentAt(rs, LinkedPairs(rs)[k])
    ensures |doc.markers| == |rs|
    ensures forall i :: 0 <= i < |rs| ==>
              doc.markers[i] == Marker(Position(rs[i]), Opacity(nows[i], rs[i].created), HoverText(rs[i]))
  {
    var lines := BuildSegments(rs);
    var timeDiff := ComputeOpacities(rs, nows);
    var markers := seq(|rs|, i requires 0 <= i < |rs| reads timeDiff =>
      Marker(Position(rs[i]), timeDiff[i], HoverText(rs[i])));
    doc := MapDocument(MapLayout, lines, markers, false);
  }

  /** Three records with ids A, A, B, seen 2, 30 and 2000 minutes before
      now: one line, from the first record to the second; opacities 1.00,
      1.00 and 0.25 (the oldest falls through the first threshold, since one
      minus its normalised age is negative). */
  lemma ThreeSightingExample(now: int, a: Sighting, b: Sighting, c: Sighting)
    requires a.id == Some("A") && b.id == Some("A") && c.id == Some("B")
    requires a.created == now - 2 * 60 && b.created == now - 30 * 60 && c.created == now - 2000 * 60
    ensures LinkedPairs([a, b, c]) == [0]
    ensures Opacity(now, a.created) == 1.00
    ensures Opacity(now, b.created) == 1.00
    ensures Opacity(now, c.created) == 0.25
  {
    var rs := [a, b, c];
    assert Linked(rs, 0) && !Linked(rs, 1);
    assert LinkedBelow(rs, 1) == [0];
    OpacityByAge(now, a.created);
    OpacityByAge(now, b.created);
    OpacityByAge(now, c.created);
  }
}
