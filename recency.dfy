/** Sighting age and marker opacity: normalizeTimeDiff turns the age of a
    sighting into a fraction of one day, applyTransScale quantises a value
    onto four opacity tiers. Instants are whole seconds on one common clock;
    the caller supplies "now". */
module Recency {

  /** One day in minutes: the normalisation window (max_time). */
  const DayMinutes: int := 1440

  /** The four opacity tiers. */
  const Tiers: set<real> := {0.25, 0.50, 0.75, 1.00}

  function Abs(x: int): (r: nat)
    ensures r == x || r == -x
  {
    if x < 0 then -x else x
  }

  /** abs(total_seconds // 60): whole minutes between now and the sighting,
      floored BEFORE the absolute value is taken. A past sighting counts its
      completed minutes; a sighting in the future counts every minute it has
      started, the last one included. */
  function MinutesApart(now: int, sighted: int): (m: nat)
    ensures 0 <= now - sighted ==> m * 60 <= now - sighted < m * 60 + 60
    ensures now - sighted < 0 ==> m * 60 - 60 < sighted - now <= m * 60
  {
    Abs((now - sighted) / 60)
  }

  /** normalizeTimeDiff with the clock injected: the age in days, discretised
      to whole minutes. It is not capped at 1: a sighting more than a day
      away from now gives a value above 1. */
  function NormalizeTimeDiff(now: int, sighted: int): (r: real)
    ensures 0.0 <= r
    ensures r * DayMinutes as real == MinutesApart(now, sighted) as real
  {
    MinutesApart(now, sighted) as real / DayMinutes as real
  }

  /** The day boundary of the normalised age, stated on seconds: exactly 1.0
      for a sighting 86400 to 86459 seconds old, above 1.0 from 86460 seconds
      on; a sighting in the future reaches 1.0 already 86341 seconds ahead. */
  lemma NormalizeDayBoundary(now: int, sighted: int)
    ensures NormalizeTimeDiff(now, sighted) == 1.0 <==>
              86400 <= now - sighted < 86460 || -86400 <= now - sighted < -86340
    ensures NormalizeTimeDiff(now, sighted) > 1.0 <==>
              now - sighted >= 86460 || now - sighted < -86400
    ensures NormalizeTimeDiff(now, sighted) == 0.0 <==> 0 <= now - sighted < 60
  {
    var m := MinutesApart(now, sighted);
    assert NormalizeTimeDiff(now, sighted) == 1.0 <==> m == 1440;
    assert NormalizeTimeDiff(now, sighted) > 1.0 <==> m > 1440;
  }

  /** applyTransScale: the first tier at or above x, and the top tier for
      every x above 0.75 (values above 1 included). */
  function ApplyTransScale(x: real): (r: real)
    ensures r in Tiers
    ensures x <= r || r == 1.00
    ensures r == 0.25 || r - 0.25 < x
  {
    if x <= 0.25 then 0.25
    else if x <= 0.50 then 0.50
    else if x <= 0.75 then 0.75
    else 1.00
  }

  /** The contract of ApplyTransScale determines its result. */
  lemma TransScaleUnique(x: real, t: real)
    requires t in Tiers
    requires x <= t || t == 1.00
    requires t == 0.25 || t - 0.25 < x
    ensures t == ApplyTransScale(x)
  {
  }

  /** A larger input never gets a lower tier. */
  lemma TransScaleMonotone(x: real, y: real)
    requires x <= y
    ensures ApplyTransScale(x) <= ApplyTransScale(y)
  {
  }

  /** The tier boundaries map to themselves; everything at or below the
      lowest boundary (negative values too) to the lowest tier. */
  lemma TransScaleBoundaries(x: real)
    ensures ApplyTransScale(0.25) == 0.25 && ApplyTransScale(0.50) == 0.50
    ensures ApplyTransScale(0.75) == 0.75 && ApplyTransScale(1.00) == 1.00
    ensures x <= 0.25 ==> ApplyTransScale(x) == 0.25
    ensures x > 0.75 ==> ApplyTransScale(x) == 1.00
  {
  }

  /** The marker opacity of one sighting: the normalised age inverted, then
      quantised. */
  function Opacity(now: int, sighted: int): (r: real)
    ensures r in Tiers
  {
    ApplyTransScale(1.0 - NormalizeTimeDiff(now, sighted))
  }

  /** Opacity by whole minutes of age: under six hours the top tier, then one
      tier less every six hours, and the lowest tier from eighteen hours on,
      with no upper limit (a sighting days old stays at 0.25). */
  lemma OpacityByAge(now: int, sighted: int)
    ensures Opacity(now, sighted) == 1.00 <==> MinutesApart(now, sighted) < 360
    ensures Opacity(now, sighted) == 0.75 <==> 360 <= MinutesApart(now, sighted) < 720
    ensures Opacity(now, sighted) == 0.50 <==> 720 <= MinutesApart(now, sighted) < 1080
    ensures Opacity(now, sighted) == 0.25 <==> 1080 <= MinutesApart(now, sighted)
  {
    var m := MinutesApart(now, sighted) as real;
    var x := 1.0 - NormalizeTimeDiff(now, sighted);
    assert x * 1440.0 == 1440.0 - m;
  }
}
