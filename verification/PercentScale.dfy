/** The percent scales of the status command and the equalizer, over exact reals
    (src/remoteControlCommands/statusCommand.cpp:83-162, src/helpers/equalizerBands.h:5-16). */
module PercentScale {
  import opened Options

  datatype Property =
    | Volume | Balance | Speed | Reverb | Echo | Chorus | Flanger | TrueBass | Enhancer | Tempo | Pitch | Preamp

  /** Two straight segments meeting at the pivot; without a pivot, one segment from the minimum. */
  datatype Range = Range(property: Property, min: real, max: real, pivotPercent: int, pivotValue: real) {
    predicate Valid() {
      && 0 <= pivotPercent < 100
      && min <= pivotValue < max
      && (pivotPercent == 0 <==> pivotValue == min)
    }
  }

  function Straight(property: Property, min: real, max: real): Range {
    Range(property, min, max, 0, min)
  }

  const EQUALIZER_BAND_RANGE_DB := 15.0

  function RangeFor(id: int): (r: Option<Range>)
    ensures r.Some? ==> r.value.Valid()
  {
    match id
    case 1 => Some(Straight(Volume, 0.0, 1.0))
    case 2 => Some(Straight(Balance, -1.0, 1.0))
    case 3 => Some(Range(Speed, 0.5, 3.0, 50, 1.0))
    case 6 => Some(Straight(Reverb, 0.0, 1.0))
    case 7 => Some(Straight(Echo, 0.0, 1.0))
    case 8 => Some(Straight(Chorus, 0.0, 1.0))
    case 9 => Some(Straight(Flanger, 0.0, 1.0))
    case 48 => Some(Straight(TrueBass, 0.0, 2.0))
    case 49 => Some(Straight(Enhancer, 1.0, 5.0))
    case 50 => Some(Range(Tempo, 0.5, 3.0, 28, 1.0))
    case 51 => Some(Straight(Pitch, -10.0, 10.0))
    case 52 => Some(Straight(Preamp, -EQUALIZER_BAND_RANGE_DB, EQUALIZER_BAND_RANGE_DB))
    case _ => None
  }

  /** The straight line through (from, fromPercent) and (to, toPercent), read in both directions. */
  function Line(v: real, from: real, to: real, fromPercent: real, toPercent: real): real
    requires from < to
  {
    fromPercent + (v - from) / (to - from) * (toPercent - fromPercent)
  }

  function LineBack(p: real, from: real, to: real, fromPercent: real, toPercent: real): real
    requires fromPercent < toPercent
  {
    from + (to - from) * (p - fromPercent) / (toPercent - fromPercent)
  }

  function ToPercent(value: real, r: Range): int
    requires r.Valid()
  {
    var lower := value < r.pivotValue && r.pivotPercent > 0;
    if lower then Line(value, r.min, r.pivotValue, 0.0, r.pivotPercent as real).Floor
    else Line(value, r.pivotValue, r.max, r.pivotPercent as real, 100.0).Floor
  }

  function FromPercent(percent: int, r: Range): real
    requires r.Valid()
  {
    var lower := percent < r.pivotPercent && r.pivotPercent > 0;
    if lower then LineBack(percent as real, r.min, r.pivotValue, 0.0, r.pivotPercent as real)
    else LineBack(percent as real, r.pivotValue, r.max, r.pivotPercent as real, 100.0)
  }

  function EqualizerDbToPercent(db: real): int {
    ((db + EQUALIZER_BAND_RANGE_DB) / (2.0 * EQUALIZER_BAND_RANGE_DB) * 100.0).Floor
  }

  function EqualizerPercentToDb(percent: int): real {
    -EQUALIZER_BAND_RANGE_DB + 2.0 * EQUALIZER_BAND_RANGE_DB * percent as real / 100.0
  }

  // ---------------------------------------------------------------- one line

  lemma DivideLe(a: real, b: real, c: real)
    requires b > 0.0
    ensures a <= c * b <==> a / b <= c
    ensures c * b <= a <==> c <= a / b
  {
    assert a == (a / b) * b;
    if a / b <= c {
      MulLe(a / b, c, b);
    } else {
      MulLt(c, a / b, b);
    }
    if c <= a / b {
      MulLe(c, a / b, b);
    } else {
      MulLt(a / b, c, b);
    }
  }

  lemma MulLe(x: real, y: real, b: real)
    requires x <= y && b > 0.0
    ensures x * b <= y * b
  {}

  lemma MulLt(x: real, y: real, b: real)
    requires x < y && b > 0.0
    ensures x * b < y * b
  {}

  lemma CrossMultiply(dp: real, dv: real, k: real, m: real)
    requires k > 0.0 && m > 0.0
    ensures dp <= dv / k * m <==> k * dp / m <= dv
  {
    var a, b := dv * m, k * dp;
    ProductOverQuotient(dv, k, m);
    DivideLe(a, k, dp);
    DivideLe(b, m, dv);
    Commute(dp, k);
  }

  lemma Commute(x: real, y: real)
    ensures x * y == y * x
  {}

  /** A line with positive slope and its inverse order points the same way. */
  lemma LineGalois(v: real, p: real, from: real, to: real, fp: real, tp: real)
    requires from < to && fp < tp
    ensures p <= Line(v, from, to, fp, tp) <==> LineBack(p, from, to, fp, tp) <= v
  {
    CrossMultiply(p - fp, v - from, to - from, tp - fp);
    var up, down := (v - from) / (to - from) * (tp - fp), (to - from) * (p - fp) / (tp - fp);
    assert Line(v, from, to, fp, tp) == fp + up;
    assert LineBack(p, from, to, fp, tp) == from + down;
  }

  lemma ProductOverQuotient(a: real, k: real, m: real)
    requires k > 0.0
    ensures a / k * m == (a * m) / k
  {
    var q := a / k;
    assert q * k == a;
    assert (q * m) * k == (q * k) * m;
    assert ((q * m) * k) / k == q * m;
  }

  lemma LineEnds(from: real, to: real, fp: real, tp: real)
    requires from < to && fp < tp
    ensures LineBack(fp, from, to, fp, tp) == from
    ensures LineBack(tp, from, to, fp, tp) == to
  {}

  // ---------------------------------------------------------------- the scale

  /** Reading and writing form a Galois connection, across both segments and the pivot. */
  lemma Galois(r: Range, p: int, v: real)
    requires r.Valid()
    ensures p <= ToPercent(v, r) <==> FromPercent(p, r) <= v
  {
    var pp := r.pivotPercent as real;
    if r.pivotPercent > 0 {
      LineGalois(v, p as real, r.min, r.pivotValue, 0.0, pp);
      LineGalois(v, pp, r.min, r.pivotValue, 0.0, pp);
      LineEnds(r.min, r.pivotValue, 0.0, pp);
    }
    LineGalois(v, p as real, r.pivotValue, r.max, pp, 100.0);
    LineGalois(v, pp, r.pivotValue, r.max, pp, 100.0);
    LineEnds(r.pivotValue, r.max, pp, 100.0);
  }

  lemma LineBackIncreasing(p: real, q: real, from: real, to: real, fp: real, tp: real)
    requires from < to && fp < tp && p < q
    ensures LineBack(p, from, to, fp, tp) < LineBack(q, from, to, fp, tp)
  {
    var k, m := to - from, tp - fp;
    var x, y := k * (p - fp) / m, k * (q - fp) / m;
    MulLt(p - fp, q - fp, k);
    Commute(p - fp, k);
    Commute(q - fp, k);
    DivideLe(k * (q - fp), m, x);
    assert x * m == k * (p - fp);
  }

  lemma FromPercentIncreasing(r: Range, p: int, q: int)
    requires r.Valid() && p < q
    ensures FromPercent(p, r) < FromPercent(q, r)
  {
    var pp := r.pivotPercent as real;
    if r.pivotPercent > 0 {
      LineEnds(r.min, r.pivotValue, 0.0, pp);
      LineBackIncreasing(p as real, q as real, r.min, r.pivotValue, 0.0, pp);
      if p < r.pivotPercent {
        LineBackIncreasing(p as real, pp, r.min, r.pivotValue, 0.0, pp);
      }
    }
    LineEnds(r.pivotValue, r.max, pp, 100.0);
    LineBackIncreasing(p as real, q as real, r.pivotValue, r.max, pp, 100.0);
    if r.pivotPercent < q {
      LineBackIncreasing(pp, q as real, r.pivotValue, r.max, pp, 100.0);
    }
  }

  /** Each percentage stands for the values from its own up to the next one's. */
  lemma PercentCells(r: Range, p: int, v: real)
    requires r.Valid()
    ensures ToPercent(v, r) == p <==> FromPercent(p, r) <= v < FromPercent(p + 1, r)
  {
    hide ToPercent, FromPercent;
    Galois(r, p, v);
    Galois(r, p + 1, v);
  }

  /** What is written is read back. */
  lemma RoundTrip(r: Range, p: int)
    requires r.Valid()
    ensures ToPercent(FromPercent(p, r), r) == p
  {
    hide ToPercent, FromPercent;
    PercentCells(r, p, FromPercent(p, r));
    FromPercentIncreasing(r, p, p + 1);
  }

  /** Reading is monotone. */
  lemma ToPercentMonotone(r: Range, v: real, w: real)
    requires r.Valid() && v <= w
    ensures ToPercent(v, r) <= ToPercent(w, r)
  {
    hide ToPercent, FromPercent;
    Galois(r, ToPercent(v, r), v);
    Galois(r, ToPercent(v, r), w);
  }

  /** A value that arrives lower than it was sent, by less than one percent step, reads as the
      percentage sent or the one below, and as the one below exactly when it arrives lower at all. */
  lemma PerturbedDown(r: Range, p: int, v: real)
    requires r.Valid() && FromPercent(p - 1, r) <= v <= FromPercent(p, r)
    ensures ToPercent(v, r) == if v == FromPercent(p, r) then p else p - 1
  {
    hide ToPercent, FromPercent;
    PercentCells(r, p - 1, v);
    RoundTrip(r, p);
  }

  lemma Ends(r: Range)
    requires r.Valid()
    ensures FromPercent(0, r) == r.min
    ensures FromPercent(r.pivotPercent, r) == r.pivotValue
    ensures FromPercent(100, r) == r.max
  {
    var pp := r.pivotPercent as real;
    if r.pivotPercent > 0 {
      LineEnds(r.min, r.pivotValue, 0.0, pp);
    }
    LineEnds(r.pivotValue, r.max, pp, 100.0);
  }

  function Clamp(v: real, min: real, max: real): real
    requires min <= max
  {
    if v < min then min else if v > max then max else v
  }

  /** A range property of the status command, after an optional write: what the player answers, or
      the minimum if it does not (src/remoteControlCommands/statusCommand.cpp:185-190). */
  function AccessRange(r: Range, answer: Option<real>): int
    requires r.Valid()
  {
    ToPercent(if answer.Some? then answer.value else r.min, r)
  }

  /** With a player that limits a property to its range, a client that writes any percentage reads
      back that percentage limited to 0..100; without an answer it reads 0. */
  lemma WriteThenRead(r: Range, p: int)
    requires r.Valid()
    ensures AccessRange(r, Some(Clamp(FromPercent(p, r), r.min, r.max))) ==
      if p < 0 then 0 else if p > 100 then 100 else p
    ensures AccessRange(r, None) == 0
  {
    hide ToPercent, FromPercent;
    Ends(r);
    RoundTrip(r, 0);
    RoundTrip(r, p);
    RoundTrip(r, 100);
    if p < 0 {
      FromPercentIncreasing(r, p, 0);
    } else if p > 0 {
      FromPercentIncreasing(r, 0, p);
    }
    if p > 100 {
      FromPercentIncreasing(r, 100, p);
    } else if p < 100 {
      FromPercentIncreasing(r, p, 100);
    }
  }

  /** Distinct status identifiers are distinct properties: writing one leaves the others alone. */
  lemma PropertiesDistinct(i: int, j: int)
    requires i != j && RangeFor(i).Some? && RangeFor(j).Some?
    ensures RangeFor(i).value.property != RangeFor(j).value.property
  {}

  /** The equalizer's bands use the scale of a straight range of plus or minus 15 dB. */
  lemma EqualizerIsARange(p: int, db: real)
    ensures var r := Straight(Preamp, -EQUALIZER_BAND_RANGE_DB, EQUALIZER_BAND_RANGE_DB);
      && r.Valid()
      && EqualizerDbToPercent(db) == ToPercent(db, r)
      && EqualizerPercentToDb(p) == FromPercent(p, r)
      && (p <= EqualizerDbToPercent(db) <==> EqualizerPercentToDb(p) <= db)
      && EqualizerDbToPercent(EqualizerPercentToDb(p)) == p
  {
    var r := Straight(Preamp, -EQUALIZER_BAND_RANGE_DB, EQUALIZER_BAND_RANGE_DB);
    Galois(r, p, db);
    RoundTrip(r, p);
  }

  lemma Centre(property: Property, m: real)
    requires m > 0.0
    ensures FromPercent(50, Straight(property, -m, m)) == 0.0
  {
    assert LineBack(50.0, -m, m, 0.0, 100.0) == -m + (2.0 * m) * 50.0 / 100.0;
  }

  /** The percentages the client resets to are the neutral settings: balance centred, speed and tempo
      at normal, no enhancement, pitch and preamp at zero. */
  lemma ClientResets()
    ensures RangeFor(2).Some? && FromPercent(50, RangeFor(2).value) == 0.0
    ensures RangeFor(3).Some? && FromPercent(50, RangeFor(3).value) == 1.0
    ensures RangeFor(49).Some? && FromPercent(0, RangeFor(49).value) == 1.0
    ensures RangeFor(50).Some? && FromPercent(28, RangeFor(50).value) == 1.0
    ensures RangeFor(51).Some? && FromPercent(50, RangeFor(51).value) == 0.0
    ensures RangeFor(52).Some? && FromPercent(50, RangeFor(52).value) == 0.0
  {
    hide FromPercent;
    Centre(Balance, 1.0);
    Ends(RangeFor(3).value);
    Ends(RangeFor(49).value);
    Ends(RangeFor(50).value);
    Centre(Pitch, 10.0);
    Centre(Preamp, EQUALIZER_BAND_RANGE_DB);
  }

  /** Writing a percentage to a status identifier sends the player this value of this property. */
  predicate Sends(id: int, percent: int, property: Property, value: real) {
    RangeFor(id).Some? && RangeFor(id).value.property == property && FromPercent(percent, RangeFor(id).value) == value
  }

  /** Which status identifiers are scales. */
  lemma ScalesExactly(id: int)
    ensures RangeFor(id).Some? <==> id in {1, 2, 3, 6, 7, 8, 9, 48, 49, 50, 51, 52}
  {}

  lemma EndsSent(id: int, r: Range)
    requires RangeFor(id) == Some(r)
    ensures Sends(id, 0, r.property, r.min) && Sends(id, 100, r.property, r.max)
    ensures Sends(id, r.pivotPercent, r.property, r.pivotValue)
  {
    hide FromPercent, RangeFor;
    Ends(r);
  }

  lemma CentreSent(id: int, property: Property, m: real)
    requires m > 0.0 && RangeFor(id) == Some(Straight(property, -m, m))
    ensures Sends(id, 50, property, 0.0)
  {
    hide FromPercent, RangeFor;
    Centre(property, m);
  }

  /** The ends of every scale, and where the two bent ones bend, as the protocol description lists them. */
  lemma StatusTable()
    ensures Sends(1, 0, Volume, 0.0) && Sends(1, 100, Volume, 1.0)
    ensures Sends(2, 0, Balance, -1.0) && Sends(2, 50, Balance, 0.0) && Sends(2, 100, Balance, 1.0)
    ensures Sends(3, 0, Speed, 0.5) && Sends(3, 50, Speed, 1.0) && Sends(3, 100, Speed, 3.0)
    ensures Sends(6, 0, Reverb, 0.0) && Sends(6, 100, Reverb, 1.0)
    ensures Sends(7, 0, Echo, 0.0) && Sends(7, 100, Echo, 1.0)
    ensures Sends(8, 0, Chorus, 0.0) && Sends(8, 100, Chorus, 1.0)
    ensures Sends(9, 0, Flanger, 0.0) && Sends(9, 100, Flanger, 1.0)
    ensures Sends(48, 0, TrueBass, 0.0) && Sends(48, 100, TrueBass, 2.0)
    ensures Sends(49, 0, Enhancer, 1.0) && Sends(49, 100, Enhancer, 5.0)
    ensures Sends(50, 0, Tempo, 0.5) && Sends(50, 28, Tempo, 1.0) && Sends(50, 100, Tempo, 3.0)
    ensures Sends(51, 0, Pitch, -10.0) && Sends(51, 50, Pitch, 0.0) && Sends(51, 100, Pitch, 10.0)
    ensures Sends(52, 0, Preamp, -15.0) && Sends(52, 50, Preamp, 0.0) && Sends(52, 100, Preamp, 15.0)
  {
    hide Sends;
    EndsSent(1, Straight(Volume, 0.0, 1.0));
    EndsSent(2, Straight(Balance, -1.0, 1.0));
    EndsSent(3, Range(Speed, 0.5, 3.0, 50, 1.0));
    EndsSent(6, Straight(Reverb, 0.0, 1.0));
    EndsSent(7, Straight(Echo, 0.0, 1.0));
    EndsSent(8, Straight(Chorus, 0.0, 1.0));
    EndsSent(9, Straight(Flanger, 0.0, 1.0));
    EndsSent(48, Straight(TrueBass, 0.0, 2.0));
    EndsSent(49, Straight(Enhancer, 1.0, 5.0));
    EndsSent(50, Range(Tempo, 0.5, 3.0, 28, 1.0));
    EndsSent(51, Straight(Pitch, -10.0, 10.0));
    EndsSent(52, Straight(Preamp, -15.0, 15.0));
    CentreSent(2, Balance, 1.0);
    CentreSent(51, Pitch, 10.0);
    CentreSent(52, Preamp, 15.0);
  }

  /** The equalizer's bands reach 15 dB either way, with 0 dB in the middle. */
  lemma EqualizerEnds()
    ensures EqualizerPercentToDb(0) == -15.0 && EqualizerPercentToDb(50) == 0.0 && EqualizerPercentToDb(100) == 15.0
    ensures EqualizerDbToPercent(-15.0) == 0 && EqualizerDbToPercent(0.0) == 50 && EqualizerDbToPercent(15.0) == 100
  {
    EqualizerIsARange(0, -15.0);
    EqualizerIsARange(50, 0.0);
    EqualizerIsARange(100, 15.0);
  }
}
