/** The relative validity period octet of section 9.2.3.12.1 of GSM 03.40. */
module ValidityPeriod {
  predicate IsOctet(vp: int) { 0 <= vp < 256 }

  /** The minutes that parse adds for an octet. */
  function Minutes(vp: int): (minutes: int)
    requires IsOctet(vp)
    ensures minutes >= 5
  {
    if vp < 144 then (vp + 1) * 5
    else if vp < 168 then 12 * 60 + (vp - 143) * 30
    else if vp < 197 then 24 * 60 * (vp - 166)
    else 7 * 24 * 60 * (vp - 192)
  }

  /** The octet that write puts for a number of minutes. */
  function Octet(minutes: int): (vp: int)
    ensures IsOctet(vp)
  {
    var m := if minutes < 1 then 1 else minutes;
    var v := if m <= 720 then (m - 1) / 5
             else if m < 1440 then 143 + (m - 720) / 30
             else if m < 43200 then 166 + m / (24 * 60)
             else 192 + m / (7 * 24 * 60);
    if v > 255 then 255 else v
  }

  /** seconds / 60 truncates toward zero. */
  function OctetOfSeconds(seconds: int): int {
    Octet(if seconds >= 0 then seconds / 60 else -(-seconds / 60))
  }

  ghost predicate Representable(minutes: int) { exists vp | IsOctet(vp) :: Minutes(vp) == minutes }

  /** The four formulas join up: a larger octet is a longer period. */
  lemma MinutesGrow(a: int, b: int)
    requires IsOctet(a) && IsOctet(b)
    ensures a < b <==> Minutes(a) < Minutes(b)
  {
  }

  lemma OctetMonotone(a: int, b: int)
    requires a <= b
    ensures Octet(a) <= Octet(b)
  {
    OctetFormula(a, if a < 1 then 1 else a);
    OctetFormula(b, if b < 1 then 1 else b);
  }

  /** Bounds that place the result of each formula. */
  lemma OctetFormula(minutes: int, m: int)
    requires m == if minutes < 1 then 1 else minutes
    ensures m <= 720 ==> 0 <= Octet(minutes) <= 143 && 5 * Octet(minutes) < m <= 5 * Octet(minutes) + 5
    ensures 720 < m < 1440 ==> 143 <= Octet(minutes) <= 166
    ensures 720 < m < 1440 ==> 30 * (Octet(minutes) - 143) <= m - 720 < 30 * (Octet(minutes) - 142)
    ensures 1440 <= m < 43200 ==> 167 <= Octet(minutes) <= 195
    ensures 1440 <= m < 43200 ==> 1440 * (Octet(minutes) - 166) <= m < 1440 * (Octet(minutes) - 165)
    ensures m >= 43200 ==> 196 <= Octet(minutes) <= 255 && 10080 * (Octet(minutes) - 192) <= m
    ensures m >= 43200 ==> Octet(minutes) == 255 || m < 10080 * (Octet(minutes) - 191)
  {
  }

  /** Encoding the minutes of an octet gives the octet back. */
  lemma OctetRoundTrip(vp: int)
    requires IsOctet(vp)
    ensures Octet(Minutes(vp)) == vp
  {
    OctetFormula(Minutes(vp), Minutes(vp));
  }

  /** Up to 720 minutes the period is rounded up to the least one there is; from 720 on it is
      rounded down to the greatest. */
  lemma NearestPeriod(minutes: int, vp: int)
    requires IsOctet(vp)
    ensures 1 <= minutes <= 720 ==> minutes <= Minutes(Octet(minutes))
    ensures 1 <= minutes <= 720 && minutes <= Minutes(vp) ==> Minutes(Octet(minutes)) <= Minutes(vp)
    ensures minutes >= 720 ==> Minutes(Octet(minutes)) <= minutes
    ensures minutes >= 720 && Minutes(vp) <= minutes ==> Minutes(vp) <= Minutes(Octet(minutes))
  {
    OctetFormula(minutes, if minutes < 1 then 1 else minutes);
    MinutesGrow(vp, Octet(minutes));
    if minutes >= 720 && Minutes(vp) <= minutes {
      OctetRoundTrip(vp);
      OctetMonotone(Minutes(vp), minutes);
    }
  }

  /** The steps of five minutes, half hours, days and weeks, each in its range. */
  predicate InSteps(minutes: int) {
    || (5 <= minutes <= 720 && minutes % 5 == 0)
    || (720 < minutes <= 1440 && minutes % 30 == 0)
    || (2880 <= minutes <= 43200 && minutes % 1440 == 0)
    || (50400 <= minutes <= 635040 && minutes % 10080 == 0)
  }

  /** A period is kept exactly when it is in steps, and those are all that octets stand for;
      short of 720 minutes it may grow, above it shrink. */
  lemma KeptIffInSteps(minutes: int)
    ensures Minutes(Octet(minutes)) == minutes <==> InSteps(minutes)
    ensures Representable(minutes) <==> InSteps(minutes)
  {
    OctetFormula(minutes, if minutes < 1 then 1 else minutes);
    if Representable(minutes) {
      var vp :| IsOctet(vp) && Minutes(vp) == minutes;
      OctetRoundTrip(vp);
    }
  }

  /** Of the minutes of an octet, 1 to 60 seconds less give the same octet again exactly when
      it counts in steps of five minutes: these are encoded upwards, all others downwards. */
  lemma LessAMinute(vp: int, elapsed: int)
    requires IsOctet(vp) && 1 <= elapsed <= 60
    ensures OctetOfSeconds(60 * Minutes(vp) - elapsed) == vp <==> vp < 144
  {
    var m := Minutes(vp);
    assert (60 * m - elapsed) / 60 == m - 1;
    OctetFormula(m - 1, m - 1);
  }
}
