/** Satellite orbital positions and the transponder text shown for a tuner
    (`getOrb` and `getOrbitalText`). Positions are whole tenths of a degree
    east of 0°; the text mirrors the western half of the circle. */
module Orbital {
  import opened Text
  import opened Wrappers

  /** The direction letter and the tenths of a degree in that direction. */
  datatype Reading = Reading(tenths: int, direction: string)

  const Degree: char := '\U{00B0}'

  /** `getOrb`: "D.d° E" east of the meridian up to 180.0°, "D.d° W" beyond,
      where the western distance is 3600 - pos tenths. */
  function GetOrb(pos: int): string {
    if pos > 1800 then OrbText(3600 - pos, "W") else OrbText(pos, "E")
  }

  /** "D.d° X" for a distance of `tenths` tenths of a degree. */
  function OrbText(tenths: int, direction: string): string {
    IntToString(tenths / 10) + "." + IntToString(tenths % 10) + [Degree, ' '] + direction
  }

  /** Reads a text of the form "D.d° X" back into tenths and direction. */
  function ParseOrb(s: string): Option<Reading> {
    var i := IndexOf(s, '.');
    if i + 4 <= |s| && IsIntLiteral(s[..i]) && IsDigit(s[i + 1]) && s[i + 2..i + 4] == [Degree, ' '] then
      Some(Reading(ParseInt(s[..i]) * 10 + DigitValue(s[i + 1]), s[i + 4..]))
    else
      None
  }

  lemma ParseOrbOf(whole: int, d: nat, direction: string)
    requires d < 10
    ensures ParseOrb(IntToString(whole) + "." + [DigitChar(d)] + [Degree, ' '] + direction)
      == Some(Reading(whole * 10 + d, direction))
  {
    var w := IntToString(whole);
    var s := IntToString(whole) + "." + [DigitChar(d)] + [Degree, ' '] + direction;
    IntToStringHasNo(whole, '.');
    assert s[|w|] == '.';
    assert forall j :: 0 <= j < |w| ==> s[j] == w[j];
    assert IndexOf(s, '.') == |w|;
    assert s[..|w|] == w;
    ParseIntToString(whole);
    assert s[|w| + 1] == DigitChar(d);
    assert s[|w| + 2..|w| + 4] == [Degree, ' '];
    assert s[|w| + 4..] == direction;
  }

  /** The text reads back as the distance and direction it was made from:
      the eastern reading for positions up to 1800, the mirrored western one
      beyond. */
  lemma GetOrbReadsBack(pos: int)
    ensures pos <= 1800 ==> ParseOrb(GetOrb(pos)) == Some(Reading(pos, "E"))
    ensures pos > 1800 ==> ParseOrb(GetOrb(pos)) == Some(Reading(3600 - pos, "W"))
  {
    if pos > 1800 {
      WestReadsBack(pos, 3600 - pos);
    } else {
      EastReadsBack(pos);
    }
  }

  lemma WestReadsBack(pos: int, w: int)
    requires pos > 1800 && w == 3600 - pos
    ensures ParseOrb(GetOrb(pos)) == Some(Reading(w, "W"))
  {
    WestText(pos, w);
    OrbTextReadsBack(w, "W");
  }

  lemma WestText(pos: int, w: int)
    requires pos > 1800 && w == 3600 - pos
    ensures GetOrb(pos) == OrbText(w, "W")
  {
  }

  lemma EastReadsBack(pos: int)
    requires pos <= 1800
    ensures ParseOrb(GetOrb(pos)) == Some(Reading(pos, "E"))
  {
    OrbTextReadsBack(pos, "E");
  }

  lemma OrbTextReadsBack(m: int, direction: string)
    ensures ParseOrb(OrbText(m, direction)) == Some(Reading(m, direction))
  {
    assert IntToString(m % 10) == [DigitChar(m % 10)];
    ParseOrbOf(m / 10, m % 10, direction);
    assert (m / 10) * 10 + m % 10 == m;
  }

  /** For positions on the circle the whole-degree part shown never exceeds 180,
      and the direction is west exactly for positions past 180.0°. */
  lemma GetOrbOnCircle(pos: int)
    requires 0 <= pos <= 3600
    ensures ParseOrb(GetOrb(pos)).Some?
    ensures 0 <= ParseOrb(GetOrb(pos)).value.tenths <= 1800
    ensures ParseOrb(GetOrb(pos)).value.tenths / 10 <= 180
    ensures ParseOrb(GetOrb(pos)).value.direction == "W" <==> pos > 1800
  {
    GetOrbReadsBack(pos);
  }

  lemma GetOrbWestExamples()
    ensures GetOrb(2700) == "90.0" + [Degree] + " W"
    ensures GetOrb(3550) == "5.0" + [Degree] + " W"
  {
    assert NatToString(90) == "90";
  }

  lemma GetOrbEastExamples()
    ensures GetOrb(1200) == "120.0" + [Degree] + " E"
    ensures GetOrb(192) == "19.2" + [Degree] + " E"
  {
    assert NatToString(120) == "120";
    assert NatToString(19) == "19";
  }

  /** What a frontend reports about the transponder it is tuned to. */
  datatype Transponder = Transponder(tunerType: string, orbitalPosition: int, system: Option<int>)

  /** `getOrbitalText`: no text without transponder data, the orbital position
      for a satellite tuner, otherwise the tuner type with "2" appended for the
      second-generation system. */
  function OrbitalText(info: Option<Transponder>): string {
    match info
    case None => ""
    case Some(t) =>
      if t.tunerType == "DVB-S" then GetOrb(t.orbitalPosition)
      else if t.system == Some(1) then t.tunerType + "2"
      else t.tunerType
  }

  /** No text without transponder data; for a satellite tuner the text reads
      back as the tuned position, mirrored to the west past 180.0°; for any
      other tuner it is the tuner type, with "2" appended exactly for system 1. */
  lemma OrbitalTextMeaning(info: Option<Transponder>)
    ensures info.None? ==> OrbitalText(info) == ""
    ensures info.Some? && info.value.tunerType == "DVB-S" && info.value.orbitalPosition <= 1800 ==>
      ParseOrb(OrbitalText(info)) == Some(Reading(info.value.orbitalPosition, "E"))
    ensures info.Some? && info.value.tunerType == "DVB-S" && info.value.orbitalPosition > 1800 ==>
      ParseOrb(OrbitalText(info)) == Some(Reading(3600 - info.value.orbitalPosition, "W"))
    ensures info.Some? && info.value.tunerType != "DVB-S" && info.value.system == Some(1) ==>
      OrbitalText(info) == info.value.tunerType + "2"
    ensures info.Some? && info.value.tunerType != "DVB-S" && info.value.system != Some(1) ==>
      OrbitalText(info) == info.value.tunerType
  {
    if info.Some? && info.value.tunerType == "DVB-S" {
      GetOrbReadsBack(info.value.orbitalPosition);
    }
  }
}
