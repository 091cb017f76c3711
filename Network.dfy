/** The link-speed label and the IPv4 address helpers of an interface entry
    (`getLinkSpeed`, `formatIp` and the `v4prefix` expression of `getInfo`). */
module Network {
  import opened Text
  import opened Wrappers

  // Link speed

  /** The tail of `getLinkSpeed`: `speedFile` is the content of the interface's
      `speed` file, `None` when it cannot be read. The number of MBit/s gets the
      unit appended; 10000 and 1000 MBit/s are then written in GBit/s. */
  function LinkSpeed(speedFile: Option<string>): string {
    var speed := match speedFile case Some(raw) => Strip(raw) case None => "unknown";
    var text := speed + " MBit/s";
    Replace(Replace(text, "10000 MBit/s", "10 GBit/s"), "1000 MBit/s", "1 GBit/s")
  }

  predicate HasUnit(s: string) {
    EndsWith(s, " MBit/s") || EndsWith(s, " GBit/s")
  }

  lemma UnitAfter(r: string, x: string)
    requires HasUnit(x)
    ensures HasUnit(r + x)
  {
    assert (r + x)[|r + x| - 7..] == x[|x| - 7..];
  }

  /** Replacing a pattern that ends in a unit and holds no blank in its last six
      characters by a text with a unit keeps a unit at the end. */
  lemma {:induction false} ReplaceKeepsUnit(s: string, p: string, r: string)
    requires HasUnit(s) && HasUnit(r)
    requires |p| > 7
    requires forall k :: |p| - 6 <= k < |p| ==> p[k] != ' '
    ensures HasUnit(Replace(s, p, r))
    decreases |s|
  {
    if |s| < |p| {
    } else if s[..|p|] == p {
      var t := s[|p|..];
      assert Replace(s, p, r) == r + Replace(t, p, r);
      if |t| == 0 {
        assert Replace(s, p, r) == r;
      } else {
        var k := |s| - 7;
        assert s[k] == ' ';
        assert k >= |p|;
        assert t[|t| - 7..] == s[|s| - 7..];
        ReplaceKeepsUnit(t, p, r);
        UnitAfter(r, Replace(t, p, r));
      }
    } else {
      assert s[1..][|s| - 1 - 7..] == s[|s| - 7..];
      ReplaceKeepsUnit(s[1..], p, r);
      UnitAfter([s[0]], Replace(s[1..], p, r));
    }
  }

  lemma MegabitSuffix(speed: string)
    ensures HasUnit(speed + " MBit/s")
  {
    var text := speed + " MBit/s";
    assert text[|text| - 7..] == " MBit/s";
  }

  lemma TenGigabitKeepsUnit(s: string)
    requires HasUnit(s)
    ensures HasUnit(Replace(s, "10000 MBit/s", "10 GBit/s"))
  {
    var r := "10 GBit/s";
    assert r[|r| - 7..] == " GBit/s";
    ReplaceKeepsUnit(s, "10000 MBit/s", r);
  }

  lemma GigabitKeepsUnit(s: string)
    requires HasUnit(s)
    ensures HasUnit(Replace(s, "1000 MBit/s", "1 GBit/s"))
  {
    var r := "1 GBit/s";
    assert r[|r| - 7..] == " GBit/s";
    ReplaceKeepsUnit(s, "1000 MBit/s", r);
  }

  /** The label always ends in " MBit/s" or " GBit/s". */
  lemma LinkSpeedHasUnit(speedFile: Option<string>)
    ensures HasUnit(LinkSpeed(speedFile))
  {
    var speed := match speedFile case Some(raw) => Strip(raw) case None => "unknown";
    var text := speed + " MBit/s";
    MegabitSuffix(speed);
    TenGigabitKeepsUnit(text);
    GigabitKeepsUnit(Replace(text, "10000 MBit/s", "10 GBit/s"));
  }

  lemma PatternNeedsThousand(speed: string, mid: string)
    requires !Contains(speed, "1000")
    ensures !Contains(speed + " MBit/s", "1000" + mid + " MBit/s")
  {
    var text := speed + " MBit/s";
    var p := "1000" + mid + " MBit/s";
    ContainsAt(text, p);
    ContainsAt(speed, "1000");
    forall i | OccursAt(text, p, i) ensures OccursAt(speed, "1000", i) {
      assert text[i..i + 4] == p[..4];
      assert speed[i..i + 4] == text[i..i + 4];
    }
  }

  /** The two replacements leave a speed without "1000" in it alone. */
  lemma PlainLabel(speed: string)
    requires !Contains(speed, "1000")
    ensures Replace(Replace(speed + " MBit/s", "10000 MBit/s", "10 GBit/s"), "1000 MBit/s", "1 GBit/s")
      == speed + " MBit/s"
  {
    var text := speed + " MBit/s";
    PatternNeedsThousand(speed, "0");
    assert "1000" + "0" + " MBit/s" == "10000 MBit/s";
    PatternNeedsThousand(speed, "");
    assert "1000" + "" + " MBit/s" == "1000 MBit/s";
    ReplaceAbsent(text, "10000 MBit/s", "10 GBit/s");
    ReplaceAbsent(text, "1000 MBit/s", "1 GBit/s");
  }

  /** A speed without "1000" in it is shown as it is, in MBit/s; an unreadable
      one as "unknown MBit/s". */
  lemma LinkSpeedPlain(speedFile: Option<string>)
    requires speedFile.Some? ==> !Contains(Strip(speedFile.value), "1000")
    ensures speedFile.Some? ==> LinkSpeed(speedFile) == Strip(speedFile.value) + " MBit/s"
    ensures speedFile.None? ==> LinkSpeed(speedFile) == "unknown MBit/s"
  {
    if speedFile.Some? {
      PlainLabel(Strip(speedFile.value));
    } else {
      UnknownHasNoThousand();
      PlainLabel("unknown");
    }
  }

  lemma UnknownHasNoThousand()
    ensures !Contains("unknown", "1000")
  {
    ContainsFirstChar("unknown", "1000");
  }

  lemma GigabitLabels(raw: string)
    requires Strip(raw) == "1000" || Strip(raw) == "10000"
    ensures Strip(raw) == "1000" ==> LinkSpeed(Some(raw)) == "1 GBit/s"
    ensures Strip(raw) == "10000" ==> LinkSpeed(Some(raw)) == "10 GBit/s"
  {
    var text := Strip(raw) + " MBit/s";
    if Strip(raw) == "1000" {
      assert text == "1000 MBit/s";
      assert Replace(text, "10000 MBit/s", "10 GBit/s") == text;
      assert Replace(text, "1000 MBit/s", "1 GBit/s") == "1 GBit/s" + Replace("", "1000 MBit/s", "1 GBit/s");
    } else {
      assert text == "10000 MBit/s";
      assert Replace(text, "10000 MBit/s", "10 GBit/s") == "10 GBit/s" + Replace("", "10000 MBit/s", "10 GBit/s");
      var h := "10 GBit/s";
      assert Replace(h, "1000 MBit/s", "1 GBit/s") == h;
    }
  }

  lemma LinkSpeedExamples()
    ensures LinkSpeed(Some("1000")) == "1 GBit/s"
    ensures LinkSpeed(Some("10000\n")) == "10 GBit/s"
  {
    StripDigitsLine("10000");
    assert "10000\n" == "10000" + "\n";
    StripDigitsLine("1000");
    GigabitLabels("1000");
    GigabitLabels("10000\n");
  }

  /** A speed without the digits "1000" in it is shown as it is. */
  lemma PlainSpeed(raw: string)
    requires Strip(raw) == raw && !Contains(raw, "1000")
    ensures LinkSpeed(Some(raw)) == raw + " MBit/s"
  {
    LinkSpeedPlain(Some(raw));
  }

  /** A speed of at most three digits is shown as it is. */
  lemma ShortSpeed(raw: string)
    requires IsDigits(raw) && |raw| < 4
    ensures LinkSpeed(Some(raw)) == raw + " MBit/s"
  {
    StripDigitsLine(raw);
    ShorterAbsent(raw, "1000");
    PlainSpeed(raw);
  }

  lemma ShorterAbsent(s: string, p: string)
    requires |s| < |p|
    ensures !Contains(s, p)
  {
  }

  lemma SlowLinkExamples()
    ensures LinkSpeed(Some("100")) == "100 MBit/s"
    ensures LinkSpeed(None) == "unknown MBit/s"
  {
    ShortSpeed("100");
    LinkSpeedPlain(None);
  }

  // IPv4 addresses

  /** `formatIp`: the dotted decimal of a four-element address, "0.0.0.0" for a
      missing address or one of any other length. */
  function FormatIp(ip: Option<seq<int>>): string {
    if ip.None? || |ip.value| != 4 then "0.0.0.0" else Dotted(ip.value)
  }

  function Dotted(q: seq<int>): string
    requires |q| == 4
  {
    IntToString(q[0]) + "." + IntToString(q[1]) + "." + IntToString(q[2]) + "." + IntToString(q[3])
  }

  lemma DottedZero()
    ensures Dotted([0, 0, 0, 0]) == "0.0.0.0"
  {
    assert IntToString(0) == "0";
  }

  function Octets(ip: Option<seq<int>>): (q: seq<int>)
    ensures |q| == 4
  {
    if ip.None? || |ip.value| != 4 then [0, 0, 0, 0] else ip.value
  }

  lemma DottedReadsBack(q: seq<int>)
    requires |q| == 4
    ensures var s := Dotted(q);
      |Split(s, '.')| == 4 &&
      forall k :: 0 <= k < 4 ==> IsIntLiteral(Split(s, '.')[k]) && ParseInt(Split(s, '.')[k]) == q[k]
  {
    var fields := [IntToString(q[0]), IntToString(q[1]), IntToString(q[2]), IntToString(q[3])];
    assert Join(fields[2..], ".") == fields[2] + "." + fields[3];
    assert Join(fields[1..], ".") == fields[1] + "." + Join(fields[2..], ".");
    assert Join(fields, ".") == fields[0] + "." + Join(fields[1..], ".");
    assert Dotted(q) == Join(fields, ".");
    forall k | 0 <= k < 4
      ensures '.' !in fields[k] && IsIntLiteral(fields[k]) && ParseInt(fields[k]) == q[k]
    {
      IntToStringHasNo(q[k], '.');
      ParseIntToString(q[k]);
    }
    SplitJoin(fields, '.');
  }

  /** The dotted text splits back into four fields that `int` reads as the
      octets it was made from (all zero for the sentinel). */
  lemma FormatIpReadsBack(ip: Option<seq<int>>)
    ensures |Split(FormatIp(ip), '.')| == 4
    ensures forall k :: 0 <= k < 4 ==>
      IsIntLiteral(Split(FormatIp(ip), '.')[k]) && ParseInt(Split(FormatIp(ip), '.')[k]) == Octets(ip)[k]
  {
    var q := Octets(ip);
    DottedReadsBack(q);
    if ip.None? || |ip.value| != 4 {
      DottedZero();
    }
  }

  /** Python's `bin(n).count('1')` for `n >= 0`. */
  function PopCount(n: nat): nat {
    if n == 0 then 0 else n % 2 + PopCount(n / 2)
  }

  function Abs(n: int): nat {
    if n < 0 then -n else n
  }

  function OnesInFields(fields: seq<string>): nat
    requires forall k :: 0 <= k < |fields| ==> IsIntLiteral(fields[k])
  {
    if |fields| == 0 then 0
    else OnesInFields(fields[..|fields| - 1]) + PopCount(Abs(ParseInt(fields[|fields| - 1])))
  }

  /** The `v4prefix` of an interface: the 1-bits of the fields of the formatted
      netmask, each read back with `int`. */
  function V4Prefix(netmask: Option<seq<int>>): nat {
    FormatIpReadsBack(netmask);
    OnesInFields(Split(FormatIp(netmask), '.'))
  }

  lemma OnesInFourFields(f: seq<string>)
    requires |f| == 4 && forall k :: 0 <= k < 4 ==> IsIntLiteral(f[k])
    ensures OnesInFields(f) == PopCount(Abs(ParseInt(f[0]))) + PopCount(Abs(ParseInt(f[1])))
      + PopCount(Abs(ParseInt(f[2]))) + PopCount(Abs(ParseInt(f[3])))
  {
    assert f[..3][..2] == f[..2];
    assert f[..2][..1] == f[..1];
    assert f[..1][..0] == [];
    assert OnesInFields(f[..1]) == PopCount(Abs(ParseInt(f[0])));
    assert OnesInFields(f[..2]) == OnesInFields(f[..1]) + PopCount(Abs(ParseInt(f[1])));
    assert OnesInFields(f[..3]) == OnesInFields(f[..2]) + PopCount(Abs(ParseInt(f[2])));
  }

  /** The prefix length is the number of 1-bits across the four octets of the
      netmask, and 0 when there is no usable netmask. */
  lemma V4PrefixCountsBits(netmask: Option<seq<int>>)
    ensures V4Prefix(netmask) == PopCount(Abs(Octets(netmask)[0])) + PopCount(Abs(Octets(netmask)[1]))
      + PopCount(Abs(Octets(netmask)[2])) + PopCount(Abs(Octets(netmask)[3]))
    ensures netmask.None? || |netmask.value| != 4 ==> V4Prefix(netmask) == 0
  {
    FormatIpReadsBack(netmask);
    OnesInFourFields(Split(FormatIp(netmask), '.'));
  }

  lemma V4PrefixExamples()
    ensures V4Prefix(Some([255, 255, 255, 0])) == 24
    ensures V4Prefix(None) == 0
  {
    V4PrefixCountsBits(Some([255, 255, 255, 0]));
    FullByte();
    V4PrefixCountsBits(None);
  }

  lemma FullByte()
    ensures PopCount(255) == 8
  {
    assert PopCount(15) == 4;
  }
}
