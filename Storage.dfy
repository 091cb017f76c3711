/** The labelled capacity of a hard disk (the `iecsize` text in `getInfo`):
    the size in decimal megabytes rounded the way disks are sold, in TB above
    1000 decimal gigabytes, in whole tens of GB above about 300 GB, in whole GB
    above 1 GB and in MB below. */
module Storage {
  import opened Text
  import opened Wrappers

  /** Tenths as text: "W.d", or "W" alone when the tenths digit is 0 (the
      `%.1f` and `%d` formats applied to the whole number of tenths / 10). */
  function TenthsText(t: nat): string {
    if t % 10 == 0 then IntToString(t / 10)
    else IntToString(t / 10) + "." + IntToString(t % 10)
  }

  /** The labelled capacity of a disk of `size` decimal megabytes. */
  function LabelledCapacity(size: int): string {
    if size > 1000000 then TenthsText((size + 50000) / 100000) + " TB"
    else if size > 300000 then IntToString((size + 5000) / 10000 * 10) + " GB"
    else if size > 1000 then IntToString((size + 500) / 1000) + " GB"
    else IntToString(size) + " MB"
  }

  /** Reads "W" or "W.d" back as a number of tenths. */
  function ParseTenths(s: string): Option<int> {
    var i := IndexOf(s, '.');
    if i == |s| then
      if IsIntLiteral(s) then Some(ParseInt(s) * 10) else None
    else if i + 2 == |s| && IsIntLiteral(s[..i]) && IsDigit(s[i + 1]) then
      Some(ParseInt(s[..i]) * 10 + DigitValue(s[i + 1]))
    else
      None
  }

  lemma TenthsReadBack(t: nat)
    ensures ParseTenths(TenthsText(t)) == Some(t)
  {
    var w := IntToString(t / 10);
    IntToStringHasNo(t / 10, '.');
    ParseIntToString(t / 10);
    if t % 10 == 0 {
      assert IndexOf(w, '.') == |w|;
    } else {
      var s := w + "." + IntToString(t % 10);
      assert IntToString(t % 10) == [DigitChar(t % 10)];
      assert s[|w|] == '.';
      assert forall j :: 0 <= j < |w| ==> s[j] == w[j];
      assert IndexOf(s, '.') == |w|;
      assert s[..|w|] == w;
      assert s[|w| + 1] == DigitChar(t % 10);
    }
  }

  /** The number part of a label: everything before the three-character unit. */
  function Quantity(text: string): string
    requires |text| >= 3
  {
    text[..|text| - 3]
  }

  function Unit(text: string): string
    requires |text| >= 3
  {
    text[|text| - 3..]
  }

  lemma SplitLabel(number: string, unit: string)
    requires |unit| == 3
    ensures Quantity(number + unit) == number && Unit(number + unit) == unit
  {
    assert (number + unit)[..|number|] == number;
    assert (number + unit)[|number|..] == unit;
  }

  /** Above 1000 decimal GB: TB to the nearest tenth, halves rounded up, with
      the decimal point shown exactly when the tenths digit is not 0. */
  lemma TerabyteTier(size: int)
    requires size > 1000000
    ensures |LabelledCapacity(size)| >= 3 && Unit(LabelledCapacity(size)) == " TB"
    ensures ParseTenths(Quantity(LabelledCapacity(size))).Some?
    ensures 100000 * ParseTenths(Quantity(LabelledCapacity(size))).value - 50000 <= size
    ensures size < 100000 * ParseTenths(Quantity(LabelledCapacity(size))).value + 50000
    ensures '.' in Quantity(LabelledCapacity(size)) <==> ((size + 50000) / 100000) % 10 != 0
  {
    var t := (size + 50000) / 100000;
    SplitLabel(TenthsText(t), " TB");
    TenthsReadBack(t);
    TenthsPoint(t);
  }

  /** The tenths text holds a '.' exactly when the tenths digit is not 0. */
  lemma TenthsPoint(t: nat)
    ensures '.' in TenthsText(t) <==> t % 10 != 0
  {
    var w := IntToString(t / 10);
    IntToStringHasNo(t / 10, '.');
    if t % 10 != 0 {
      assert (w + "." + IntToString(t % 10))[|w|] == '.';
    }
  }

  /** Above about 300 GB: whole tens of GB, to the nearest ten. */
  lemma TensOfGigabytesTier(size: int)
    requires 300000 < size <= 1000000
    ensures |LabelledCapacity(size)| >= 3 && Unit(LabelledCapacity(size)) == " GB"
    ensures IsIntLiteral(Quantity(LabelledCapacity(size)))
    ensures ParseInt(Quantity(LabelledCapacity(size))) % 10 == 0
    ensures 1000 * ParseInt(Quantity(LabelledCapacity(size))) - 5000 <= size
    ensures size < 1000 * ParseInt(Quantity(LabelledCapacity(size))) + 5000
  {
    var g := (size + 5000) / 10000 * 10;
    SplitLabel(IntToString(g), " GB");
    ParseIntToString(g);
  }

  /** Above 1 GB: whole GB, to the nearest one. */
  lemma GigabytesTier(size: int)
    requires 1000 < size <= 300000
    ensures |LabelledCapacity(size)| >= 3 && Unit(LabelledCapacity(size)) == " GB"
    ensures IsIntLiteral(Quantity(LabelledCapacity(size)))
    ensures 1000 * ParseInt(Quantity(LabelledCapacity(size))) - 500 <= size
    ensures size < 1000 * ParseInt(Quantity(LabelledCapacity(size))) + 500
  {
    var g := (size + 500) / 1000;
    SplitLabel(IntToString(g), " GB");
    ParseIntToString(g);
  }

  /** Up to 1 GB: the exact size in MB. */
  lemma MegabytesTier(size: int)
    requires size <= 1000
    ensures |LabelledCapacity(size)| >= 3 && Unit(LabelledCapacity(size)) == " MB"
    ensures IsIntLiteral(Quantity(LabelledCapacity(size)))
    ensures ParseInt(Quantity(LabelledCapacity(size))) == size
  {
    SplitLabel(IntToString(size), " MB");
    ParseIntToString(size);
  }

  lemma LabelledCapacityExamples()
    ensures LabelledCapacity(1200000) == "1.2 TB"
    ensures LabelledCapacity(2000000) == "2 TB"
    ensures LabelledCapacity(320000) == "320 GB"
    ensures LabelledCapacity(8000) == "8 GB"
    ensures LabelledCapacity(500) == "500 MB"
  {
    assert (1200000 + 50000) / 100000 == 12;
    assert (2000000 + 50000) / 100000 == 20;
    assert (320000 + 5000) / 10000 * 10 == 320;
    assert NatToString(320) == "320";
    assert (8000 + 500) / 1000 == 8;
    assert NatToString(500) == "500";
  }

  /** Just below the TB tier the label is a whole number of GB, with no
      decimal fraction. */
  lemma NearTerabyte()
    ensures LabelledCapacity(999999) == "1000 GB"
  {
    assert (999999 + 5000) / 10000 * 10 == 1000;
    assert NatToString(1000) == "1000";
  }
}
