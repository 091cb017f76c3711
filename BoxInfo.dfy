/** Smaller facts gathered by `getInfo`: the memory figures read from the
    kernel's meminfo table, the uptime text and the type of a stream client. */
module BoxInfo {
  import opened Text
  import opened Wrappers

  // Memory: lines "Key:   value kB".

  /** A meminfo line split at its colons: the stripped key and the fields
      after it. */
  datatype MemLine = MemLine(key: string, fields: seq<string>)

  function ParseMemLine(line: string): MemLine {
    var parts := Split(line, ':');
    MemLine(Strip(parts[0]), parts[1..])
  }

  function MemLines(lines: seq<string>): (ms: seq<MemLine>)
    ensures |ms| == |lines|
    ensures forall i :: 0 <= i < |lines| ==> ms[i] == ParseMemLine(lines[i])
  {
    seq(|lines|, i requires 0 <= i < |lines| => ParseMemLine(lines[i]))
  }

  /** The keys whose amounts add up to the free memory. */
  predicate Counted(key: string) {
    key == "MemFree" || key == "Buffers" || key == "Cached"
  }

  function ValueText(m: MemLine): string
    requires |m.fields| >= 1
  {
    Strip(m.fields[0])
  }

  /** The total memory text of a "MemTotal" line: its value with the unit
      translated (the identity in English). */
  function TotalText(m: MemLine): string
    requires |m.fields| >= 1
  {
    Replace(ValueText(m), "kB", "kB")
  }

  /** What the loop needs of a line it uses: a value field, and for a counted
      key a number before the first space of the value. Anything else raises
      out of `getInfo`. */
  predicate MemReadable(m: MemLine) {
    (m.key == "MemTotal" || Counted(m.key)) ==>
      |m.fields| >= 1 && (Counted(m.key) ==> IsIntLiteral(Split(ValueText(m), ' ')[0]))
  }

  predicate AllMemReadable(ms: seq<MemLine>) {
    forall i :: 0 <= i < |ms| ==> MemReadable(ms[i])
  }

  /** The amount of a counted line. */
  function Amount(m: MemLine): int
    requires MemReadable(m) && Counted(m.key)
  {
    ParseInt(Split(ValueText(m), ' ')[0])
  }

  /** The free memory: the amounts of the counted lines added up. */
  function FreeOf(ms: seq<MemLine>): int
    requires AllMemReadable(ms)
  {
    if |ms| == 0 then 0
    else
      var init := ms[..|ms| - 1];
      assert forall i :: 0 <= i < |init| ==> init[i] == ms[i];
      var last := ms[|ms| - 1];
      FreeOf(init) + if Counted(last.key) then Amount(last) else 0
  }

  /** The total memory text: the value of the last "MemTotal" line, with its
      unit translated (the identity in English). */
  function MemTotalOf(ms: seq<MemLine>): Option<string>
    requires AllMemReadable(ms)
  {
    if |ms| == 0 then None
    else
      var init := ms[..|ms| - 1];
      assert forall i :: 0 <= i < |init| ==> init[i] == ms[i];
      var last := ms[|ms| - 1];
      if last.key == "MemTotal" then Some(TotalText(last)) else MemTotalOf(init)
  }

  lemma MemStep(ms: seq<MemLine>, i: nat)
    requires i < |ms| && AllMemReadable(ms)
    ensures AllMemReadable(ms[..i]) && AllMemReadable(ms[..i + 1])
    ensures FreeOf(ms[..i + 1]) == FreeOf(ms[..i]) + if Counted(ms[i].key) then Amount(ms[i]) else 0
    ensures MemTotalOf(ms[..i + 1]) ==
      if ms[i].key == "MemTotal" then Some(TotalText(ms[i])) else MemTotalOf(ms[..i])
  {
    assert ms[..i + 1][..i] == ms[..i];
    assert ms[..i + 1][i] == ms[i];
  }

  /** The body of the meminfo loop of `getInfo` for one line. */
  method ScanMemLine(line: string, mem1: Option<string>, memFree: int)
    returns (mem1': Option<string>, memFree': int)
    requires MemReadable(ParseMemLine(line))
    ensures mem1' ==
      if ParseMemLine(line).key == "MemTotal" then Some(TotalText(ParseMemLine(line))) else mem1
    ensures memFree' == memFree + if Counted(ParseMemLine(line).key) then Amount(ParseMemLine(line)) else 0
  {
    mem1', memFree' := mem1, memFree;
    var parts := Split(line, ':');
    var key := Strip(parts[0]);
    if key == "MemTotal" {
      mem1' := Some(Replace(Strip(parts[1]), "kB", "kB"));
    } else if key == "MemFree" || key == "Buffers" || key == "Cached" {
      memFree' := memFree' + ParseInt(Split(Strip(parts[1]), ' ')[0]);
    }
  }

  /** The meminfo loop of `getInfo`. */
  method ScanMeminfo(lines: seq<string>) returns (mem1: Option<string>, memFree: int)
    requires AllMemReadable(MemLines(lines))
    ensures mem1 == MemTotalOf(MemLines(lines))
    ensures memFree == FreeOf(MemLines(lines))
  {
    ghost var ms := MemLines(lines);
    mem1 := None;
    memFree := 0;
    var i := 0;
    while i < |lines|
      invariant 0 <= i <= |lines|
      invariant mem1 == MemTotalOf(ms[..i])
      invariant memFree == FreeOf(ms[..i])
    {
      MemStep(ms, i);
      assert ms[i] == ParseMemLine(lines[i]);
      mem1, memFree := ScanMemLine(lines[i], mem1, memFree);
      i := i + 1;
    }
    assert ms[..|lines|] == ms;
  }

  /** The free memory of two stretches of the table is the sum of theirs: the
      order of the lines does not matter. */
  lemma {:induction false} FreeAppend(a: seq<MemLine>, b: seq<MemLine>)
    requires AllMemReadable(a + b)
    ensures AllMemReadable(a) && AllMemReadable(b)
    ensures FreeOf(a + b) == FreeOf(a) + FreeOf(b)
    decreases |b|
  {
    assert forall i :: 0 <= i < |a| ==> (a + b)[i] == a[i];
    assert forall i :: 0 <= i < |b| ==> (a + b)[|a| + i] == b[i];
    if |b| > 0 {
      var init := b[..|b| - 1];
      assert (a + b)[..|a + b| - 1] == a + init;
      assert (a + b)[|a + b| - 1] == b[|b| - 1];
      FreeAppend(a, init);
    } else {
      assert a + b == a;
    }
  }

  /** Translating the unit changes nothing: replacing a text by itself is the
      identity. */
  lemma {:induction false} ReplaceSelf(s: string, p: string)
    requires |p| > 0
    ensures Replace(s, p, p) == s
    decreases |s|
  {
    if |s| >= |p| {
      if s[..|p|] == p {
        ReplaceSelf(s[|p|..], p);
        assert s == s[..|p|] + s[|p|..];
      } else {
        ReplaceSelf(s[1..], p);
        assert s == [s[0]] + s[1..];
      }
    }
  }

  /** The total is the value of the last "MemTotal" line ... */
  lemma {:induction false} MemTotalLast(ms: seq<MemLine>, k: nat)
    requires AllMemReadable(ms)
    requires k < |ms| && ms[k].key == "MemTotal"
    requires forall j :: k < j < |ms| ==> ms[j].key != "MemTotal"
    ensures |ms[k].fields| >= 1 && MemTotalOf(ms) == Some(ValueText(ms[k]))
  {
    var init := ms[..|ms| - 1];
    var last := ms[|ms| - 1];
    assert forall i :: 0 <= i < |init| ==> init[i] == ms[i];
    assert AllMemReadable(init);
    assert MemReadable(ms[k]);
    if k < |init| {
      assert last.key != "MemTotal";
      assert MemTotalOf(ms) == MemTotalOf(init);
      MemTotalLast(init, k);
    } else {
      assert last == ms[k];
      var v := ValueText(last);
      assert MemTotalOf(ms) == Some(TotalText(last));
      UnitTranslation(v);
    }
  }

  lemma UnitTranslation(v: string)
    ensures Replace(v, "kB", "kB") == v
  {
    ReplaceSelf(v, "kB");
  }

  /** ... and there is none without such a line. */
  lemma {:induction false} MemTotalMissing(ms: seq<MemLine>)
    requires AllMemReadable(ms)
    ensures MemTotalOf(ms).None? <==> forall j :: 0 <= j < |ms| ==> ms[j].key != "MemTotal"
  {
    if |ms| > 0 {
      var init := ms[..|ms| - 1];
      assert forall i :: 0 <= i < |init| ==> init[i] == ms[i];
      MemTotalMissing(init);
    }
  }

  /** A line "Key:rest" with a plain key and one colon splits into the key
      and the rest. */
  lemma KeyedLine(key: string, rest: string)
    requires ':' !in key && ':' !in rest
    requires forall k :: 0 <= k < |key| ==> !IsWhitespace(key[k])
    ensures ParseMemLine(key + ":" + rest) == MemLine(key, [rest])
  {
    assert key + ":" + rest == key + [':'] + rest;
    SplitOfPrefix(key, ':', rest);
    SplitNoSeparator(rest, ':');
    StripNoWhitespace(key);
  }

  /** The value " n kB" strips to "n kB", whose first word is n. */
  lemma AmountText(digits: string)
    requires IsDigits(digits)
    ensures ':' !in " " + digits + " kB"
    ensures Strip(" " + digits + " kB") == digits + " kB"
    ensures Split(digits + " kB", ' ')[0] == digits
  {
    AmountHasNoColon(digits);
    AmountStrips(digits);
    AmountFirstWord(digits);
  }

  lemma AmountHasNoColon(digits: string)
    requires IsDigits(digits)
    ensures ':' !in " " + digits + " kB"
  {
    var rest := " " + digits + " kB";
    forall j | 0 <= j < |rest| ensures rest[j] != ':' {
      if 1 <= j < 1 + |digits| {
        assert rest[j] == digits[j - 1];
      }
    }
  }

  lemma AmountStrips(digits: string)
    requires IsDigits(digits)
    ensures Strip(" " + digits + " kB") == digits + " kB"
  {
    var value := digits + " kB";
    assert " " + digits + " kB" == " " + value;
    assert value[0] == digits[0] && IsDigit(digits[0]);
    assert value[|value| - 1] == 'B';
    StripLeadingBlank(value);
  }

  lemma AmountFirstWord(digits: string)
    requires IsDigits(digits)
    ensures Split(digits + " kB", ' ')[0] == digits
  {
    assert ' ' !in digits;
    assert digits + " kB" == digits + [' '] + "kB";
    SplitOfPrefix(digits, ' ', "kB");
  }

  lemma CountedKeyPlain(key: string)
    requires Counted(key)
    ensures ':' !in key
    ensures forall k :: 0 <= k < |key| ==> !IsWhitespace(key[k])
  {
    if key == "MemFree" {
    } else if key == "Buffers" {
    } else {
    }
  }

  lemma CountedDigits(key: string, digits: string)
    requires Counted(key) && IsDigits(digits)
    ensures MemReadable(ParseMemLine(key + ": " + digits + " kB"))
    ensures Counted(ParseMemLine(key + ": " + digits + " kB").key)
    ensures Amount(ParseMemLine(key + ": " + digits + " kB")) == ParseNat(digits)
  {
    var rest := " " + digits + " kB";
    var line := key + ": " + digits + " kB";
    assert line == key + ":" + rest;
    AmountText(digits);
    CountedKeyPlain(key);
    KeyedLine(key, rest);
    var m := ParseMemLine(line);
    assert ValueText(m) == digits + " kB";
    assert Split(ValueText(m), ' ')[0] == digits;
  }

  /** A line "Key: n kB" of a counted key adds n. */
  lemma CountedLine(key: string, n: nat)
    requires Counted(key)
    ensures MemReadable(ParseMemLine(key + ": " + NatToString(n) + " kB"))
    ensures Counted(ParseMemLine(key + ": " + NatToString(n) + " kB").key)
    ensures Amount(ParseMemLine(key + ": " + NatToString(n) + " kB")) == n
  {
    CountedDigits(key, NatToString(n));
    ParseNatToString(n);
  }

  /** The texts shown: the free memory in kB, and free and total together. */
  function Mem2(memFree: int): string {
    IntToString(memFree) + " kB"
  }

  function Mem3(mem2: string, mem1: string): string {
    mem2 + " free / " + mem1 + " total"
  }

  /** The free-memory text reads back as the sum, and the combined text
      holds the free text first and the total text last. */
  lemma MemTextsReadBack(memFree: int, mem1: string)
    ensures IsIntLiteral(Split(Mem2(memFree), ' ')[0]) && ParseInt(Split(Mem2(memFree), ' ')[0]) == memFree
    ensures StartsWith(Mem3(Mem2(memFree), mem1), Mem2(memFree) + " free / ")
    ensures EndsWith(Mem3(Mem2(memFree), mem1), mem1 + " total")
  {
    var w := IntToString(memFree);
    IntToStringHasNo(memFree, ' ');
    assert Mem2(memFree) == w + [' '] + "kB";
    SplitOfPrefix(w, ' ', "kB");
    ParseIntToString(memFree);
    var m3 := Mem3(Mem2(memFree), mem1);
    assert m3 == (Mem2(memFree) + " free / ") + (mem1 + " total");
  }

  // Uptime.

  /** The uptime text from whole seconds: "?" when the uptime cannot be read,
      otherwise hours and two-digit minutes, preceded by whole days once the
      uptime exceeds one day. */
  function UptimeText(uptime: Option<int>): string {
    match uptime
    case None => "?"
    case Some(u) =>
      if u > 86400 then IntToString(u / 86400) + "d " + ClockText(u % 86400) else ClockText(u)
  }

  /** Hours and two-digit minutes of a number of seconds. */
  function ClockText(secs: int): string {
    IntToString(secs / 3600) + ":" + TwoDigits((secs % 3600) / 60)
  }

  datatype Duration = Duration(days: int, hours: int, minutes: int)

  function Seconds(d: Duration): int {
    d.days * 86400 + d.hours * 3600 + d.minutes * 60
  }

  /** Reads "Dd H:MM" or "H:MM" back. */
  function ParseUptime(s: string): Option<Duration> {
    var di := IndexOf(s, 'd');
    var hasDays := di < |s|;
    if hasDays && !(di + 2 <= |s| && IsIntLiteral(s[..di]) && s[di + 1] == ' ') then None
    else
      var days := if hasDays then ParseInt(s[..di]) else 0;
      var clock := if hasDays then s[di + 2..] else s;
      var ci := IndexOf(clock, ':');
      if ci < |clock| && IsIntLiteral(clock[..ci]) && IsDigits(clock[ci + 1..]) then
        Some(Duration(days, ParseInt(clock[..ci]), ParseNat(clock[ci + 1..])))
      else
        None
  }

  lemma TwoDigitsReadBack(m: nat)
    requires m < 100
    ensures IsDigits(TwoDigits(m)) && ParseNat(TwoDigits(m)) == m
  {
    if m < 10 {
      assert NatToString(m) == [DigitChar(m)];
      assert TwoDigits(m) == ['0', DigitChar(m)];
      var t := TwoDigits(m);
      assert t[..1] == "0" && t[..1][..0] == [];
      assert ParseNat(t[..1]) == 0;
      assert DigitValue(DigitChar(m)) == m;
      assert IsDigit(t[0]) && IsDigit(t[1]);
    } else {
      ParseNatToString(m);
    }
  }

  lemma ClockReadBack(h: int, m: nat)
    requires m < 60
    ensures var clock := IntToString(h) + ":" + TwoDigits(m);
      'd' !in clock &&
      var ci := IndexOf(clock, ':');
      ci < |clock| && IsIntLiteral(clock[..ci]) && IsDigits(clock[ci + 1..]) &&
      ParseInt(clock[..ci]) == h && ParseNat(clock[ci + 1..]) == m
  {
    var w := IntToString(h);
    var clock := w + ":" + TwoDigits(m);
    IntToStringHasNo(h, ':');
    IntToStringHasNo(h, 'd');
    TwoDigitsReadBack(m);
    ParseIntToString(h);
    assert clock[|w|] == ':';
    assert forall j :: 0 <= j < |w| ==> clock[j] == w[j];
    assert IndexOf(clock, ':') == |w|;
    assert clock[..|w|] == w;
    assert clock[|w| + 1..] == TwoDigits(m);
    assert 'd' !in clock by {
      forall j | 0 <= j < |clock| ensures clock[j] != 'd' {
        if j > |w| {
          assert clock[j] == TwoDigits(m)[j - |w| - 1];
        }
      }
    }
  }

  lemma DaysReadBack(d: int, clock: string)
    requires d >= 1
    ensures var s := IntToString(d) + "d " + clock;
      var di := IndexOf(s, 'd');
      di < |s| && di + 2 <= |s| && IsIntLiteral(s[..di]) && s[di + 1] == ' ' &&
      ParseInt(s[..di]) == d && s[di + 2..] == clock
  {
    var w := IntToString(d);
    var s := w + "d " + clock;
    IntToStringHasNo(d, 'd');
    ParseIntToString(d);
    assert s[|w|] == 'd';
    assert forall j :: 0 <= j < |w| ==> s[j] == w[j];
    assert IndexOf(s, 'd') == |w|;
    assert s[..|w|] == w;
    assert s[|w| + 2..] == clock;
  }

  /** Euclidean division by 60 is determined by quotient and remainder. */
  lemma MinuteDivision(a: int, q: int, r: int)
    requires a == 60 * q + r && 0 <= r < 60
    ensures a / 60 == q && a % 60 == r
  {
    var q' := a / 60;
    var r' := a % 60;
    assert a == 60 * q' + r' && 0 <= r' < 60;
    assert 60 * (q - q') == r' - r;
  }

  lemma ClockSeconds(rest: int)
    ensures (rest / 3600) * 3600 + ((rest % 3600) / 60) * 60 == rest - rest % 60
    ensures 0 <= (rest % 3600) / 60 < 60
  {
    var h := rest / 3600;
    var q := rest % 3600;
    var m := q / 60;
    var sec := q % 60;
    assert rest == 3600 * h + q;
    assert q == 60 * m + sec && 0 <= sec < 60;
    MinuteDivision(rest, 60 * h + m, sec);
  }

  lemma DaySeconds(u: int)
    ensures (u / 86400) * 86400 + u % 86400 == u
    ensures (u % 86400) % 60 == u % 60
    ensures 0 <= u % 86400 < 86400
  {
    var d := u / 86400;
    var r := u % 86400;
    var m := r / 60;
    var sec := r % 60;
    assert u == 86400 * d + r;
    assert r == 60 * m + sec && 0 <= sec < 60;
    MinuteDivision(u, 1440 * d + m, sec);
  }

  /** The text reads back as days, hours and minutes that add up to the
      uptime cut to whole minutes; days are shown only beyond one day, and
      then the hours stay below 24. */
  lemma UptimeReadsBack(u: int)
    ensures ParseUptime(UptimeText(Some(u))).Some?
    ensures var d := ParseUptime(UptimeText(Some(u))).value;
      Seconds(d) == u - u % 60 && 0 <= d.minutes < 60 &&
      (u > 86400 ==> d.days >= 1 && 0 <= d.hours < 24) &&
      (u <= 86400 ==> d.days == 0)
  {
    if u > 86400 {
      DaysUptimeReadsBack(u);
    } else {
      ClockUptimeReadsBack(u);
    }
  }

  lemma DaysUptimeReadsBack(u: int)
    requires u > 86400
    ensures ParseUptime(UptimeText(Some(u))) ==
      Some(Duration(u / 86400, (u % 86400) / 3600, ((u % 86400) % 3600) / 60))
    ensures 0 <= (u % 86400) / 3600 < 24
    ensures (u / 86400) * 86400 + ((u % 86400) / 3600) * 3600 + (((u % 86400) % 3600) / 60) * 60 == u - u % 60
  {
    var rest := u % 86400;
    var h := rest / 3600;
    var m := (rest % 3600) / 60;
    var clock := ClockText(rest);
    ClockSeconds(rest);
    ClockReadBack(h, m);
    DaysReadBack(u / 86400, clock);
    DaySeconds(u);
  }

  lemma ClockUptimeReadsBack(u: int)
    ensures ParseUptime(ClockText(u)) == Some(Duration(0, u / 3600, (u % 3600) / 60))
    ensures (u / 3600) * 3600 + ((u % 3600) / 60) * 60 == u - u % 60
    ensures 0 <= (u % 3600) / 60 < 60
  {
    ClockSeconds(u);
    ClockReadBack(u / 3600, (u % 3600) / 60);
  }

  lemma UptimeExamples()
    ensures UptimeText(Some(86400)) == "24:00"
    ensures UptimeText(Some(90061)) == "1d 1:01"
    ensures UptimeText(None) == "?"
  {
    assert 86400 / 3600 == 24 && (86400 % 3600) / 60 == 0;
    assert NatToString(24) == "24" && TwoDigits(0) == "00";
    assert ClockText(86400) == "24:00";
    assert 90061 / 86400 == 1 && 90061 % 86400 == 3661;
    assert 3661 / 3600 == 1 && (3661 % 3600) / 60 == 1;
    assert TwoDigits(1) == "01";
    assert ClockText(3661) == "1:01";
  }

  // Stream clients.

  /** The type flag of a stream client: "S" for a client of type 0, "T" for
      any other. */
  function StreamType(clientType: int): (flag: string)
    ensures flag == "S" || flag == "T"
    ensures flag == "S" <==> clientType == 0
  {
    if clientType == 0 then "S" else "T"
  }
}
