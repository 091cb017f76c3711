/** IPv6 addresses of an interface (`normalize_ipv6` and `getAdapterIPv6`),
    decoded from the lines of the kernel's `if_inet6` table. The canonical
    text of an address (`inet_ntop` of `inet_pton`) is a function given as a
    parameter. */
module IPv6 {
  import opened Text
  import opened Wrappers
  import opened Sorting

  /** `normalize_ipv6`: the canonical text of the address part, followed by
      its "/n" suffix unless the suffix is "/128". With more than one '/' only
      the part before the first is kept (after a "/128" is removed, a third
      field takes its place). */
  function Normalize(orig: string, canon: string -> string): string {
    if '/' in orig then
      var parts := Split(orig, '/');
      var net := if parts[1] == "128" then [parts[0]] + parts[2..] else parts;
      var addr := canon(net[0]);
      if |net| == 2 then addr + "/" + net[1] else addr
    else
      canon(orig)
  }

  /** A bare address is only made canonical. */
  lemma NormalizeBare(a: string, canon: string -> string)
    requires '/' !in a
    ensures Normalize(a, canon) == canon(a)
  {
  }

  /** A full-length "/128" prefix is dropped. */
  lemma NormalizeFullLength(a: string, canon: string -> string)
    requires '/' !in a
    ensures Normalize(a + "/128", canon) == canon(a)
  {
    SplitOfPrefix(a, '/', "128");
    SplitNoSeparator("128", '/');
    assert a + "/128" == a + ['/'] + "128";
  }

  /** Any other prefix is kept verbatim after the canonical address. */
  lemma NormalizeKeepsPrefix(a: string, n: string, canon: string -> string)
    requires '/' !in a && '/' !in n && n != "128"
    ensures Normalize(a + "/" + n, canon) == canon(a) + "/" + n
  {
    SplitOfPrefix(a, '/', n);
    SplitNoSeparator(n, '/');
    assert a + "/" + n == a + ['/'] + n;
  }

  /** The slices `s[i:i + 4]` for i = 0, 4, 8, ... */
  function Chunks(s: string): (groups: seq<string>)
    ensures forall k :: 0 <= k < |groups| ==> 0 < |groups[k]| <= 4
    ensures forall k :: 0 <= k < |groups| - 1 ==> |groups[k]| == 4
    ensures |groups| == (|s| + 3) / 4
    ensures |groups| > 0 ==> |groups[|groups| - 1]| == |s| - 4 * (|groups| - 1)
    decreases |s|
  {
    if |s| == 0 then [] else if |s| <= 4 then [s] else [s[..4]] + Chunks(s[4..])
  }

  function Concat(xs: seq<string>): string {
    if |xs| == 0 then "" else xs[0] + Concat(xs[1..])
  }

  lemma {:induction false} ChunksConcat(s: string)
    ensures Concat(Chunks(s)) == s
    decreases |s|
  {
    if |s| > 4 {
      ChunksConcat(s[4..]);
      assert ([s[..4]] + Chunks(s[4..]))[1..] == Chunks(s[4..]);
      assert s == s[..4] + s[4..];
    }
  }

  lemma {:induction false} ChunksAvoid(s: string, c: char)
    requires c !in s
    ensures forall k :: 0 <= k < |Chunks(s)| ==> c !in Chunks(s)[k]
    decreases |s|
  {
    if |s| > 4 {
      ChunksAvoid(s[4..], c);
      var g := Chunks(s);
      forall k | 0 <= k < |g| ensures c !in g[k] {
        if k > 0 {
          assert g[k] == Chunks(s[4..])[k - 1];
        } else {
          assert forall j :: 0 <= j < 4 ==> s[..4][j] == s[j];
        }
      }
    }
  }

  /** The address grouped four hex digits at a time, separated by ':'. */
  function Grouped(hex: string): string {
    Join(Chunks(hex), ":")
  }

  /** The ':'-fields of the grouped text are the groups, and together they are
      the hex digits again. */
  lemma GroupedReadsBack(hex: string)
    requires |hex| > 0 && ':' !in hex
    ensures Split(Grouped(hex), ':') == Chunks(hex)
    ensures Concat(Split(Grouped(hex), ':')) == hex
  {
    ChunksAvoid(hex, ':');
    SplitJoin(Chunks(hex), ':');
    ChunksConcat(hex);
  }

  /** A full 32-digit address becomes eight groups of four. */
  lemma FullAddressGroups(hex: string)
    requires |hex| == 32 && ':' !in hex
    ensures |Split(Grouped(hex), ':')| == 8
    ensures forall k :: 0 <= k < 8 ==> |Split(Grouped(hex), ':')[k]| == 4
  {
    GroupedReadsBack(hex);
  }

  /** One line of the table as read (`text`) and as `line.split()` cuts it
      into fields: address, index, prefix length, scope, flags, name. */
  datatype Line = Line(text: string, fields: seq<string>)

  function LineOf(text: string): Line {
    Line(text, SplitWhitespace(text))
  }

  /** The lines of the table, split into fields. */
  function Lines(texts: seq<string>): (lines: seq<Line>)
    ensures |lines| == |texts|
    ensures forall i :: 0 <= i < |texts| ==> lines[i] == LineOf(texts[i])
  {
    seq(|texts|, i requires 0 <= i < |texts| => LineOf(texts[i]))
  }

  predicate Contributes(line: Line, ifname: string) {
    !StartsWith(line.text, "fe80") && |line.fields| >= 6 && line.fields[5] == ifname
  }

  /** What the decoding of a line needs: every line not skipped has a sixth
      field, and a line of the interface has hex digits (or "ff") as its
      prefix length. Anything else raises out of `getAdapterIPv6`. */
  predicate Readable(line: Line, ifname: string) {
    var tok := line.fields;
    StartsWith(line.text, "fe80") ||
    (|tok| >= 6 && (tok[5] == ifname ==> Lower(tok[2]) == "ff" || IsHexDigits(Lower(tok[2]))))
  }

  predicate AllReadable(lines: seq<Line>, ifname: string) {
    forall i :: 0 <= i < |lines| ==> Readable(lines[i], ifname)
  }

  function GroupedOf(line: Line): string
    requires |line.fields| >= 1
  {
    Grouped(line.fields[0])
  }

  /** The entry of a contributing line: its grouped address with the decimal
      prefix length unless the prefix field is "ff", normalised. */
  function Entry(line: Line, ifname: string, canon: string -> string): string
    requires Contributes(line, ifname) && Readable(line, ifname)
  {
    var prefix := Lower(line.fields[2]);
    if prefix != "ff" then Normalize(GroupedOf(line) + "/" + IntToString(ParseHex(prefix)), canon)
    else Normalize(GroupedOf(line), canon)
  }

  /** A contributing line whose grouped address starts with '2' or '3'. */
  predicate IsPublic(line: Line, ifname: string) {
    Contributes(line, ifname) && (StartsWith(GroupedOf(line), "2") || StartsWith(GroupedOf(line), "3"))
  }

  /** The list `tempaddrs` after the given lines. */
  function Entries(lines: seq<Line>, ifname: string, canon: string -> string): seq<string>
    requires AllReadable(lines, ifname)
  {
    if |lines| == 0 then []
    else
      var init := lines[..|lines| - 1];
      assert forall i :: 0 <= i < |init| ==> init[i] == lines[i];
      var last := lines[|lines| - 1];
      Entries(init, ifname, canon) + if Contributes(last, ifname) then [Entry(last, ifname, canon)] else []
  }

  /** `firstpublic` after the given lines. */
  function FirstPublic(lines: seq<Line>, ifname: string, canon: string -> string): Option<string> {
    if |lines| == 0 then None
    else
      var before := FirstPublic(lines[..|lines| - 1], ifname, canon);
      var last := lines[|lines| - 1];
      if before.None? && IsPublic(last, ifname) then Some(Normalize(GroupedOf(last), canon)) else before
  }

  /** One more line extends both results as the loop body does. */
  lemma Step(lines: seq<Line>, i: nat, ifname: string, canon: string -> string)
    requires i < |lines| && AllReadable(lines, ifname)
    ensures AllReadable(lines[..i], ifname) && AllReadable(lines[..i + 1], ifname)
    ensures Readable(lines[i], ifname)
    ensures Entries(lines[..i + 1], ifname, canon) == Entries(lines[..i], ifname, canon) +
      if Contributes(lines[i], ifname) then [Entry(lines[i], ifname, canon)] else []
    ensures FirstPublic(lines[..i + 1], ifname, canon) ==
      if FirstPublic(lines[..i], ifname, canon).None? && IsPublic(lines[i], ifname)
      then Some(Normalize(GroupedOf(lines[i]), canon))
      else FirstPublic(lines[..i], ifname, canon)
  {
    assert lines[..i + 1][..i] == lines[..i];
    assert lines[..i + 1][i] == lines[i];
  }

  lemma ReadableParts(a: seq<Line>, b: seq<Line>, ifname: string)
    requires AllReadable(a + b, ifname)
    ensures AllReadable(a, ifname) && AllReadable(b, ifname)
  {
    assert forall i :: 0 <= i < |a| ==> (a + b)[i] == a[i];
    assert forall i :: 0 <= i < |b| ==> (a + b)[|a| + i] == b[i];
  }

  /** The entries of two stretches of the table are the entries of each, in
      order: a line contributes on its own, whatever surrounds it. */
  lemma {:induction false} EntriesAppend(a: seq<Line>, b: seq<Line>, ifname: string, canon: string -> string)
    requires AllReadable(a + b, ifname)
    ensures AllReadable(a, ifname) && AllReadable(b, ifname)
    ensures Entries(a + b, ifname, canon) == Entries(a, ifname, canon) + Entries(b, ifname, canon)
    decreases |b|
  {
    ReadableParts(a, b, ifname);
    if |b| > 0 {
      var init := b[..|b| - 1];
      var last := b[|b| - 1];
      assert b == init + [last];
      assert a + b == (a + init) + [last];
      ReadableParts(a + init, [last], ifname);
      EntriesAppend(a, init, ifname, canon);
      EntriesLast(a + init, last, ifname, canon);
      EntriesLast(init, last, ifname, canon);
    } else {
      assert a + b == a;
    }
  }

  lemma EntriesLast(xs: seq<Line>, last: Line, ifname: string, canon: string -> string)
    requires AllReadable(xs + [last], ifname)
    ensures AllReadable(xs, ifname) && Readable(last, ifname)
    ensures Entries(xs + [last], ifname, canon) ==
      Entries(xs, ifname, canon) + if Contributes(last, ifname) then [Entry(last, ifname, canon)] else []
  {
    ReadableParts(xs, [last], ifname);
    assert (xs + [last])[..|xs|] == xs;
    assert (xs + [last])[|xs|] == last;
  }

  /** The first public address of two stretches: the first stretch's if it
      has one, otherwise the second's. */
  lemma {:induction false} FirstPublicAppend(a: seq<Line>, b: seq<Line>, ifname: string, canon: string -> string)
    ensures FirstPublic(a + b, ifname, canon) ==
      if FirstPublic(a, ifname, canon).Some? then FirstPublic(a, ifname, canon) else FirstPublic(b, ifname, canon)
    decreases |b|
  {
    if |b| > 0 {
      var init := b[..|b| - 1];
      assert (a + b)[..|a + b| - 1] == a + init;
      assert (a + b)[|a + b| - 1] == b[|b| - 1];
      FirstPublicAppend(a, init, ifname, canon);
    } else {
      assert a + b == a;
    }
  }

  lemma ReadableWithout(a: seq<Line>, line: Line, b: seq<Line>, ifname: string)
    requires AllReadable(a + [line] + b, ifname)
    ensures AllReadable(a + b, ifname) && AllReadable(a + [line], ifname) && Readable(line, ifname)
  {
    assert (a + [line] + b)[|a|] == line;
    forall i | 0 <= i < |a + b| ensures Readable((a + b)[i], ifname) {
      if i < |a| {
        assert (a + b)[i] == (a + [line] + b)[i];
      } else {
        assert (a + b)[i] == (a + [line] + b)[i + 1];
      }
    }
    forall i | 0 <= i < |a + [line]| ensures Readable((a + [line])[i], ifname) {
      assert (a + [line])[i] == (a + [line] + b)[i];
    }
  }

  /** A line starting with "fe80", or naming another interface, changes
      neither result, wherever it stands. */
  lemma SkippedLine(a: seq<Line>, line: Line, b: seq<Line>, ifname: string, canon: string -> string)
    requires AllReadable(a + [line] + b, ifname)
    requires !Contributes(line, ifname)
    ensures AllReadable(a + b, ifname)
    ensures Entries(a + [line] + b, ifname, canon) == Entries(a + b, ifname, canon)
    ensures FirstPublic(a + [line] + b, ifname, canon) == FirstPublic(a + b, ifname, canon)
  {
    ReadableWithout(a, line, b, ifname);
    SkippedEntries(a, line, b, ifname, canon);
    SkippedFirstPublic(a, line, b, ifname, canon);
  }

  lemma SkippedEntries(a: seq<Line>, line: Line, b: seq<Line>, ifname: string, canon: string -> string)
    requires AllReadable(a + [line] + b, ifname) && AllReadable(a + b, ifname)
    requires AllReadable(a + [line], ifname)
    requires !Contributes(line, ifname)
    ensures Entries(a + [line] + b, ifname, canon) == Entries(a + b, ifname, canon)
  {
    EntriesAppend(a + [line], b, ifname, canon);
    EntriesAppend(a, [line], ifname, canon);
    assert [line][..0] == [];
    EntriesAppend(a, b, ifname, canon);
  }

  lemma SkippedFirstPublic(a: seq<Line>, line: Line, b: seq<Line>, ifname: string, canon: string -> string)
    requires !Contributes(line, ifname)
    ensures FirstPublic(a + [line] + b, ifname, canon) == FirstPublic(a + b, ifname, canon)
  {
    FirstPublicAppend(a + [line], b, ifname, canon);
    FirstPublicAppend(a, [line], ifname, canon);
    assert [line][..0] == [];
    assert FirstPublic([line], ifname, canon) == None;
    FirstPublicAppend(a, b, ifname, canon);
  }

  /** An address is listed exactly when some line of the interface has it as
      its entry. */
  lemma {:induction false} EntriesMembers(lines: seq<Line>, ifname: string, canon: string -> string, x: string)
    requires AllReadable(lines, ifname)
    ensures x in Entries(lines, ifname, canon) <==>
      exists i :: 0 <= i < |lines| && Contributes(lines[i], ifname) && x == Entry(lines[i], ifname, canon)
  {
    if |lines| > 0 {
      var n := |lines| - 1;
      var init := lines[..n];
      assert forall i :: 0 <= i < n ==> init[i] == lines[i];
      EntriesMembers(init, ifname, canon, x);
      var tail := if Contributes(lines[n], ifname) then [Entry(lines[n], ifname, canon)] else [];
      assert Entries(lines, ifname, canon) == Entries(init, ifname, canon) + tail;
      if x in Entries(init, ifname, canon) {
        var i :| 0 <= i < n && Contributes(init[i], ifname) && x == Entry(init[i], ifname, canon);
        assert Contributes(lines[i], ifname) && x == Entry(lines[i], ifname, canon);
      } else if x in tail {
        assert Contributes(lines[n], ifname) && x == Entry(lines[n], ifname, canon);
      }
      if i :| 0 <= i < |lines| && Contributes(lines[i], ifname) && x == Entry(lines[i], ifname, canon) {
        if i < n {
          assert Contributes(init[i], ifname) && x == Entry(init[i], ifname, canon);
        } else {
          assert i == n && Contributes(lines[n], ifname);
          assert tail == [Entry(lines[n], ifname, canon)];
        }
      }
    }
  }

  /** No first public address exactly when no line of the interface has a
      public grouped address. */
  lemma {:induction false} FirstPublicNone(lines: seq<Line>, ifname: string, canon: string -> string)
    ensures FirstPublic(lines, ifname, canon).None? <==> forall i :: 0 <= i < |lines| ==> !IsPublic(lines[i], ifname)
  {
    if |lines| > 0 {
      var init := lines[..|lines| - 1];
      assert forall i :: 0 <= i < |init| ==> init[i] == lines[i];
      FirstPublicNone(init, ifname, canon);
    }
  }

  /** The first public address is taken from the first public line, without
      its prefix length. */
  lemma {:induction false} FirstPublicIsFirst(lines: seq<Line>, k: nat, ifname: string, canon: string -> string)
    requires k < |lines| && IsPublic(lines[k], ifname)
    requires forall j :: 0 <= j < k ==> !IsPublic(lines[j], ifname)
    ensures FirstPublic(lines, ifname, canon) == Some(Normalize(GroupedOf(lines[k]), canon))
  {
    var init := lines[..|lines| - 1];
    assert forall i :: 0 <= i < |init| ==> init[i] == lines[i];
    if k < |init| {
      FirstPublicIsFirst(init, k, ifname, canon);
    } else {
      FirstPublicNone(init, ifname, canon);
    }
  }

  lemma {:induction false} GroupedAvoids(hex: string, c: char)
    requires c !in hex && c != ':'
    ensures c !in Grouped(hex)
    decreases |hex|
  {
    if |hex| > 4 {
      GroupedAvoids(hex[4..], c);
      assert Chunks(hex)[1..] == Chunks(hex[4..]);
      assert Grouped(hex) == hex[..4] + ":" + Grouped(hex[4..]);
      assert forall j :: 0 <= j < 4 ==> hex[..4][j] == hex[j];
    }
  }

  lemma HexHasNo(hex: string, c: char)
    requires IsHexDigits(hex) && !IsHexDigit(c)
    ensures c !in hex
  {
    forall j | 0 <= j < |hex| ensures hex[j] != c {
      assert IsHexDigit(hex[j]);
    }
  }

  /** A line of the interface with prefix field "40" is listed with "/64", and
      one with "80" (the full length 128) or "ff" without any prefix length. */
  lemma EntryExample(line: Line, hex: string, ifname: string, canon: string -> string, prefix: string)
    requires IsHexDigits(hex) && !StartsWith(line.text, "fe80")
    requires prefix == "40" || prefix == "80" || prefix == "ff"
    requires line.fields == [hex, "02", prefix, "00", "80", ifname]
    ensures Contributes(line, ifname) && Readable(line, ifname)
    ensures prefix == "40" ==> Entry(line, ifname, canon) == canon(Grouped(hex)) + "/64"
    ensures prefix == "80" ==> Entry(line, ifname, canon) == canon(Grouped(hex))
    ensures prefix == "ff" ==> Entry(line, ifname, canon) == canon(Grouped(hex))
  {
    HexHasNo(hex, '/');
    HexHasNo(hex, ':');
    GroupedAvoids(hex, '/');
    if prefix == "40" {
      EntryWithPrefix(line, hex, ifname, canon);
    } else if prefix == "80" {
      EntryFullLength(line, hex, ifname, canon);
    } else {
      EntryWithoutPrefix(line, hex, ifname, canon);
    }
  }

  lemma EntryWithPrefix(line: Line, hex: string, ifname: string, canon: string -> string)
    requires IsHexDigits(hex) && !StartsWith(line.text, "fe80") && '/' !in Grouped(hex)
    requires line.fields == [hex, "02", "40", "00", "80", ifname]
    ensures Contributes(line, ifname) && Readable(line, ifname)
    ensures Entry(line, ifname, canon) == canon(Grouped(hex)) + "/64"
  {
    assert line.fields[0] == hex && line.fields[2] == "40" && line.fields[5] == ifname;
    assert Lower("40") == "40";
    PrefixFortyIsSixtyFour();
    EntryPrefixed(line, ifname, canon, "40", "64");
  }

  /** A contributing line with a hexadecimal prefix length other than "ff"
      shows its address with that length in decimal, except the full length
      128 ("80"), which is dropped. */
  lemma EntryPrefixed(line: Line, ifname: string, canon: string -> string, p: string, n: string)
    requires Contributes(line, ifname) && Lower(line.fields[2]) == p && p != "ff" && IsHexDigits(p)
    requires IntToString(ParseHex(p)) == n && '/' !in GroupedOf(line)
    ensures Readable(line, ifname)
    ensures n == "128" ==> Entry(line, ifname, canon) == canon(GroupedOf(line))
    ensures n != "128" ==> Entry(line, ifname, canon) == canon(GroupedOf(line)) + "/" + n
  {
    IntToStringHasNo(ParseHex(p), '/');
    if n == "128" {
      assert GroupedOf(line) + "/" + n == GroupedOf(line) + "/128";
      NormalizeFullLength(GroupedOf(line), canon);
    } else {
      NormalizeKeepsPrefix(GroupedOf(line), n, canon);
    }
  }

  lemma EntryFullLength(line: Line, hex: string, ifname: string, canon: string -> string)
    requires IsHexDigits(hex) && !StartsWith(line.text, "fe80") && '/' !in Grouped(hex)
    requires line.fields == [hex, "02", "80", "00", "80", ifname]
    ensures Contributes(line, ifname) && Readable(line, ifname)
    ensures Entry(line, ifname, canon) == canon(Grouped(hex))
  {
    assert line.fields[0] == hex && line.fields[2] == "80" && line.fields[5] == ifname;
    assert Lower("80") == "80";
    PrefixEightyIsFullLength();
    EntryPrefixed(line, ifname, canon, "80", "128");
  }

  lemma EntryWithoutPrefix(line: Line, hex: string, ifname: string, canon: string -> string)
    requires IsHexDigits(hex) && !StartsWith(line.text, "fe80") && '/' !in Grouped(hex)
    requires line.fields == [hex, "02", "ff", "00", "80", ifname]
    ensures Contributes(line, ifname) && Readable(line, ifname)
    ensures Entry(line, ifname, canon) == canon(Grouped(hex))
  {
    assert Lower("ff") == "ff";
    NormalizeBare(Grouped(hex), canon);
  }

  lemma PrefixEightyIsFullLength()
    ensures IsHexDigits("80") && IntToString(ParseHex("80")) == "128"
  {
    assert "80"[..1] == "8" && "8"[..0] == "";
    assert ParseHex("80") == 128;
    assert IntToString(128) == "128";
  }

  lemma PrefixFortyIsSixtyFour()
    ensures IsHexDigits("40") && IntToString(ParseHex("40")) == "64"
  {
    assert "40"[..1] == "4" && "4"[..0] == "";
    assert ParseHex("40") == 64;
    assert IntToString(64) == "64";
  }

  /** The shown text: the sentinel with no entries, the entry alone, or all
      entries in ascending order, each once per line it came from, joined by
      ", ". */
  lemma ShownMeaning(entries: seq<string>)
    ensures |entries| == 0 ==> Shown(entries) == "none/IPv4-only network"
    ensures |entries| == 1 ==> Shown(entries) == entries[0]
    ensures |entries| > 1 ==> exists t :: Shown(entries) == Join(t, ", ") && Sorted(t) && multiset(t) == multiset(entries)
  {
    if |entries| > 1 {
      SortSorted(entries);
      SortPermutes(entries);
      assert Shown(entries) == Join(Sort(entries), ", ");
    }
  }

  /** The text shown for the collected entries. */
  function Shown(entries: seq<string>): string {
    if |entries| > 1 then Join(Sort(entries), ", ")
    else if |entries| == 1 then entries[0]
    else "none/IPv4-only network"
  }

  datatype AdapterIPv6Info = AdapterIPv6Info(addr: string, firstPublic: Option<string>)

  /** The body of the loop of `getAdapterIPv6` for one line of the table. */
  method ScanLine(text: string, ifname: string, canon: string -> string,
                  tempaddrs: seq<string>, firstpublic: Option<string>)
    returns (tempaddrs': seq<string>, firstpublic': Option<string>)
    requires Readable(LineOf(text), ifname)
    ensures tempaddrs' == tempaddrs +
      if Contributes(LineOf(text), ifname) then [Entry(LineOf(text), ifname, canon)] else []
    ensures firstpublic' ==
      if firstpublic.None? && IsPublic(LineOf(text), ifname)
      then Some(Normalize(GroupedOf(LineOf(text)), canon))
      else firstpublic
  {
    tempaddrs', firstpublic' := tempaddrs, firstpublic;
    if !StartsWith(text, "fe80") {
      var tmp := SplitWhitespace(text);
      if ifname == tmp[5] {
        var tmpaddr := Grouped(tmp[0]);
        if firstpublic'.None? && (StartsWith(tmpaddr, "2") || StartsWith(tmpaddr, "3")) {
          firstpublic' := Some(Normalize(tmpaddr, canon));
        }
        if Lower(tmp[2]) != "ff" {
          tmpaddr := tmpaddr + "/" + IntToString(ParseHex(Lower(tmp[2])));
        }
        tmpaddr := Normalize(tmpaddr, canon);
        tempaddrs' := tempaddrs' + [tmpaddr];
      }
    }
  }

  /** The loop of `getAdapterIPv6` over the table: appends the entry of each
      line of the interface and records the first public address. */
  method ScanTable(texts: seq<string>, ifname: string, canon: string -> string)
    returns (tempaddrs: seq<string>, firstpublic: Option<string>)
    requires AllReadable(Lines(texts), ifname)
    ensures tempaddrs == Entries(Lines(texts), ifname, canon)
    ensures firstpublic == FirstPublic(Lines(texts), ifname, canon)
  {
    ghost var lines := Lines(texts);
    tempaddrs := [];
    firstpublic := None;
    var i := 0;
    while i < |texts|
      invariant 0 <= i <= |texts|
      invariant AllReadable(lines[..i], ifname)
      invariant tempaddrs == Entries(lines[..i], ifname, canon)
      invariant firstpublic == FirstPublic(lines[..i], ifname, canon)
    {
      Step(lines, i, ifname, canon);
      tempaddrs, firstpublic := ScanLine(texts[i], ifname, canon, tempaddrs, firstpublic);
      i := i + 1;
    }
    assert lines[..|lines|] == lines;
  }

  /** `getAdapterIPv6`: the sentinels for a kernel or a Python/Twisted without
      IPv6, otherwise the decoded table. */
  method AdapterIPv6(tableExists: bool, hasIpv6: bool, twistedMajor: int, texts: seq<string>,
                     ifname: string, canon: string -> string) returns (info: AdapterIPv6Info)
    requires tableExists && hasIpv6 && twistedMajor >= 12 ==> AllReadable(Lines(texts), ifname)
    ensures !tableExists ==> info == AdapterIPv6Info("IPv4-only kernel", None)
    ensures tableExists && !(hasIpv6 && twistedMajor >= 12) ==>
      info == AdapterIPv6Info("IPv4-only Python/Twisted", None)
    ensures tableExists && hasIpv6 && twistedMajor >= 12 ==>
      info == AdapterIPv6Info(Shown(Entries(Lines(texts), ifname, canon)), FirstPublic(Lines(texts), ifname, canon))
  {
    var addr := "IPv4-only kernel";
    var firstpublic: Option<string> := None;
    if tableExists {
      addr := "IPv4-only Python/Twisted";
      if hasIpv6 && twistedMajor >= 12 {
        var tempaddrs;
        tempaddrs, firstpublic := ScanTable(texts, ifname, canon);
        if |tempaddrs| > 1 {
          addr := Join(Sort(tempaddrs), ", ");
        } else if |tempaddrs| == 1 {
          addr := tempaddrs[0];
        } else {
          addr := "none/IPv4-only network";
        }
      }
    }
    info := AdapterIPv6Info(addr, firstpublic);
  }
}
