/** How an interface gets its addresses, read from the lines of the network
    interfaces file (`getIPMethod` for IPv6, `getIPv4Method` for IPv4). A
    missing file reads as no lines. */
module IfaceMethod {
  import opened Text

  datatype Family = Inet | Inet6

  /** The address-family word a stanza line must hold. */
  function Marker(f: Family): string {
    if f == Inet6 then "inet6" else "inet "
  }

  /** The method reported when no line decides it. */
  function DefaultMethod(f: Family): string {
    if f == Inet6 then "SLAAC" else "static"
  }

  /** A line that is looked at: not a comment, an `iface` stanza of the
      family, naming the interface somewhere. */
  predicate Applies(f: Family, line: string, iface: string) {
    !StartsWith(line, "#") && StartsWith(line, "iface") && Contains(line, Marker(f)) && Contains(line, iface)
  }

  /** The checks of one applicable line, in the order they run: each one that
      matches overwrites the method found so far. */
  function LineMethod(f: Family, line: string, current: string): string {
    var m1 := if Contains(line, "static") then "static" else current;
    var m2 := if Contains(line, "dhcp") then "DHCP" else m1;
    var m3 := if Contains(line, "manual") then "manual/disabled" else m2;
    if f == Inet6 && Contains(line, "6to4") then "6to4" else m3
  }

  /** The method after the given lines, in file order. */
  function MethodOf(f: Family, lines: seq<string>, iface: string): string {
    if |lines| == 0 then DefaultMethod(f)
    else
      var before := MethodOf(f, lines[..|lines| - 1], iface);
      var line := lines[|lines| - 1];
      if Applies(f, line, iface) then LineMethod(f, line, before) else before
  }

  /** The scan over the file, overwriting the method line by line. */
  method ScanMethod(f: Family, lines: seq<string>, iface: string) returns (method_: string)
    ensures method_ == MethodOf(f, lines, iface)
  {
    method_ := DefaultMethod(f);
    var i := 0;
    while i < |lines|
      invariant 0 <= i <= |lines|
      invariant method_ == MethodOf(f, lines[..i], iface)
    {
      var line := lines[i];
      if !StartsWith(line, "#") {
        if StartsWith(line, "iface") && Contains(line, Marker(f)) && Contains(line, iface) {
          if Contains(line, "static") {
            method_ := "static";
          }
          if Contains(line, "dhcp") {
            method_ := "DHCP";
          }
          if Contains(line, "manual") {
            method_ := "manual/disabled";
          }
          if f == Inet6 && Contains(line, "6to4") {
            method_ := "6to4";
          }
        }
      }
      assert lines[..i + 1][..i] == lines[..i];
      i := i + 1;
    }
    assert lines[..|lines|] == lines;
  }

  // An independent reading: the decisive line and its strongest keyword.

  predicate HasKeyword(f: Family, line: string) {
    Contains(line, "static") || Contains(line, "dhcp") || Contains(line, "manual")
    || (f == Inet6 && Contains(line, "6to4"))
  }

  /** A line that settles the method: applicable and holding a keyword. */
  predicate Decisive(f: Family, line: string, iface: string) {
    Applies(f, line, iface) && HasKeyword(f, line)
  }

  /** The strongest keyword of a line: 6to4 (for IPv6) over manual over dhcp
      over static. */
  function Keyword(f: Family, line: string): string {
    if f == Inet6 && Contains(line, "6to4") then "6to4"
    else if Contains(line, "manual") then "manual/disabled"
    else if Contains(line, "dhcp") then "DHCP"
    else "static"
  }

  lemma LineMethodDecides(f: Family, line: string, current: string)
    ensures LineMethod(f, line, current) == if HasKeyword(f, line) then Keyword(f, line) else current
  {
  }

  /** With no decisive line the family's default stands. */
  lemma {:induction false} MethodOfUndecided(f: Family, lines: seq<string>, iface: string)
    requires forall i :: 0 <= i < |lines| ==> !Decisive(f, lines[i], iface)
    ensures MethodOf(f, lines, iface) == DefaultMethod(f)
  {
    if |lines| > 0 {
      var init := lines[..|lines| - 1];
      assert forall i :: 0 <= i < |init| ==> init[i] == lines[i];
      MethodOfUndecided(f, init, iface);
      LineMethodDecides(f, lines[|lines| - 1], MethodOf(f, init, iface));
    }
  }

  /** The method is the strongest keyword of the last decisive line. */
  lemma {:induction false} MethodOfLastDecisive(f: Family, lines: seq<string>, iface: string, k: nat)
    requires k < |lines| && Decisive(f, lines[k], iface)
    requires forall j :: k < j < |lines| ==> !Decisive(f, lines[j], iface)
    ensures MethodOf(f, lines, iface) == Keyword(f, lines[k])
  {
    var init := lines[..|lines| - 1];
    LineMethodDecides(f, lines[|lines| - 1], MethodOf(f, init, iface));
    if k < |lines| - 1 {
      assert forall j :: 0 <= j < |init| ==> init[j] == lines[j];
      MethodOfLastDecisive(f, init, iface, k);
    }
  }

  /** A later decisive line overrides whatever earlier lines said. */
  lemma LaterLineWins(f: Family, lines: seq<string>, line: string, iface: string)
    requires Decisive(f, line, iface)
    ensures MethodOf(f, lines + [line], iface) == Keyword(f, line)
  {
    MethodOfLastDecisive(f, lines + [line], iface, |lines|);
  }

  /** The example stanza: a DHCP line for IPv6 and a commented-out static one. */
  const DhcpLine := "iface eth0 inet6 dhcp"
  const CommentedLine := "#iface eth0 inet6 static"

  /** The family, interface and keyword of the example stanza line. */
  lemma ExampleLineHolds()
    ensures Contains(DhcpLine, "inet6") && Contains(DhcpLine, "eth0") && Contains(DhcpLine, "dhcp")
  {
    WordAt(DhcpLine, "inet6", 11);
    WordAt(DhcpLine, "eth0", 6);
    WordAt(DhcpLine, "dhcp", 17);
  }

  lemma WordAt(s: string, p: string, i: nat)
    requires i + |p| <= |s| && s[i..i + |p|] == p
    ensures Contains(s, p)
  {
    ContainsAt(s, p);
    assert OccursAt(s, p, i);
  }

  /** The IPv4 marker and the other keywords are not in the example line. */
  lemma ExampleLineLacks()
    ensures !Contains(DhcpLine, "inet ") && !Contains(DhcpLine, "manual") && !Contains(DhcpLine, "6to4")
    ensures !Contains(DhcpLine, "static")
  {
    ExampleLineNotV4();
    ExampleLineNot6to4();
    ExampleLineLetters();
    ContainsFirstChar(DhcpLine, "static");
    ContainsFirstChar(DhcpLine, "manual");
  }

  lemma ExampleLineLetters()
    ensures 's' !in DhcpLine && 'm' !in DhcpLine
  {
    var line := DhcpLine;
    assert forall i :: 0 <= i < |line| ==> line[i] != 's' && line[i] != 'm';
  }

  lemma ExampleLineNotV4()
    ensures !Contains(DhcpLine, "inet ")
  {
    EndsAbsent(DhcpLine, "inet ");
  }

  lemma ExampleLineNot6to4()
    ensures !Contains(DhcpLine, "6to4")
  {
    EndsAbsent(DhcpLine, "6to4");
  }

  /** A DHCP stanza for IPv6 decides that family; the IPv4 scan ignores it,
      and a commented-out line is skipped by both. */
  lemma ScanExample()
    ensures MethodOf(Inet6, [DhcpLine, CommentedLine], "eth0") == "DHCP"
    ensures MethodOf(Inet, [DhcpLine, CommentedLine], "eth0") == "static"
  {
    ExampleLineHolds();
    ExampleLineLacks();
    ExampleShape();
    ScanExampleInet6("eth0", DhcpLine, CommentedLine);
    ScanExampleInet("eth0", DhcpLine, CommentedLine);
  }

  lemma ExampleShape()
    ensures StartsWith(DhcpLine, "iface") && !StartsWith(DhcpLine, "#") && StartsWith(CommentedLine, "#")
  {
    assert DhcpLine[..1][0] == 'i';
  }

  lemma ScanExampleInet6(iface: string, line: string, comment: string)
    requires StartsWith(line, "iface") && !StartsWith(line, "#") && StartsWith(comment, "#")
    requires Contains(line, "inet6") && Contains(line, iface) && Contains(line, "dhcp")
    requires !Contains(line, "manual") && !Contains(line, "6to4")
    ensures MethodOf(Inet6, [line, comment], iface) == "DHCP"
  {
    assert Decisive(Inet6, line, iface);
    MethodOfLastDecisive(Inet6, [line, comment], iface, 0);
  }

  lemma ScanExampleInet(iface: string, line: string, comment: string)
    requires StartsWith(comment, "#") && !Contains(line, "inet ")
    ensures MethodOf(Inet, [line, comment], iface) == "static"
  {
    assert !Decisive(Inet, line, iface);
    MethodOfUndecided(Inet, [line, comment], iface);
  }
}
