/** Network shares mounted by autofs (the share loop of `getInfo`): each line
    of an autofs map names a mount point, its mount options and the remote
    location. */
module Shares {
  import opened Text
  import opened Wrappers

  datatype Share = Share(
    name: string,
    mountMethod: string,
    kind: string,
    mode: string,
    path: string,
    host: string,
    ipAddress: Option<string>,
    friendlyAddress: string)

  // Mount options.

  function Settings(options: string): seq<string> {
    Split(options, ',')
  }

  /** The SMB protocol version: "SMBv1.0" unless a "vers=" setting is present,
      in which case the last one decides. */
  function VersionOf(settings: seq<string>): string {
    if |settings| == 0 then "SMBv1.0"
    else
      var last := settings[|settings| - 1];
      if StartsWith(last, "vers=") then Replace(last, "vers=", "SMBv") else VersionOf(settings[..|settings| - 1])
  }

  /** The file system type shown for the options of a line. */
  function KindOf(options: string): string {
    if Contains(options, "cifs") then VersionOf(Settings(options))
    else if Contains(options, "nfs") then "NFS"
    else "unknown"
  }

  /** The type detection of the share loop: "cifs" first, then "nfs". */
  method ShareKind(options: string) returns (kind: string)
    ensures kind == KindOf(options)
  {
    kind := "unknown";
    if Contains(options, "cifs") {
      kind := "SMBv1.0";
      var settings := Settings(options);
      var i := 0;
      while i < |settings|
        invariant 0 <= i <= |settings|
        invariant kind == VersionOf(settings[..i])
      {
        var setting := settings[i];
        if StartsWith(setting, "vers=") {
          kind := Replace(setting, "vers=", "SMBv");
        }
        assert settings[..i + 1][..i] == settings[..i];
        i := i + 1;
      }
      assert settings[..|settings|] == settings;
    } else if Contains(options, "nfs") {
      kind := "NFS";
    }
  }

  /** Without a "vers=" setting an SMB share is SMB 1.0. */
  lemma {:induction false} VersionDefault(settings: seq<string>)
    requires forall k :: 0 <= k < |settings| ==> !StartsWith(settings[k], "vers=")
    ensures VersionOf(settings) == "SMBv1.0"
  {
    if |settings| > 0 {
      var init := settings[..|settings| - 1];
      assert forall k :: 0 <= k < |init| ==> init[k] == settings[k];
      VersionDefault(init);
    }
  }

  /** Otherwise the last "vers=" setting decides, whatever came before it. */
  lemma {:induction false} VersionLast(settings: seq<string>, k: nat)
    requires k < |settings| && StartsWith(settings[k], "vers=")
    requires forall j :: k < j < |settings| ==> !StartsWith(settings[j], "vers=")
    ensures VersionOf(settings) == Replace(settings[k], "vers=", "SMBv")
  {
    if k < |settings| - 1 {
      var init := settings[..|settings| - 1];
      assert forall j :: 0 <= j < |init| ==> init[j] == settings[j];
      VersionLast(init, k);
    }
  }

  /** "vers=X" reads as "SMBvX". */
  lemma VersionText(x: string)
    requires !Contains(x, "vers=")
    ensures Replace("vers=" + x, "vers=", "SMBv") == "SMBv" + x
  {
    var s := "vers=" + x;
    assert s[..5] == "vers=";
    assert s[5..] == x;
    ReplaceAbsent(x, "vers=", "SMBv");
  }

  /** The mode detection of the share loop: read-only once any setting is "ro". */
  method ShareMode(options: string) returns (mode: string)
    ensures mode == if "ro" in Settings(options) then "r/o" else "r/w"
  {
    mode := "r/w";
    var settings := Settings(options);
    var i := 0;
    while i < |settings|
      invariant 0 <= i <= |settings|
      invariant mode == if "ro" in settings[..i] then "r/o" else "r/w"
    {
      var setting := settings[i];
      if setting == "ro" {
        mode := "r/o";
      }
      assert settings[..i + 1] == settings[..i] + [setting];
      i := i + 1;
    }
    assert settings[..|settings|] == settings;
  }

  // The remote location: "host:/export" for NFS, "://host/share" for SMB.

  /** What the server of a location needs: a location starting with ':' has a
      third '/'-field (the source does not catch the error otherwise). */
  predicate LocationReadable(uri: string) {
    Split(uri, ':')[0] != "" || |Split(uri, '/')| >= 3
  }

  function ServerOf(uri: string): string
    requires LocationReadable(uri)
  {
    var parts := Split(uri, ':');
    if parts[0] == "" then Split(uri, '/')[2] else parts[0]
  }

  function PathOf(uri: string): string {
    var t := Strip(uri);
    if Split(uri, ':')[0] == "" then (if |t| > 0 then t[1..] else t) else uri
  }

  /** An NFS location "host:rest" names the host before the colon and keeps
      the whole location as the path. */
  lemma NfsLocation(host: string, rest: string)
    requires host != "" && ':' !in host
    ensures LocationReadable(host + ":" + rest)
    ensures ServerOf(host + ":" + rest) == host && PathOf(host + ":" + rest) == host + ":" + rest
  {
    SplitOfPrefix(host, ':', rest);
    assert host + ":" + rest == host + [':'] + rest;
  }

  lemma SmbSlashFields(uri: string, host: string)
    requires |uri| >= 3 + |host| && uri[..3] == "://" && uri[3..3 + |host|] == host && '/' !in host
    requires 3 + |host| == |uri| || uri[3 + |host|] == '/'
    ensures |Split(uri, '/')| >= 3 && Split(uri, '/')[2] == host
  {
    LeadingSlashes(uri);
    var rest := uri[3..];
    assert rest[..|host|] == host;
    HostField(rest, host);
  }

  /** "://rest" splits into ":", "" and the fields of rest. */
  lemma LeadingSlashes(uri: string)
    requires |uri| >= 3 && uri[..3] == "://"
    ensures Split(uri, '/') == [":"] + ([""] + Split(uri[3..], '/'))
  {
    assert uri[0] == ':' && uri[1] == '/' by { assert uri[..3][0] == uri[0] && uri[..3][1] == uri[1]; }
    assert uri[2] == '/' by { assert uri[..3][2] == uri[2]; }
    SplitHead(uri, '/', 1);
    var s2 := uri[2..];
    SplitHead(s2, '/', 0);
    assert s2[1..] == uri[3..];
    assert uri[..1] == ":";
  }

  /** Text starting with a slash-free host, up to a slash or the end, has
      that host as its first field. */
  lemma HostField(rest: string, host: string)
    requires |host| <= |rest| && rest[..|host|] == host && '/' !in host
    requires |host| == |rest| || rest[|host|] == '/'
    ensures Split(rest, '/')[0] == host
  {
    assert forall j :: 0 <= j < |host| ==> rest[j] != '/' by {
      assert forall j :: 0 <= j < |host| ==> rest[j] == host[j];
    }
    SplitHead(rest, '/', |host|);
  }

  /** An SMB location "://host/rest" names the host between the slashes and
      drops the leading colon from the path. */
  lemma SmbLocation(uri: string, host: string)
    requires |uri| >= 3 + |host| && uri[..3] == "://" && uri[3..3 + |host|] == host && '/' !in host
    requires 3 + |host| == |uri| || uri[3 + |host|] == '/'
    requires forall k :: 0 <= k < |uri| ==> !IsWhitespace(uri[k])
    ensures LocationReadable(uri)
    ensures ServerOf(uri) == host && PathOf(uri) == uri[1..]
  {
    assert uri[0] == ':' by { assert uri[..3][0] == uri[0]; }
    assert IndexOf(uri, ':') == 0;
    assert Split(uri, ':')[0] == "";
    SmbSlashFields(uri, host);
    StripNoWhitespace(uri);
  }

  /** The host with its resolved address in parentheses, unless there is none
      or it is the host itself. */
  function Friendly(server: string, ip: Option<string>): string {
    if ip.Some? && ip.value != server then server + " (" + ip.value + ")" else server
  }

  lemma FriendlyMeaning(server: string, ip: Option<string>)
    ensures StartsWith(Friendly(server, ip), server)
    ensures Friendly(server, ip) == server <==> ip.None? || ip.value == server
  {
    if ip.Some? && ip.value != server {
      assert (server + " (" + ip.value + ")")[..|server|] == server;
    }
  }

  // Resolution of the server's address.

  /** The outcome of one `getaddrinfo` call: it raises, or yields addresses. */
  datatype Lookup = Raises | Answer(addrs: seq<string>)

  /** The resolution as written: an IPv6 lookup that raises leaves the
      address unresolved without trying IPv4. */
  function ResolveAsWritten(hasIpv6: bool, v6: Lookup, v4: Lookup): Option<string> {
    if hasIpv6 && v6.Raises? then None
    else if hasIpv6 && |v6.addrs| > 0 then Some("[" + v6.addrs[0] + "]")
    else if v4.Answer? && |v4.addrs| > 0 then Some(v4.addrs[0])
    else None
  }

  /** The resolution the comments describe: IPv6 first, IPv4 when IPv6 fails
      or is not present. */
  function Resolve(hasIpv6: bool, v6: Lookup, v4: Lookup): Option<string> {
    if hasIpv6 && v6.Answer? && |v6.addrs| > 0 then Some("[" + v6.addrs[0] + "]")
    else if v4.Answer? && |v4.addrs| > 0 then Some(v4.addrs[0])
    else None
  }

  /** A host with only an IPv4 address stays unresolved as written. */
  lemma ResolveAsWrittenSkipsIPv4(v6: Lookup, v4: Lookup)
    requires v6 == Raises && v4 == Answer(["192.168.0.10"])
    ensures ResolveAsWritten(true, v6, v4) == None
    ensures Resolve(true, v6, v4) == Some("192.168.0.10")
  {
  }

  /** The corrected resolution finds an address exactly when some lookup
      that is tried yields one, and prefers IPv6 in brackets. */
  lemma ResolveMeaning(hasIpv6: bool, v6: Lookup, v4: Lookup)
    ensures Resolve(hasIpv6, v6, v4).None? <==>
      !(hasIpv6 && v6.Answer? && |v6.addrs| > 0) && !(v4.Answer? && |v4.addrs| > 0)
    ensures hasIpv6 && v6.Answer? && |v6.addrs| > 0 ==> Resolve(hasIpv6, v6, v4) == Some("[" + v6.addrs[0] + "]")
  {
  }

  /** Both agree unless the IPv6 lookup raises. */
  lemma ResolveAgrees(hasIpv6: bool, v6: Lookup, v4: Lookup)
    requires !(hasIpv6 && v6.Raises?)
    ensures ResolveAsWritten(hasIpv6, v6, v4) == Resolve(hasIpv6, v6, v4)
  {
  }

  /** The name service as the share loop sees it: whether IPv6 is present,
      and what the IPv6 and the IPv4 lookup of a host give. */
  datatype Resolver = Resolver(hasIpv6: bool, v6: string -> Lookup, v4: string -> Lookup)

  /** The address shown for a host, resolved as the share loop does it. */
  function Address(dns: Resolver, host: string): Option<string> {
    ResolveAsWritten(dns.hasIpv6, dns.v6(host), dns.v4(host))
  }

  /** The shown address is the one of the corrected resolution whenever the
      IPv6 lookup of the host does not raise; when it raises on a system with
      IPv6, no address is shown. */
  lemma AddressMeaning(dns: Resolver, host: string)
    ensures !(dns.hasIpv6 && dns.v6(host).Raises?) ==>
      Address(dns, host) == Resolve(dns.hasIpv6, dns.v6(host), dns.v4(host))
    ensures dns.hasIpv6 && dns.v6(host).Raises? ==> Address(dns, host).None?
  {
    if !(dns.hasIpv6 && dns.v6(host).Raises?) {
      ResolveAgrees(dns.hasIpv6, dns.v6(host), dns.v4(host));
    }
  }

  // One line of an autofs map.

  /** The whitespace-separated fields of a line once escaped spaces are
      masked. */
  function Fields(line: string): seq<string> {
    SplitWhitespace(Replace(line, "\\ ", "_"))
  }

  /** No backslash stands right before a space. */
  predicate NoEscapedSpace(r: string) {
    forall i :: 0 <= i < |r| - 1 ==> !(r[i] == '\\' && r[i + 1] == ' ')
  }

  lemma MaskHead(t: string)
    requires |t| > 0
    ensures |Replace(t, "\\ ", "_")| > 0
    ensures Replace(t, "\\ ", "_")[0] == t[0] || Replace(t, "\\ ", "_")[0] == '_'
  {
  }

  /** Masking leaves no escaped space behind, so a credential holding one
      stays a single field. */
  lemma {:induction false} MaskRemovesEscapedSpaces(s: string)
    ensures NoEscapedSpace(Replace(s, "\\ ", "_"))
    decreases |s|
  {
    var r := Replace(s, "\\ ", "_");
    if |s| >= 2 {
      if s[..2] == "\\ " {
        var rest := Replace(s[2..], "\\ ", "_");
        MaskRemovesEscapedSpaces(s[2..]);
        assert r == "_" + rest;
        forall i | 0 <= i < |r| - 1 ensures !(r[i] == '\\' && r[i + 1] == ' ') {
          if i > 0 {
            assert r[i] == rest[i - 1] && r[i + 1] == rest[i];
          }
        }
      } else {
        var rest := Replace(s[1..], "\\ ", "_");
        MaskRemovesEscapedSpaces(s[1..]);
        MaskHead(s[1..]);
        assert r == [s[0]] + rest;
        forall i | 0 <= i < |r| - 1 ensures !(r[i] == '\\' && r[i + 1] == ' ') {
          if i > 0 {
            assert r[i] == rest[i - 1] && r[i + 1] == rest[i];
          }
        }
      }
    }
  }

  /** Field text that neither the masking nor the split changes. */
  predicate Plain(s: string) {
    forall j :: 0 <= j < |s| ==> !IsWhitespace(s[j]) && s[j] != '\\'
  }

  /** Masking passes over a prefix without backslashes. */
  lemma {:induction false} MaskPlainPrefix(a: string, s: string)
    requires '\\' !in a
    ensures Replace(a + s, "\\ ", "_") == a + Replace(s, "\\ ", "_")
    decreases |a|
  {
    if |a| > 0 {
      var t := a + s;
      assert t[0] == a[0];
      assert t[1..] == a[1..] + s;
      MaskPlainPrefix(a[1..], s);
      if |t| < 2 {
        assert s == [];
      }
    } else {
      assert a + s == s;
    }
  }

  lemma MaskPlain(s: string)
    requires '\\' !in s
    ensures Replace(s, "\\ ", "_") == s
  {
    ContainsFirstChar(s, "\\ ");
    ReplaceAbsent(s, "\\ ", "_");
  }

  /** The masked text of a line whose options hold one escaped space. */
  lemma MaskedLine(name: string, o1: string, o2: string, loc: string)
    requires '\\' !in name && '\\' !in o1 && '\\' !in o2 && '\\' !in loc
    ensures Replace(name + " " + o1 + "\\ " + o2 + " " + loc, "\\ ", "_")
      == name + (" " + ((o1 + "_" + o2) + (" " + loc)))
  {
    var head := name + " " + o1;
    var tail := o2 + " " + loc;
    LineShape(name, o1, o2, loc);
    MaskPlainPrefix(head, "\\ " + tail);
    MaskEscape(tail);
    MaskPlain(tail);
  }

  lemma MaskEscape(tail: string)
    ensures Replace("\\ " + tail, "\\ ", "_") == "_" + Replace(tail, "\\ ", "_")
  {
    var e := "\\ " + tail;
    assert e[..2] == "\\ " && e[2..] == tail;
  }

  /** The line around its escaped space, before and after masking. */
  lemma LineShape(name: string, o1: string, o2: string, loc: string)
    ensures name + " " + o1 + "\\ " + o2 + " " + loc == (name + " " + o1) + ("\\ " + (o2 + " " + loc))
    ensures (name + " " + o1) + ("_" + (o2 + " " + loc)) == name + (" " + ((o1 + "_" + o2) + (" " + loc)))
  {
  }

  /** A credential holding an escaped space stays inside the options field:
      the line still has exactly three fields, the escaped space masked. */
  lemma MaskedOptionsField(name: string, o1: string, o2: string, loc: string)
    requires |name| > 0 && |loc| > 0
    requires Plain(name) && Plain(o1) && Plain(o2) && Plain(loc)
    ensures Fields(name + " " + o1 + "\\ " + o2 + " " + loc) == [name, o1 + "_" + o2, loc]
  {
    MaskedLine(name, o1, o2, loc);
    var mid := o1 + "_" + o2;
    assert forall j :: 0 <= j < |mid| ==> !IsWhitespace(mid[j]);
    SplitThreeTokens(name, mid, loc);
  }

  predicate LineReadable(line: string) {
    StartsWith(line, "#") || |Fields(line)| != 3 || LocationReadable(Fields(line)[2])
  }

  /** The share a line describes, or nothing for a comment or a line without
      exactly three fields. */
  function ShareOf(line: string, dns: Resolver): Option<Share>
    requires LineReadable(line)
  {
    if StartsWith(line, "#") then None
    else
      var tmp := Fields(line);
      if |tmp| != 3 then None
      else
        var server := ServerOf(tmp[2]);
        var ip := if server != "" then Address(dns, server) else None;
        var mode := if "ro" in Settings(tmp[1]) then "r/o" else "r/w";
        Some(Share(Strip(tmp[0]), "autofs", KindOf(tmp[1]), mode, PathOf(tmp[2]), server, ip, Friendly(server, ip)))
  }

  predicate AllReadable(lines: seq<string>) {
    forall i :: 0 <= i < |lines| ==> LineReadable(lines[i])
  }

  /** The shares of a map, in the order of its lines. */
  function SharesOf(lines: seq<string>, dns: Resolver): seq<Share>
    requires AllReadable(lines)
  {
    if |lines| == 0 then []
    else
      var init := lines[..|lines| - 1];
      assert forall i :: 0 <= i < |init| ==> init[i] == lines[i];
      var found := ShareOf(lines[|lines| - 1], dns);
      SharesOf(init, dns) + if found.Some? then [found.value] else []
  }

  /** The body of the share loop for one line of a map. */
  method ParseShareLine(line: string, dns: Resolver) returns (found: Option<Share>)
    requires LineReadable(line)
    ensures found == ShareOf(line, dns)
  {
    found := None;
    if !StartsWith(line, "#") {
      var tmpline := Replace(line, "\\ ", "_");
      var tmp := SplitWhitespace(tmpline);
      if |tmp| == 3 {
        var name := Strip(tmp[0]);
        var kind := ShareKind(tmp[1]);
        var mode := ShareMode(tmp[1]);
        var uri := tmp[2];
        var parts := Split(tmp[2], ':');
        var server;
        if parts[0] == "" {
          server := Split(uri, '/')[2];
          var stripped := Strip(uri);
          uri := if |stripped| > 0 then stripped[1..] else stripped;
        } else {
          server := parts[0];
        }
        var ipaddress: Option<string> := None;
        if server != "" {
          ipaddress := Address(dns, server);
        }
        var friendlyaddress := server;
        if ipaddress.Some? && ipaddress.value != server {
          friendlyaddress := server + " (" + ipaddress.value + ")";
        }
        found := Some(Share(name, "autofs", kind, mode, uri, server, ipaddress, friendlyaddress));
      }
    }
  }

  /** The loop over one map file, appending a share per usable line. */
  method ScanMap(lines: seq<string>, dns: Resolver) returns (shares: seq<Share>)
    requires AllReadable(lines)
    ensures shares == SharesOf(lines, dns)
  {
    shares := [];
    var i := 0;
    while i < |lines|
      invariant 0 <= i <= |lines|
      invariant AllReadable(lines[..i])
      invariant shares == SharesOf(lines[..i], dns)
    {
      assert lines[..i + 1][..i] == lines[..i];
      assert lines[..i + 1][i] == lines[i];
      var found := ParseShareLine(lines[i], dns);
      if found.Some? {
        shares := shares + [found.value];
      }
      i := i + 1;
    }
    assert lines[..|lines|] == lines;
  }

  /** Both autofs maps, the second after the first; a missing map adds
      nothing. */
  method ScanShares(network: Option<seq<string>>, networkVti: Option<seq<string>>,
                    dns: Resolver) returns (shares: seq<Share>)
    requires network.Some? ==> AllReadable(network.value)
    requires networkVti.Some? ==> AllReadable(networkVti.value)
    ensures shares == (if network.Some? then SharesOf(network.value, dns) else []) +
      (if networkVti.Some? then SharesOf(networkVti.value, dns) else [])
  {
    var first: seq<Share> := [];
    if network.Some? {
      first := ScanMap(network.value, dns);
    }
    var second: seq<Share> := [];
    if networkVti.Some? {
      second := ScanMap(networkVti.value, dns);
    }
    shares := first + second;
  }

  /** A comment line or one without exactly three fields gives no share; any
      other gives the share of its three fields: the stripped mount point as
      its name, the kind its options name, the server and path of its
      location, the mode of its options, the looked-up address of the server,
      and the server with that address when it differs. */
  lemma ShareOfMeaning(line: string, dns: Resolver)
    requires LineReadable(line)
    ensures ShareOf(line, dns).Some? <==> !StartsWith(line, "#") && |Fields(line)| == 3
    ensures ShareOf(line, dns).Some? ==>
      var s := ShareOf(line, dns).value;
      s.name == Strip(Fields(line)[0]) &&
      s.mountMethod == "autofs" &&
      s.kind == KindOf(Fields(line)[1]) &&
      s.host == ServerOf(Fields(line)[2]) &&
      s.path == PathOf(Fields(line)[2]) &&
      s.friendlyAddress == Friendly(s.host, s.ipAddress) &&
      (s.host == "" ==> s.ipAddress.None?) &&
      (s.host != "" ==> s.ipAddress == Address(dns, s.host)) &&
      StartsWith(s.friendlyAddress, s.host) &&
      (s.mode == "r/o" <==> "ro" in Settings(Fields(line)[1]))
  {
    if !StartsWith(line, "#") && |Fields(line)| == 3 {
      var s := ShareOf(line, dns).value;
      FriendlyMeaning(s.host, s.ipAddress);
    }
  }

  /** A share for every usable line, in order: the i-th share comes from the
      i-th line that gives one. */
  lemma {:induction false} SharesOfMembers(lines: seq<string>, dns: Resolver, s: Share)
    requires AllReadable(lines)
    ensures s in SharesOf(lines, dns) <==>
      exists i :: 0 <= i < |lines| && ShareOf(lines[i], dns) == Some(s)
  {
    if |lines| > 0 {
      var n := |lines| - 1;
      var init := lines[..n];
      assert forall i :: 0 <= i < n ==> init[i] == lines[i];
      SharesOfMembers(init, dns, s);
      var found := ShareOf(lines[n], dns);
      var tail := if found.Some? then [found.value] else [];
      assert SharesOf(lines, dns) == SharesOf(init, dns) + tail;
      if s in SharesOf(init, dns) {
        var i :| 0 <= i < n && ShareOf(init[i], dns) == Some(s);
        assert ShareOf(lines[i], dns) == Some(s);
      } else if s in tail {
        assert ShareOf(lines[n], dns) == Some(s);
      }
      if i :| 0 <= i < |lines| && ShareOf(lines[i], dns) == Some(s) {
        if i < n {
          assert ShareOf(init[i], dns) == Some(s);
        } else {
          assert i == n && found == Some(s);
          assert tail == [s];
        }
      }
    }
  }
}
