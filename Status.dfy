/** Two pieces of `getStatusInfo`: the file name of the service being played,
    and the recording flag with the list of running recordings. */
module Status {
  import opened Text
  import opened Wrappers

  // Cleaning service names: the source drops the control codes U+0086 and
  // U+0087 (the bytes "\xc2\x86", "\xc2\x87") that mark emphasis in DVB names.

  const EmphasisOn: char := '\U{0086}'
  const EmphasisOff: char := '\U{0087}'

  /** `s` with every `c` deleted, the reference definition. */
  function Without(s: string, c: char): (t: string)
    ensures c !in t
    ensures |t| <= |s|
  {
    if |s| == 0 then []
    else if s[0] == c then Without(s[1..], c)
    else [s[0]] + Without(s[1..], c)
  }

  /** Replacing one character by nothing deletes it. */
  lemma {:induction false} ReplaceDeletes(s: string, c: char)
    ensures Replace(s, [c], "") == Without(s, c)
    decreases |s|
  {
    if |s| > 0 {
      ReplaceDeletes(s[1..], c);
      if s[..1] == [c] {
        assert s[0] == c;
        assert s[1..] == s[|[c]|..];
      } else {
        assert s[0] != c;
      }
    }
  }

  lemma {:induction false} WithoutKeepsAbsent(s: string, c: char, d: char)
    requires d !in s
    ensures d !in Without(s, c)
    decreases |s|
  {
    if |s| > 0 {
      WithoutKeepsAbsent(s[1..], c, d);
    }
  }

  lemma {:induction false} WithoutKeepsOthers(s: string, c: char, d: char)
    requires d != c
    ensures multiset(Without(s, c))[d] == multiset(s)[d]
    decreases |s|
  {
    if |s| > 0 {
      WithoutKeepsOthers(s[1..], c, d);
      assert s == [s[0]] + s[1..];
    }
  }

  /** The service name as shown. */
  function Clean(name: string): string {
    Replace(Replace(name, [EmphasisOn], ""), [EmphasisOff], "")
  }

  /** A shown name holds no emphasis code and every other character as often
      as the original. */
  lemma CleanMeaning(name: string)
    ensures EmphasisOn !in Clean(name) && EmphasisOff !in Clean(name)
    ensures forall d :: d != EmphasisOn && d != EmphasisOff ==> multiset(Clean(name))[d] == multiset(name)[d]
    ensures Clean(name) == Without(Without(name, EmphasisOn), EmphasisOff)
  {
    var first := Without(name, EmphasisOn);
    ReplaceDeletes(name, EmphasisOn);
    ReplaceDeletes(first, EmphasisOff);
    WithoutKeepsAbsent(first, EmphasisOff, EmphasisOn);
    forall d | d != EmphasisOn && d != EmphasisOff
      ensures multiset(Clean(name))[d] == multiset(name)[d]
    {
      WithoutKeepsOthers(name, EmphasisOn, d);
      WithoutKeepsOthers(first, EmphasisOff, d);
    }
  }

  /** Plain names are shown unchanged. */
  lemma CleanPlain(name: string)
    requires EmphasisOn !in name && EmphasisOff !in name
    ensures Clean(name) == name
  {
    ContainsFirstChar(name, [EmphasisOn]);
    ReplaceAbsent(name, [EmphasisOn], "");
    ContainsFirstChar(name, [EmphasisOff]);
    ReplaceAbsent(name, [EmphasisOff], "");
  }

  // Recording state.

  /** What `getStatusInfo` reads of an entry of the record timer list. */
  datatype RecordTimer = RecordTimer(running: bool, justplay: bool, serviceName: string, name: string)

  /** A running timer that records rather than only switches channel. */
  predicate Records(t: RecordTimer) {
    t.running && !t.justplay
  }

  function Entry(t: RecordTimer): (line: string)
    ensures |line| > 0 && line[|line| - 1] == '\n'
  {
    Clean(t.serviceName) + ": " + t.name + "\n"
  }

  /** The entries of the recording timers, in list order. */
  function Listed(timers: seq<RecordTimer>): string {
    if |timers| == 0 then ""
    else
      var init := timers[..|timers| - 1];
      var last := timers[|timers| - 1];
      Listed(init) + if Records(last) then Entry(last) else ""
  }

  lemma ListedStep(timers: seq<RecordTimer>, i: nat)
    requires i < |timers|
    ensures Listed(timers[..i + 1]) == Listed(timers[..i]) + if Records(timers[i]) then Entry(timers[i]) else ""
  {
    assert timers[..i + 1][..i] == timers[..i];
  }

  /** The recording flag and list of `getStatusInfo`: without active
      recordings the flag is "false" and no list is given; otherwise the list
      is a line break followed by one line per recording timer, and the flag
      says whether there was any. */
  method RecordingStatus(hasRecordings: bool, timers: seq<RecordTimer>)
    returns (isRecording: string, recordingList: Option<string>)
    ensures !hasRecordings ==> recordingList == None
    ensures hasRecordings ==> recordingList == Some("\n" + Listed(timers))
    ensures isRecording == "true" || isRecording == "false"
    ensures isRecording == "true" <==> hasRecordings && exists i :: 0 <= i < |timers| && Records(timers[i])
  {
    if hasRecordings {
      isRecording := "true";
      var list := "\n";
      var i := 0;
      while i < |timers|
        invariant 0 <= i <= |timers|
        invariant list == "\n" + Listed(timers[..i])
      {
        var timer := timers[i];
        ListedStep(timers, i);
        if timer.running {
          if !timer.justplay {
            list := list + (Clean(timer.serviceName) + ": " + timer.name + "\n");
          }
        }
        i := i + 1;
      }
      assert timers[..|timers|] == timers;
      recordingList := Some(list);
      if list == "\n" {
        isRecording := "false";
      }
      assert list == "\n" <==> Listed(timers) == "" by {
        assert list == "\n" + Listed(timers);
        if list == "\n" {
          assert |Listed(timers)| == 0;
        }
      }
      ListedEmpty(timers);
    } else {
      isRecording := "false";
      recordingList := None;
    }
  }

  /** The list is empty exactly when no timer records. */
  lemma {:induction false} ListedEmpty(timers: seq<RecordTimer>)
    ensures Listed(timers) == "" <==> forall i :: 0 <= i < |timers| ==> !Records(timers[i])
  {
    if |timers| > 0 {
      var init := timers[..|timers| - 1];
      assert forall i :: 0 <= i < |init| ==> init[i] == timers[i];
      ListedEmpty(init);
    }
  }

  /** The list of two stretches of timers is the one list after the other. */
  lemma {:induction false} ListedAppend(a: seq<RecordTimer>, b: seq<RecordTimer>)
    ensures Listed(a + b) == Listed(a) + Listed(b)
    decreases |b|
  {
    if |b| == 0 {
      assert a + b == a;
    } else {
      var init := b[..|b| - 1];
      assert (a + b)[..|a + b| - 1] == a + init;
      assert (a + b)[|a + b| - 1] == b[|b| - 1];
      ListedAppend(a, init);
    }
  }

  /** A channel switch followed by a recording lists just the recording, and a
      plain service name is listed as it is. */
  lemma RecordingExample(zap: RecordTimer, news: RecordTimer)
    requires zap.running && zap.justplay
    requires news.running && !news.justplay
    requires EmphasisOn !in news.serviceName && EmphasisOff !in news.serviceName
    ensures Listed([zap, news]) == news.serviceName + ": " + news.name + "\n"
  {
    CleanPlain(news.serviceName);
    var both := [zap, news];
    assert both[..|both| - 1] == [zap] && both[|both| - 1] == news;
    assert [zap][..0] == [];
    assert Listed([zap]) == Listed([]) + "";
    assert Listed(both) == Listed([zap]) + Entry(news);
  }

  // The file name of the service being played.

  /** A file reference "1:0:0:...:/path/to/file" names the file after its
      first '/'. */
  function FilenameOf(ref: string): string {
    "/" + Join(Split(ref, '/')[1..], "/")
  }

  /** `currservice_filename`: with an event, a "1:0:0" reference names its
      file; without one, a "1:0:0" or "4097:0:0" reference names its file if
      that exists; otherwise, and when nothing plays, it is empty. */
  function CurrentFilename(ref: Option<string>, hasEvent: bool, pathExists: string -> bool): string {
    match ref
    case None => ""
    case Some(r) =>
      if hasEvent then
        if StartsWith(r, "1:0:0") then FilenameOf(r) else ""
      else if StartsWith(r, "1:0:0") || StartsWith(r, "4097:0:0") then
        if pathExists(FilenameOf(r)) then FilenameOf(r) else ""
      else ""
  }

  /** The file name is "/" followed by everything after the first '/' of the
      reference, or "/" alone when there is none. */
  lemma FilenameAfterSlash(ref: string)
    ensures '/' in ref ==> FilenameOf(ref) == "/" + ref[IndexOf(ref, '/') + 1..]
    ensures '/' !in ref ==> FilenameOf(ref) == "/"
  {
    if '/' in ref {
      AfterFirstSeparator(ref, '/');
    } else {
      SplitNoSeparator(ref, '/');
    }
  }

  /** A played file reference whose path part is absolute: the file name is
      that path. */
  lemma CurrentFilenameMeaning(prefix: string, path: string, hasEvent: bool, pathExists: string -> bool)
    requires StartsWith(prefix, "1:0:0") && '/' !in prefix
    requires |path| > 0 && path[0] == '/'
    ensures hasEvent ==> CurrentFilename(Some(prefix + path), hasEvent, pathExists) == path
    ensures !hasEvent ==>
      CurrentFilename(Some(prefix + path), hasEvent, pathExists) == if pathExists(path) then path else ""
  {
    FilenameOfPath(prefix, path);
    StartsWithAppend(prefix, "1:0:0", path);
  }

  /** A played media file ("4097:0:0") has a name only without an event, and
      then only when the file exists. */
  lemma MediaFilenameMeaning(prefix: string, path: string, hasEvent: bool, pathExists: string -> bool)
    requires StartsWith(prefix, "4097:0:0") && '/' !in prefix
    requires |path| > 0 && path[0] == '/'
    ensures hasEvent ==> CurrentFilename(Some(prefix + path), hasEvent, pathExists) == ""
    ensures !hasEvent ==>
      CurrentFilename(Some(prefix + path), hasEvent, pathExists) == if pathExists(path) then path else ""
  {
    FilenameOfPath(prefix, path);
    StartsWithAppend(prefix, "4097:0:0", path);
    assert (prefix + path)[0] == '4';
  }

  /** Nothing playing, or a reference that is no file, gives no file name. */
  lemma OtherFilename(ref: string, hasEvent: bool, pathExists: string -> bool)
    requires !StartsWith(ref, "1:0:0") && !StartsWith(ref, "4097:0:0")
    ensures CurrentFilename(Some(ref), hasEvent, pathExists) == ""
    ensures CurrentFilename(None, hasEvent, pathExists) == ""
  {
  }

  /** A reference made of a slash-free prefix and an absolute path names
      that path. */
  lemma FilenameOfPath(prefix: string, path: string)
    requires '/' !in prefix && |path| > 0 && path[0] == '/'
    ensures FilenameOf(prefix + path) == path
  {
    var r := prefix + path;
    assert r[|prefix|] == '/';
    assert forall j :: 0 <= j < |prefix| ==> r[j] == prefix[j];
    assert IndexOf(r, '/') == |prefix|;
    FilenameAfterSlash(r);
    assert r[|prefix| + 1..] == path[1..];
    assert path == "/" + path[1..];
  }

  lemma StartsWithAppend(s: string, p: string, t: string)
    requires StartsWith(s, p)
    ensures StartsWith(s + t, p)
  {
    assert (s + t)[..|p|] == s[..|p|];
  }

  // Alternatives of a service group.

  /** What `GetWithAlternative` returns: one reference, the whole list of
      alternatives, or nothing. */
  datatype Alternative = Single(ref: string) | Several(refs: seq<string>) | NoAlternative

  /** `GetWithAlternative`: for a group reference ("1:134:...") with
      alternatives, the first of them or all of them; otherwise the reference
      itself, or nothing when all alternatives were asked for. `channels`
      stands for the alternatives the service center lists, empty when it
      lists none. Asking for the first always gives one reference, the service
      itself unless it is a group with alternatives; asking for all gives the
      list exactly for such a group. */
  function WithAlternative(service: string, onlyFirst: bool, channels: seq<string>): (r: Alternative)
    ensures onlyFirst <==> r.Single?
    ensures onlyFirst && StartsWith(service, "1:134:") && |channels| > 0 ==> r == Single(channels[0])
    ensures r.Single? && r.ref != service ==> StartsWith(service, "1:134:") && |channels| > 0 && r.ref == channels[0]
    ensures !StartsWith(service, "1:134:") || |channels| == 0 ==> r == if onlyFirst then Single(service) else NoAlternative
    ensures !onlyFirst ==> (r == Several(channels) <==> StartsWith(service, "1:134:") && |channels| > 0)
  {
    if StartsWith(service, "1:134:") && |channels| > 0 then
      if onlyFirst then Single(channels[0]) else Several(channels)
    else if onlyFirst then Single(service)
    else NoAlternative
  }
}
