# OpenWebif box information: the verifiable core of `info.py`

OpenWebif's `plugin/controllers/models/info.py` collects what the web
interface shows about a receiver. Most of that comes from the receiver's
runtime. Inside the module sit self-contained text and integer routines, and
this project models those, with proofs:

- the orbital position of a satellite tuner ("19.2° E", "5.0° W") and the
  transponder text of other tuners;
- the link-speed label of a network interface;
- the dotted IPv4 text of an address and the prefix length of a netmask;
- the IPv6 addresses decoded from the kernel's `if_inet6` table;
- how an interface is configured (static, DHCP, manual, 6to4, SLAAC), read
  from the network interfaces file;
- the labelled capacity of a disk;
- the autofs network shares;
- the meminfo sums, the uptime text and the stream type flag;
- the file name of the played service and the recording list of the status
  call;
- the choice among the alternatives of a service group;
- the module-level snapshot cache of `getInfo`.

Python 2 semantics are written out where they matter:

- integer `/` floors, which is Dafny's division for the positive divisors used here;
- `str.replace` replaces every occurrence, left to right;
- `split`, `strip`, `startswith`, `in`, `int()`, `"%d"` and `"%.2d"` are defined in module `Text`;
- `list.sort` on strings is modelled by an insertion sort over Python's string order, in module `Sorting`; the ascending permutation of a list is unique (`Sorting.SortIsTheSortedPermutation`), so the result is the same as CPython's.

The translation function `_()` is taken as the identity, so the texts are the
English ones. Strings are decoded text: the bytes "\xc2\x86" and "\xc2\x87"
are the characters U+0086 and U+0087, and "°" is U+00B0.

The files of the interface table, `/proc/meminfo`, the autofs maps and
`if_inet6` are given as sequences of lines. A missing file is no lines, or
`None` where the source distinguishes it. The `speed` file of an interface is
an `Option` of its text. The following calls become parameters:

- `inet_ntop(inet_pton(...))` is an uninterpreted `canon` function;
- `getaddrinfo` is a `Resolver` value;
- `os.path.exists` is a `pathExists` predicate;
- the alternatives listed by the service center are a sequence;
- the builder of a fresh snapshot is a function.

Where a source path raises an uncaught exception, such as a short line or a
malformed number, the model states that condition as a `requires` and names
it in a predicate (`Readable`, `MemReadable`, `LineReadable`,
`LocationReadable`).

The 300,001 to 1,000,000 MB tier of the disk label is formatted with `%d`,
so a disk of 999,999 MB is labelled "1000 GB", not "1.0 TB" or "1000.0 GB"
(`Storage.NearTerabyte`).

## Model

| member | source | states |
|---|---|---|
| Orbital.GetOrb | plugin/controllers/models/info.py:531-536 | the position text; specified by `GetOrbReadsBack`, `GetOrbOnCircle` and the two example lemmas |
| Orbital.OrbitalText | plugin/controllers/models/info.py:520-529 | the transponder text; specified by `OrbitalTextMeaning` |
| Network.LinkSpeed | plugin/controllers/models/info.py:82-91 | the link-speed label; specified by `LinkSpeedHasUnit`, `LinkSpeedPlain`, `GigabitLabels` and `ShortSpeed` |
| Network.FormatIp | plugin/controllers/models/info.py:170-173 | the dotted text of an address; specified by `FormatIpReadsBack` |
| Network.V4Prefix | plugin/controllers/models/info.py:287 | the prefix length of a netmask; specified by `V4PrefixCountsBits` |
| IPv6.Normalize | plugin/controllers/models/info.py:111-128 | the prefix handling around the canonical address; specified by `NormalizeBare`, `NormalizeFullLength` and `NormalizeKeepsPrefix` |
| IPv6.Entry | plugin/controllers/models/info.py:148-157 | the address a contributing line adds; specified by `EntryPrefixed`, `EntryFullLength` and `EntryExample` |
| IPv6.Shown | plugin/controllers/models/info.py:159-165 | the displayed address list; specified by `ShownMeaning` |
| Storage.LabelledCapacity | plugin/controllers/models/info.py:317-333 | the capacity label; specified by the four tier lemmas |
| Shares.KindOf | plugin/controllers/models/info.py:358-367 | the share type; specified by `VersionDefault`, `VersionLast` and `ShareKind` |
| Shares.Friendly | plugin/controllers/models/info.py:404-406 | the friendly address; specified by `FriendlyMeaning` |
| Shares.ShareOf | plugin/controllers/models/info.py:350-416 | the share a map line gives; specified by `ShareOfMeaning` (with `VersionDefault`, `VersionLast`, `NfsLocation`, `SmbLocation` and `FriendlyMeaning` for its parts) and `AddressMeaning` |
| BoxInfo.Mem2 | plugin/controllers/models/info.py:213 | the free-memory text; specified by `MemTextsReadBack` |
| BoxInfo.Mem3 | plugin/controllers/models/info.py:214 | the free and total text; specified by `MemTextsReadBack` |
| BoxInfo.UptimeText | plugin/controllers/models/info.py:216-229 | the uptime text; specified by `UptimeReadsBack` and `UptimeExamples` |
| Status.Clean | plugin/controllers/models/info.py:626-627 | the cleaned service name; specified by `CleanMeaning` and `CleanPlain` |
| Status.CurrentFilename | plugin/controllers/models/info.py:609-665 | the file name of the played service; specified by `CurrentFilenameMeaning`, `MediaFilenameMeaning` and `OtherFilename` |
| Status.Listed | plugin/controllers/models/info.py:685-688 | the recording lines; specified by `ListedEmpty` and `ListedAppend` |
| Orbital.GetOrbReadsBack | plugin/controllers/models/info.py:531-536 | the text reads back as the position in tenths with "E" up to 1800, and as 3600 - pos with "W" beyond |
| Orbital.GetOrbOnCircle | plugin/controllers/models/info.py:531-536 | for 0 <= pos <= 3600 the text is well formed, shows at most 180 whole degrees, and is western exactly when pos > 1800 |
| Orbital.GetOrbWestExamples | plugin/controllers/models/info.py:531-536 | 2700 gives "90.0° W" and 3550 gives "5.0° W" |
| Orbital.GetOrbEastExamples | plugin/controllers/models/info.py:531-536 | 1200 gives "120.0° E" and 192 gives "19.2° E" |
| Orbital.OrbitalTextMeaning | plugin/controllers/models/info.py:520-529 | no transponder data gives ""; for DVB-S the text reads back as the tuned position with "E" up to 1800 and as 3600 - pos with "W" beyond; any other tuner gives its type followed by "2" for system 1 and the type alone otherwise |
| Network.LinkSpeedHasUnit | plugin/controllers/models/info.py:82-91 | the label always ends in " MBit/s" or " GBit/s", whatever the speed file holds |
| Network.LinkSpeedPlain | plugin/controllers/models/info.py:83-91 | a speed without "1000" in it is shown stripped, followed by " MBit/s"; an unreadable one gives "unknown MBit/s" |
| Network.GigabitLabels | plugin/controllers/models/info.py:88-91 | a speed of 1000 gives "1 GBit/s" and one of 10000 gives "10 GBit/s" |
| Network.LinkSpeedExamples | plugin/controllers/models/info.py:84-91 | the file texts "1000" and "10000\n" give "1 GBit/s" and "10 GBit/s" |
| Network.ShortSpeed | plugin/controllers/models/info.py:85-91 | a speed of at most three digits is shown as it is, in MBit/s |
| Network.SlowLinkExamples | plugin/controllers/models/info.py:83-91 | "100" gives "100 MBit/s" and an unreadable speed gives "unknown MBit/s" |
| Network.FormatIpReadsBack | plugin/controllers/models/info.py:170-173 | the text splits at '.' into four integer fields equal to the four octets of the address, or to 0.0.0.0 for a missing address or one of another length |
| Network.DottedReadsBack | plugin/controllers/models/info.py:173 | the dotted text of four numbers reads back field by field as those numbers |
| Network.V4PrefixCountsBits | plugin/controllers/models/info.py:287 | the prefix length is the number of 1-bits over the four octets of the netmask, and 0 without a usable netmask |
| Network.V4PrefixExamples | plugin/controllers/models/info.py:287 | 255.255.255.0 gives 24 and a missing netmask gives 0 |
| IPv6.NormalizeBare | plugin/controllers/models/info.py:111-128 | an address without '/' is only made canonical |
| IPv6.NormalizeFullLength | plugin/controllers/models/info.py:114-117 | a "/128" suffix is dropped |
| IPv6.NormalizeKeepsPrefix | plugin/controllers/models/info.py:114-127 | any other "/n" suffix is kept verbatim after the canonical address |
| IPv6.GroupedReadsBack | plugin/controllers/models/info.py:148 | the grouped address splits at ':' into its four-digit groups, which concatenate back to the hex digits |
| IPv6.FullAddressGroups | plugin/controllers/models/info.py:148 | a 32-digit address gives eight groups of four |
| IPv6.ScanLine | plugin/controllers/models/info.py:142-157 | one loop step appends the line's entry exactly when the line does not start with "fe80" and names the interface, and sets the first public address once |
| IPv6.ScanTable | plugin/controllers/models/info.py:140-157 | the loop yields the entries of the table and its first public address |
| IPv6.AdapterIPv6 | plugin/controllers/models/info.py:131-167 | the two sentinels without kernel or Python IPv6 support; otherwise the shown entries and the first public address of the table |
| IPv6.EntriesAppend | plugin/controllers/models/info.py:141-157 | the entries of two stretches of the table are the entries of each, in order |
| IPv6.SkippedLine | plugin/controllers/models/info.py:142-147 | a line starting with "fe80" or naming another interface changes neither result, wherever it stands |
| IPv6.EntriesMembers | plugin/controllers/models/info.py:147-157 | an address is listed exactly when some line of the interface has it as its entry |
| IPv6.FirstPublicNone | plugin/controllers/models/info.py:150-151 | there is no first public address exactly when no line of the interface has a grouped address starting with '2' or '3' |
| IPv6.FirstPublicIsFirst | plugin/controllers/models/info.py:150-151 | the first public address comes from the first public line, without its prefix length |
| IPv6.EntryExample | plugin/controllers/models/info.py:111-157 | the prefix field "40" gives the canonical address with "/64"; the fields "80" (128) and "ff" give it without a prefix |
| IPv6.EntryPrefixed | plugin/controllers/models/info.py:111-157 | a hexadecimal prefix field other than "ff" is shown in decimal after the canonical address, except the full length 128 (field "80"), whose "/128" is dropped and leaves the canonical address alone |
| IPv6.EntryFullLength | plugin/controllers/models/info.py:111-157 | a line with prefix field "80" is listed as its canonical address without a prefix length |
| IPv6.ShownMeaning | plugin/controllers/models/info.py:159-165 | no entries give "none/IPv4-only network", one entry is shown alone, and several are joined by ", " in sorted order, each as often as it occurs |
| Sorting.SortSorted | plugin/controllers/models/info.py:160 | the sorted list is in ascending string order |
| Sorting.SortPermutes | plugin/controllers/models/info.py:160 | the sorted list holds the same elements with the same multiplicities |
| Sorting.SortIsTheSortedPermutation | plugin/controllers/models/info.py:160 | every ascending rearrangement of the list is the sorted list |
| Sorting.BelowTotal | plugin/controllers/models/info.py:160 | any two strings are ordered one way or the other |
| Sorting.BelowTransitive | plugin/controllers/models/info.py:160 | the string order is transitive |
| Sorting.BelowAntisymmetric | plugin/controllers/models/info.py:160 | two strings each below the other are equal |
| IfaceMethod.ScanMethod | plugin/controllers/models/info.py:46-79 | the scan over the file gives the method defined line by line by `MethodOf` |
| IfaceMethod.LineMethodDecides | plugin/controllers/models/info.py:53-61 | within one line the strongest keyword wins: 6to4 (IPv6 only) over manual over dhcp over static; a line without a keyword keeps the method |
| IfaceMethod.MethodOfUndecided | plugin/controllers/models/info.py:46-79 | with no applicable line holding a keyword, the method is SLAAC for IPv6 and static for IPv4 |
| IfaceMethod.MethodOfLastDecisive | plugin/controllers/models/info.py:46-79 | the method is the strongest keyword of the last applicable line that holds one |
| IfaceMethod.LaterLineWins | plugin/controllers/models/info.py:51-61 | a later deciding line overrides whatever came before it |
| IfaceMethod.ScanExample | plugin/controllers/models/info.py:46-79 | "iface eth0 inet6 dhcp" followed by a commented-out static stanza gives DHCP for IPv6 and leaves IPv4 at static |
| Storage.TerabyteTier | plugin/controllers/models/info.py:319-325 | above 1,000,000 MB the label is in TB and reads back as the size to the nearest tenth, halves rounded up, and it holds a decimal point exactly when the tenths digit is not 0 |
| Storage.TenthsPoint | plugin/controllers/models/info.py:321-325 | the number of tenths is written with a '.' exactly when its last digit is not 0 |
| Storage.TensOfGigabytesTier | plugin/controllers/models/info.py:327-328 | from 300,001 to 1,000,000 MB the label is a multiple of ten GB, the size to the nearest ten |
| Storage.GigabytesTier | plugin/controllers/models/info.py:330-331 | from 1,001 to 300,000 MB the label is the size to the nearest whole GB |
| Storage.MegabytesTier | plugin/controllers/models/info.py:332-333 | up to 1,000 MB the label is the exact size in MB |
| Storage.TenthsReadBack | plugin/controllers/models/info.py:322-325 | "W.d", or "W" when the tenths digit is 0, reads back as the number of tenths |
| Storage.LabelledCapacityExamples | plugin/controllers/models/info.py:317-333 | 1,200,000 gives "1.2 TB", 2,000,000 "2 TB", 320,000 "320 GB", 8,000 "8 GB" and 500 "500 MB" |
| Storage.NearTerabyte | plugin/controllers/models/info.py:327-328 | 999,999 gives "1000 GB" |
| Shares.ShareKind | plugin/controllers/models/info.py:358-367 | the type loop gives "SMBv1.0" or the last "vers=" setting for cifs options, then "NFS", then "unknown" |
| Shares.VersionDefault | plugin/controllers/models/info.py:359-361 | cifs options without a "vers=" setting give "SMBv1.0" |
| Shares.VersionLast | plugin/controllers/models/info.py:362-365 | the last "vers=" setting decides the SMB version |
| Shares.VersionText | plugin/controllers/models/info.py:365 | "vers=X" reads as "SMBvX" |
| Shares.ShareMode | plugin/controllers/models/info.py:369-374 | the mode is "r/o" exactly when some comma-separated setting is "ro" |
| Shares.MaskRemovesEscapedSpaces | plugin/controllers/models/info.py:353 | after masking, no backslash stands before a space |
| Shares.NfsLocation | plugin/controllers/models/info.py:376-383 | "host:rest" names the host before the colon and keeps the whole location as the path |
| Shares.SmbLocation | plugin/controllers/models/info.py:376-381 | "://host/rest" names the host between the slashes and drops the leading colon from the path |
| Shares.FriendlyMeaning | plugin/controllers/models/info.py:404-406 | the friendly address starts with the host, and is the host alone exactly when there is no address or it equals the host |
| Shares.ResolveAsWrittenSkipsIPv4 | plugin/controllers/models/info.py:388-402 | a host with only an IPv4 address stays unresolved when the IPv6 lookup raises |
| Shares.ResolveMeaning | plugin/controllers/models/info.py:388-402 | the corrected lookup finds an address exactly when a lookup it tries yields one, and prefers IPv6 in brackets |
| Shares.ResolveAgrees | plugin/controllers/models/info.py:388-402 | both lookups agree unless the IPv6 lookup raises |
| Shares.ParseShareLine | plugin/controllers/models/info.py:350-416 | one loop step yields the share of a line, as defined by `ShareOf` |
| Shares.ShareOfMeaning | plugin/controllers/models/info.py:350-416 | a line gives a share exactly when it is no comment and has three fields; the share is an autofs share named by the stripped mount point, of the kind its options give (`KindOf`), with the server and path of its location (`ServerOf`, `PathOf`), the host's address as the loop resolves it (none without a host), the friendly address `Friendly` of host and address, and mode r/o exactly for an "ro" setting |
| Shares.AddressMeaning | plugin/controllers/models/info.py:385-402 | the address a share shows is the corrected lookup's whenever the IPv6 lookup does not raise, and is missing when it raises on a system with IPv6 |
| Shares.MaskedOptionsField | plugin/controllers/models/info.py:353-356 | an options field holding an escaped space stays one field with the space masked as '_', so the line still has exactly three fields |
| Shares.ScanMap | plugin/controllers/models/info.py:349-416 | the loop over a map gives the shares of its lines in order |
| Shares.ScanShares | plugin/controllers/models/info.py:345-416 | the shares of the first map come first, then those of the second; a missing map adds nothing |
| Shares.SharesOfMembers | plugin/controllers/models/info.py:349-416 | a share is listed exactly when some line of the map gives it |
| BoxInfo.ScanMemLine | plugin/controllers/models/info.py:207-212 | one loop step takes the total from a "MemTotal" line and adds the amount of a counted line |
| BoxInfo.ScanMeminfo | plugin/controllers/models/info.py:205-212 | the loop yields the last "MemTotal" value and the free-memory sum |
| BoxInfo.FreeAppend | plugin/controllers/models/info.py:211-212 | the free memory of two stretches of the table is the sum of theirs |
| BoxInfo.MemTotalLast | plugin/controllers/models/info.py:209-210 | the total is the value of the last "MemTotal" line, with the unit translation leaving it unchanged |
| BoxInfo.MemTotalMissing | plugin/controllers/models/info.py:209-210 | there is no total exactly when no line has the key "MemTotal" |
| BoxInfo.CountedLine | plugin/controllers/models/info.py:211-212 | a line "Key: n kB" of MemFree, Buffers or Cached is readable and adds n |
| BoxInfo.MemTextsReadBack | plugin/controllers/models/info.py:213-214 | the free text reads back as the sum, and the combined text holds the free text first and the total last |
| BoxInfo.UptimeReadsBack | plugin/controllers/models/info.py:216-225 | the text reads back as days, hours and minutes that add up to the uptime cut to whole minutes, with minutes below 60, days shown only beyond one day and then hours below 24 |
| BoxInfo.UptimeExamples | plugin/controllers/models/info.py:216-229 | 86400 s gives "24:00", 90061 s gives "1d 1:01", and an unreadable uptime gives "?" |
| BoxInfo.StreamType | plugin/controllers/models/info.py:438-441 | the flag is "S" exactly for client type 0, "T" otherwise |
| Status.CleanMeaning | plugin/controllers/models/info.py:626-627 | a cleaned name holds neither emphasis code and every other character as often as before |
| Status.CleanPlain | plugin/controllers/models/info.py:688 | a name without emphasis codes is shown unchanged |
| Status.RecordingStatus | plugin/controllers/models/info.py:680-692 | without recordings the flag is "false" and no list is given; otherwise the list is a line break and one line per running recording timer, and the flag is "true" exactly when there is such a timer |
| Status.ListedEmpty | plugin/controllers/models/info.py:685-691 | the list is empty exactly when no timer is running and recording |
| Status.ListedAppend | plugin/controllers/models/info.py:685-688 | the list of two stretches of timers is the one list after the other |
| Status.RecordingExample | plugin/controllers/models/info.py:685-688 | a zap timer followed by a running recording lists just the recording |
| Status.FilenameAfterSlash | plugin/controllers/models/info.py:648 | the file name is "/" and everything after the first '/' of the reference, or "/" alone without one |
| Status.CurrentFilenameMeaning | plugin/controllers/models/info.py:647-665 | for a "1:0:0" reference ending in an absolute path, the name is that path with an event, and without one it is that path if the path exists |
| Status.MediaFilenameMeaning | plugin/controllers/models/info.py:647-665 | for a "4097:0:0" reference ending in an absolute path, there is no name with an event, and without one the name is that path if the path exists |
| Status.OtherFilename | plugin/controllers/models/info.py:609-665 | nothing playing, or a reference of neither kind, leaves the name empty |
| Status.WithAlternative | plugin/controllers/models/info.py:702-713 | asking for the first always gives one reference: the first alternative of a "1:134:" group that has alternatives, and the service itself otherwise; asking for all gives the list exactly for such a group, and nothing otherwise |
| InfoCache.BoxInfoCache.constructor | plugin/controllers/models/info.py:40 | the snapshot starts empty |
| InfoCache.BoxInfoCache.GetInfo | plugin/controllers/models/info.py:181-182 | with a snapshot and no request for full information the kept snapshot is returned; otherwise a fresh one is built; afterwards the cache holds exactly the value returned |
| InfoCache.CacheExample | plugin/controllers/models/info.py:516-517 | a second plain call returns the first snapshot whatever the builder now gives, and a full-information call replaces it |

## Left out

- Calls into the receiver's runtime are not modelled; their results are inputs. This covers the tuner manager, the network manager, the disk manager, branding, the stream server, navigation, the service center, the EPG and volume control.
- File and system I/O is not modelled. The files become sequences of lines, `os.path.exists` a predicate, `getaddrinfo` a `Resolver`, and `inet_pton`/`inet_ntop` a canonicalisation function.
- The float texts are left out: the free space and capacity texts (lines 299-315), the dB text, and the float parse of `/proc/uptime`. The uptime is modelled from whole seconds.
- Time formatting (`strftime`), the UTF-8 shortening of event descriptions and the correlation of recordings and streams with tuners are left out. These are foreign objects and clocks.
- The other fields of `getInfo` and `getStatusInfo` are left out. They copy runtime values: brand, model, tuners, interfaces, volume, event texts and station names.
- `getNICChipSet`, `getFriendlyNICChipSet`, `getFriendlyImageDistro`, `getPipStatus` and the stream name helpers are left out. They wrap runtime or path calls.
- `IPv6.Entry` reads the prefix field with `ParseHex`, which accepts hex digits only. Python's `int(x, 16)` would also take a sign, a "0x" prefix and surrounding blanks; the model treats those as unreadable.
- `IPv6.Shown` models `list.sort()` as a value, not as an in-place sort of the list object.
- `Storage.TerabyteTier` computes the tier with integers. The source's float `//` and `/ 10` give the same number of tenths, but the float value itself is not modelled.
- `BoxInfo.ScanMeminfo` returns the total as an `Option`. Without a "MemTotal" line the source raises while building `mem3`, and `Mem3` is only meaningful when a total exists.
- `Shares.ParseShareLine` models `parts[0] is ""` as string equality. CPython shares the empty string, so the identity test works as equality there.
- `Status.RecordingStatus` takes "there are recordings" as a flag. It reads each timer's running state and `justplay` from a `RecordTimer` value.
- Concurrency is left out: the module-level cache is one snapshot in one class instance.

## Findings

| source | as written | input that shows it | evidently intended | confidence | as-written member | corrected member |
|---|---|---|---|---|---|---|
| plugin/controllers/models/info.py:388-402 | the IPv6 and IPv4 lookups share one `try`, so an IPv6 `getaddrinfo` that raises skips the IPv4 lookup and the share shows no address | a host with only an IPv4 address (192.168.0.10) on a system with IPv6 support, where the IPv6 lookup raises | fall back to IPv4 when the IPv6 lookup fails, as the comment on line 395 says | not executed; the exception path depends on the resolver | Shares.ResolveAsWrittenSkipsIPv4 | Shares.ResolveMeaning |

The share parser resolves hosts as the code does, through `Shares.Address`
and `Shares.ResolveAsWritten`. `Shares.AddressMeaning` states when that
agrees with the corrected lookup `Shares.Resolve`.
