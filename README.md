# mDNS advertisement and discovery, modelled in Dafny

This project models the local-network discovery layer of ArozOS
(`src/mod/network/mdns/mdns.go`). Every node advertises itself as an
`_http._tcp` service in the `local.` domain (multicast DNS, RFC 6762, with
DNS-based service discovery, RFC 6763). It attaches seven `key=value` TXT
properties describing itself, as section 6.3 of RFC 6763 allows. Nodes find
each other by browsing for the same service type and decoding the TXT lines
of each answer back into a `NetworkHost` record. Optionally, the operator can
name the hardware (MAC) address of the interface that scans should be bound to.

The model has one module per concern:

- `Wrappers`: `Option`, `Result` and an `Error` message.
- `GoStrings`: the parts of Go's `strings` package the layer uses.
  - `Split` and `Join` on a single-character separator.
  - `ReplaceAll` of one character.
  - `TrimSpace`, with Go's full white-space set.
  - `EqualFold`, with ASCII case folding.
- `Host`: the values.
  - `NetworkHost`.
  - The browse entry (`ServiceEntry`).
  - Network interfaces (`Interface`) and their addresses (`Addr`).
- `TxtCodec`: the TXT encoder that `NewMDNS` hands to zeroconf, and the decoder run on every browse entry.
  - The decoder is specified by a left fold (`Properties`) over the TXT lines.
  - `ParseProperties` is the imperative parsing loop proved equal to it.
- `Collector`: the per-entry body of `Scan`'s background collector.
  - The channel is replaced by the finite sequence of entries received before the deadline.
  - `Collect` is the loop; `Collected` is its specification.
- `Iface`: the override-interface search of `NewMDNS`.
  - It is the interface loop with its `break`, and the address loop that picks the diagnostic IP.
  - Both are proved against first-match and last-IPv4 specifications.
- `Agent`: the `MDNSHost` class, `NewMDNS`, `Close` and `Scan`.
  - Everything the zeroconf library, the operating system and the clock would supply is passed in as data: the MAC list, the outcome of `Register`, the interface list, whether the resolver was created, and the entries a browse delivered.
  - What the agent asks of them is returned: the `Register` arguments, the interfaces the resolver is bound to, and the server handed to `Shutdown`.

Points where the code behaves differently from what one might assume, and
which the model follows as written:

- The interface search runs after `Register`, and `Register` is always given no interfaces (line 49 passes `nil`). The override only binds the scan resolver (lines 123-125).
- The host's MAC list only feeds the `mac_addr` TXT line. It is not stored in the agent's own `NetworkHost`.
- The diagnostic IP of the override interface is its last IPv4 address, not its first (the loop at lines 78-91 keeps overwriting it). Only when there is no IPv4 address does the first address's text remain.
- A TXT line is split on every "=", not only the first (line 145). A line with two or more "=" is dropped entirely, so a value holding "=" never reaches the decoded record.
- A resolver or browse failure ends the process in the code (`log.Fatalln`, lines 129 and 223). The model turns it into an error result of `Scan`.
- The `else` branch at lines 44-46 is dead code: the error was already returned at line 38. The model has no counterpart for it.

## Model

| member | source | states |
|---|---|---|
| GoStrings.Split | src/mod/network/mdns/mdns.go:145 | Splitting gives at least one piece. It gives exactly one piece iff the separator is absent, and `[""]` iff the text is empty. |
| GoStrings.SplitPiecesFree | src/mod/network/mdns/mdns.go:157 | No piece of a split contains the separator. |
| GoStrings.Join | src/mod/network/mdns/mdns.go:43 | The join is empty iff there are no parts or the only part is empty. |
| GoStrings.JoinContains | src/mod/network/mdns/mdns.go:43 | A character occurs in a join iff it occurs in some part, or it is the separator and there are two or more parts. |
| GoStrings.SplitJoin | src/mod/network/mdns/mdns.go:43 | Splitting undoes joining when there is at least one part and no part holds the separator. |
| GoStrings.ReplaceChar | src/mod/network/mdns/mdns.go:67-68 | Replacing keeps the length and swaps exactly the occurrences of the replaced character. |
| GoStrings.ReplaceCharTwice | src/mod/network/mdns/mdns.go:68 | Replacing ":" by "-" a second time changes nothing, so re-normalising the override on every pass is harmless. |
| GoStrings.IsSpace | src/mod/network/mdns/mdns.go:69 | Go's white-space set, as `TrimSpace` uses it. No white-space character is ":" or "-" or changed by ASCII lower-casing, so normalising an address never creates or removes white space. |
| GoStrings.TrimSpace | src/mod/network/mdns/mdns.go:69 | The trimmed override is no longer than the original and neither starts nor ends with white space. Together with the TrimLeft and TrimRight rows: exactly the surrounding white space is removed. |
| GoStrings.EqualFold | src/mod/network/mdns/mdns.go:69 | Case-insensitive equality implies equal lengths and holds for identical texts. EqualFoldIff characterises it completely. |
| GoStrings.TrimLeft | src/mod/network/mdns/mdns.go:69 | The result is a suffix. Everything dropped is white space, and the result does not start with white space. |
| GoStrings.TrimRight | src/mod/network/mdns/mdns.go:69 | The result is a prefix. Everything dropped is white space, and the result does not end with white space. |
| GoStrings.EqualFoldIff | src/mod/network/mdns/mdns.go:69 | Case-insensitive equality holds iff the lengths agree and every position agrees after ASCII lower-casing. |
| TxtCodec.EncodeTxt | src/mod/network/mdns/mdns.go:49 | The advertisement carries exactly seven TXT lines, one per advertised key. |
| TxtCodec.EncodeTxtAt | src/mod/network/mdns/mdns.go:49 | Line i is the i-th key of `version_build, version_minor, vendor, model, uuid, domain, mac_addr`, then "=", then that field's value. The `mac_addr` value is the joined MAC list. |
| TxtCodec.KeysDistinct | src/mod/network/mdns/mdns.go:49 | The seven advertised keys are pairwise distinct and none contains "=". |
| TxtCodec.WellFormedIff | src/mod/network/mdns/mdns.go:145-146 | A TXT line is kept iff it holds exactly one "=". Its key is the text before the "=" and its value the text after. |
| TxtCodec.AddPropertySize | src/mod/network/mdns/mdns.go:145-147 | One pass of the parsing loop never removes a key and adds at most one. AddPropertyAt says which key is added and with which value. |
| TxtCodec.PropertiesSize | src/mod/network/mdns/mdns.go:143-149 | The property map built from the TXT lines has no more keys than there are lines. PropertiesHasKey and PropertiesLastWins characterise its contents. |
| TxtCodec.AddKeyValue | src/mod/network/mdns/mdns.go:145-147 | Parsing `key=value` (key free of "=") stores the pair iff the value has no "=". Otherwise the map is unchanged. |
| TxtCodec.PropertiesHasKey | src/mod/network/mdns/mdns.go:143-149 | A key is in the property map iff some kept TXT line carries it. |
| TxtCodec.PropertiesLastWins | src/mod/network/mdns/mdns.go:143-149 | The stored value is that of the last kept line with the key. Later lines overwrite earlier ones. |
| TxtCodec.ParseProperties | src/mod/network/mdns/mdns.go:143-149 | The parsing loop builds exactly the map of the left fold `Properties` over the TXT lines. |
| TxtCodec.Lookup | src/mod/network/mdns/mdns.go:165-170 | A missing key reads as "". A present key reads as its stored value. |
| TxtCodec.DecodeMacs | src/mod/network/mdns/mdns.go:151-158 | The MAC list is empty iff `mac_addr` is missing or empty, and it is never `[""]`. No element holds ",". A non-empty list joins back to the stored value. |
| TxtCodec.JoinSplit | src/mod/network/mdns/mdns.go:157 | Joining the pieces of a split gives back the text. |
| TxtCodec.HostFromProperties | src/mod/network/mdns/mdns.go:161-173 | A decoded record takes host name, port and IPv4 from the entry's own fields, and is online. Its MAC list is the decoded `mac_addr`. |
| TxtCodec.DecodeEntry | src/mod/network/mdns/mdns.go:142-173 | The record built for a browse entry has the entry's host name, port and IPv4 addresses, is online, and never has the MAC list `[""]`. |
| TxtCodec.DecodedFieldIsLastValue | src/mod/network/mdns/mdns.go:143-170 | Each of the six property fields of `DecodeEntry(entry)` is the value of the last kept TXT line carrying the key that field is advertised under, or "" when no kept line carries it. |
| TxtCodec.EncodedPrefix | src/mod/network/mdns/mdns.go:143-149 | Parsing the first i encoded lines stores exactly those fields among them that hold no "=". |
| TxtCodec.LookupStored | src/mod/network/mdns/mdns.go:165-170 | After parsing i encoded lines, key k reads as its field value when k < i and that value has no "=". Otherwise it reads as "". |
| TxtCodec.DecodedEncoding | src/mod/network/mdns/mdns.go:143-170 | Decoding a host's own advertisement reads each advertised key as the value sent, or as "" when that value holds "=". |
| TxtCodec.TxtFieldsRoundTrip | src/mod/network/mdns/mdns.go:49-170 | Decoding a host's own advertisement restores each of the six text fields iff it holds no "=". |
| TxtCodec.MacsRoundTrip | src/mod/network/mdns/mdns.go:151-158 | A MAC list sent joined with "," decodes back to itself iff it is not `[""]` and no MAC holds "," or "=". |
| TxtCodec.TxtRoundTrip | src/mod/network/mdns/mdns.go:49-171 | Decoding a host's own advertisement restores each text field iff it holds no "=". It restores the MAC list iff the list is not `[""]` and no MAC holds "," or "=". |
| Collector.Accepts | src/mod/network/mdns/mdns.go:139-176 | An empty filter accepts every entry. Otherwise the exact raw line `domain=<filter>` must be one of the entry's TXT lines. |
| Collector.CollectedShape | src/mod/network/mdns/mdns.go:161-198 | The collector yields at most one record per received entry, exactly one each with an empty filter, and every record is online. |
| Collector.Collect | src/mod/network/mdns/mdns.go:137-216 | The collector loop, both branches included, appends exactly the records of the fold `Collected` over the received entries. |
| Collector.AcceptedIndices | src/mod/network/mdns/mdns.go:176 | The kept positions are in range and strictly increasing. They are exactly the positions the filter accepts. |
| Collector.CollectedAt | src/mod/network/mdns/mdns.go:161-198 | The k-th collected record is the decoding of the k-th kept entry. |
| Collector.UnfilteredKeepsAll | src/mod/network/mdns/mdns.go:139-173 | With an empty filter, every entry yields one record, in arrival order. |
| Collector.FilteredIsSubsequence | src/mod/network/mdns/mdns.go:139-210 | A filtered scan is the order-preserving subsequence of the unfiltered one. It keeps exactly the entries whose raw TXT list holds `domain=<filter>`. |
| Collector.FilterOnEncodedDomain | src/mod/network/mdns/mdns.go:176 | Against an advertisement of this layer, a non-empty filter accepts iff it equals the advertised domain. |
| Collector.FilterMatchesOverwrittenDomain | src/mod/network/mdns/mdns.go:176-202 | The filter matches raw text: it accepts on an earlier domain line although a later one wins the decoding. |
| Collector.FilterMatchesDroppedDomain | src/mod/network/mdns/mdns.go:176-202 | The filter matches raw text: it accepts a domain holding "=" although the decoder drops that line. |
| Iface.Matches | src/mod/network/mdns/mdns.go:66-69 | The comparison of one interface: a match implies that the hardware address and the trimmed, dashed override have equal length. MatchesIsSameAddress characterises it completely. |
| Iface.MatchesIsSameAddress | src/mod/network/mdns/mdns.go:66-69 | An interface matches iff its hardware address and the trimmed override spell the same address, reading ":" as "-" and ignoring ASCII case. |
| Iface.MatchFrom | src/mod/network/mdns/mdns.go:64-95 | The search from a start position returns a position in range, at or after the start. MatchFromIsFirst states that it is the first match. |
| Iface.MatchIndex | src/mod/network/mdns/mdns.go:64-95 | The whole search returns a valid interface position, when it returns one. |
| Iface.MatchFromIsFirst | src/mod/network/mdns/mdns.go:64-95 | The search from a start position finds the first interface whose address matches the override: the one found matches and none before it does. When none is found, no interface from the start matches. |
| Iface.LastIPv4 | src/mod/network/mdns/mdns.go:78-91 | The result is the position of the last IPv4 address, or none when there is no IPv4 address. |
| Iface.DiagnosticIp | src/mod/network/mdns/mdns.go:72-91 | The diagnostic IP is the last IPv4 address. Failing that, it is the first address's text, or "" when there are no addresses or they cannot be read. |
| Iface.PickDiagnosticIp | src/mod/network/mdns/mdns.go:72-91 | The address loop computes exactly `DiagnosticIp`. |
| Iface.SearchInterfaces | src/mod/network/mdns/mdns.go:64-95 | The interface loop selects the first matching interface, or none. It reads that interface's diagnostic IP. It leaves the override dashed iff it ran at least once. |
| Iface.OverrideFor | src/mod/network/mdns/mdns.go:56-95 | An empty override selects nothing. A selected interface is one of the listed interfaces, and it matches the override. |
| Iface.SearchDiagnostics | src/mod/network/mdns/mdns.go:59-101 | An empty override logs nothing. Otherwise the search logs one line, preceded by a note when the interfaces cannot be listed. The last line reports forced mode iff an interface was selected. |
| Iface.SelectOverride | src/mod/network/mdns/mdns.go:56-101 | An empty override gives no override and no log line. Otherwise it selects as `OverrideFor` does and logs `SearchDiagnostics`. An unlistable interface set is a log line, never an error. |
| Iface.MatchesSameAddress | src/mod/network/mdns/mdns.go:66-69 | Two overrides spelling one address (":" or "-", either ASCII case) match the same interfaces. |
| Iface.SameAddressSameSelection | src/mod/network/mdns/mdns.go:64-95 | Two overrides spelling one address select the same interface. |
| Iface.BlankOverrideMatchesEmptyAddress | src/mod/network/mdns/mdns.go:69 | A non-empty, all-white-space override matches exactly the interfaces with an empty hardware address. |
| Agent.RegistrationFor | src/mod/network/mdns/mdns.go:49 | Register is called with the host name and port, `_http._tcp` in `local.`, and the seven TXT lines with the MACs joined by ",". It is given no interfaces. |
| Agent.MDNSHost.State | src/mod/network/mdns/mdns.go:13-17 | The lifecycle the agent's fields stand for: uninitialized iff it holds no server, and an active agent holds the server it is active with and has not been closed. |
| Agent.MDNSHost.Zero | src/mod/network/mdns/mdns.go:52 | The zero-valued agent holds no server, no host record and no override: it is uninitialized. |
| Agent.MDNSHost.constructor | src/mod/network/mdns/mdns.go:104-108 | The built agent holds the server, the configuration and the selected override: it is active. |
| Agent.NewMDNS | src/mod/network/mdns/mdns.go:34-109 | A MAC failure returns no agent and the error, and nothing is registered. A registration failure returns an uninitialized agent and the error. Otherwise the result is an active agent with the configuration and the override selected from the interfaces. |
| Agent.MDNSHost.Scan | src/mod/network/mdns/mdns.go:119-229 | The resolver is bound to the override interface iff there is one. Once the resolver exists, the browse is for `_http._tcp` in `local.`. A resolver or browse failure is an error. Otherwise the result is the collector's fold over the received entries. |
| Agent.CloseAsWritten | src/mod/network/mdns/mdns.go:111-116 | Shutdown is called iff the receiver is non-nil, and on whatever server the agent holds, possibly none. |
| Agent.CloseAfterFailedRegistrationAsWritten | src/mod/network/mdns/mdns.go:50-53 | Closing the agent of a failed registration calls Shutdown on an absent server. |
| Agent.Close | src/mod/network/mdns/mdns.go:111-116 | A nil agent is left alone. Only an active agent shuts its server down, and it becomes closed. Every other state is kept and nothing is shut down. |
| Agent.CloseTwiceAsWritten | src/mod/network/mdns/mdns.go:111-116 | With the source's Close, both calls of a double close reach Shutdown on the same server; an active agent is shut down twice. |
| Agent.CloseTwice | src/mod/network/mdns/mdns.go:111-116 | With the lifecycle-aware Close, closing twice shuts the server down at most once, and the second call shuts nothing down. |
| Agent.CloseAfterFailedRegistration | src/mod/network/mdns/mdns.go:50-53 | With the lifecycle-aware Close, the agent of a failed registration shuts nothing down. |

## Left out

- Scan's goroutine, channel, `context.WithTimeout` and the wait on `ctx.Done()` (lines 132-137, 219-227) are concurrency and wall-clock time. The entries the browse delivered before the deadline are an input, and the `timeout` parameter does not appear.
- The race in the code is not modelled: `Scan` returns the slice while the collector goroutine may still append to it.
- The foreign calls are not modelled; their results are inputs:
  - `zeroconf.Register`, `NewResolver`, `Browse`, `Shutdown` and `SelectIfaces`;
  - `net.Interfaces` and `iface.Addrs`;
  - `getMacAddr`, which is not part of this model.
- A failing `iface.Addrs` gives no addresses, as the code's `err == nil` guard and its nil slice do.
- A failing `net.Interfaces` gives no interfaces plus a log line, as its nil result does in the code.
- `net.IP` is kept as raw bytes. An interface address is abstracted to its `String()` text, whether it has an IPv4 form, and its IP's `String()` text; the CIDR formatting is not modelled.
- `log.Println` text is not modelled. The search's log lines are kept as `Diagnostic` values with their contents; the registration-failure line (line 51) is dropped, since it changes nothing.
- `log.Fatalln` is not modelled as a process exit; `Scan` returns an error instead.
- GoStrings.EqualFold: only ASCII letters are folded. Go's full Unicode simple folding (for example the Kelvin sign against "k") is not modelled; hardware-address text is ASCII.
- GoStrings.EqualFoldIff: characterises the same ASCII-only folding, so it shares the gap of the line above.
- Agent.MDNSHost.Scan: on a nil agent (a nil-pointer fault in the code) is not modelled: Dafny methods have a non-null receiver.
- Agent.Close: stated for the corrected lifecycle. The flag `closed` is not in the source struct; the code's own behaviour is `Agent.CloseAsWritten` (see Findings).
- Agent.CloseTwice: stated for the lifecycle-aware Close. The source's Close calls Shutdown on every call on a non-nil agent, so a double close shuts the same server down twice; `Agent.CloseTwiceAsWritten` states that behaviour.
- `src/auth.go` and `src/mod/info/logger/logger.go` are not part of this model. They are route registration and file and clock I/O, with no self-contained logic.

## Findings

| source | as written | input that shows it | evidently intended | confidence | as-written member | corrected member |
|---|---|---|---|---|---|---|
| src/mod/network/mdns/mdns.go:111-114 | `Close` checks only the receiver, then calls `Shutdown` on `m.MDNS` | `NewMDNS` whose `Register` fails returns `&MDNSHost{}` (line 52) with a nil server; calling `Close` on it calls `Shutdown` on nil, which faults if zeroconf's `Shutdown` dereferences its receiver | `Close` shuts down only a registered, not yet closed server | medium, not executed (zeroconf's `Shutdown` is not part of this model) | Agent.CloseAfterFailedRegistrationAsWritten | Agent.CloseAfterFailedRegistration |
