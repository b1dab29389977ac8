# ONVIF WS-Discovery client, modelled in Dafny

This project models `discovery.go`, a small Go client that finds ONVIF
network cameras using WS-Discovery. A discovery run does four things:

- It multicasts one SOAP Probe message, built from a fixed template with a
  fresh UUID as its message identifier.
- It reads reply datagrams until the first receive error. In practice that
  error is the 5-second read deadline.
- It keeps each reply that mentions `onvif` and has a non-empty `XAddrs`
  element. From each kept reply it builds a seven-field device record:
  `name`, `hardware`, `ip`, `xaddrs`, `mac`, `profile` and
  `metadata_version`.
- It returns the records in arrival order, without deduplication.

The modules follow the source's helpers:

- `GoRuntime` models the two Go panics the code can hit: slicing past the
  end of a string, and calling a method on a nil `*url.URL`. It provides an
  `Outcome` type (`Ok` or `Panic`).
- `GoStrings` covers `strings.Index`, `Contains`, `HasPrefix`, `Split` and
  `Join` over character sequences. It proves the split/join round trip.
- `TagExtractor` covers `findTagValue`. The predicate `MatchAt` writes out
  the meaning of the pattern `<[^/>]*TAG[^>]*>([^<]+)`. A scanner is proved
  to return the group of the leftmost match, or `""` when the pattern
  matches nowhere.
- `ScopeExtractor` covers `extractValueFromScopes` (a function that returns
  an `Outcome`) and `extractProfilesFromScopes` (a method with the source's
  loop, proved against the specification function `Profiles`).
- `ProbeBuilder` holds the Probe template and the facts about the message
  it renders.
- `Discovery` covers one turn of the receive loop (`HandleReply`,
  `ProcessReply`, and the step-by-step method `ReadDatagram`), the loop
  itself (`ReceiveReplies`, proved against the function `Run`/`Collect`),
  and the whole run (`DiscoverStreamingDevices`).

Things the model takes as parameters:

- The socket is replaced by a sequence of read results: `Datagram(payload)`
  or `ReadError`. If the sequence ends without an error, that stands for
  the deadline.
- The UUID is a parameter.
- `url.Parse`, `Hostname`, `Port` and `url.PathEscape` are function-valued
  fields of a `UrlLibrary` parameter.

Three behaviours of the code differ from what a discovery client would be
expected to do. The model follows the code in each:

- **The host used for the wildcard rewrite.** An address that starts with
  `http://0.0.0.0` would be expected to get the replying device's address
  as its host. The code uses `addr.IP.String()` (`discovery.go:92`). `addr` is the
  resolved multicast destination `239.255.255.250:3702` (line 64), not the
  sender. So the model substitutes `239.255.255.250`.
- **Records with an empty address.** One would expect a record only for a
  non-empty address. The code checks for emptiness
  before it takes the first space-separated token. An `XAddrs` text that
  starts with a space therefore gives a record whose `xaddrs` is `""`,
  whenever `url.Parse("")` succeeds (`LeadingSpaceGivesEmptyAddress`).
- **Panics.** A reply can panic the whole run instead of being skipped.
  Two cases:
  - `extractValueFromScopes` slices one character past the key. When the
    key's first occurrence ends the scopes, that slice is out of range.
  - When `url.Parse` fails, `parsedURL` is nil, and `parsedURL.Hostname()`
    panics.

  The model returns `Panic` in both cases. The slicing checks come first,
  as in the source.

## Model

| member | source | states |
|---|---|---|
| GoStrings.Index | discovery.go:121 | `strings.Index`: non-negative exactly when the key occurs; then the key occurs there and at no earlier index; otherwise -1 |
| GoStrings.Split | discovery.go:122 | `strings.Split` with a one-character separator: at least one piece, no piece holds the separator, and joining the pieces with the separator gives the input back |
| GoStrings.SplitFirst | discovery.go:94 | the first piece of a split is the longest separator-free prefix: it is a prefix, and what follows it is the separator or the end |
| GoStrings.SplitJoin | discovery.go:129 | splitting a join of separator-free pieces gives the pieces back |
| GoStrings.JoinEndsWithLast | discovery.go:131 | a joined string ends with its last piece, preceded by the separator when there are several pieces |
| TagExtractor.NameHasTag | discovery.go:28 | the executable test on an element name holds exactly when the name matches `[^/>]*TAG[^>]*` (the tag occurs with no `/` before it) |
| TagExtractor.MatchFrom | discovery.go:28-29 | a match found at `p` satisfies `MatchAt`; when none is found, no match of the pattern starts at `p` |
| TagExtractor.FirstMatchFrom | discovery.go:29 | the match found is the leftmost one at or after `p`; none is found only when no match starts at or after `p` |
| TagExtractor.MatchUnique | discovery.go:28 | once its `<` is fixed, a match's `>` and group end are fixed (first `>`, greedy group) |
| TagExtractor.FindTagValue | discovery.go:26-34 | the value holds no `<` and is no longer than the text |
| TagExtractor.FindTagValueLeftmost | discovery.go:29-33 | the value is empty exactly when the pattern matches nowhere; otherwise it is the group of the leftmost match |
| TagExtractor.LeftmostMatchValue | discovery.go:29-31 | a match with no match starting before it gives its group as the value |
| TagExtractor.ClosingTagNeverMatches | discovery.go:28 | a closing tag `</...>` never starts a match |
| TagExtractor.EmptyElementNeverMatches | discovery.go:28 | an element whose `>` is directly followed by `<` does not start a match (the group needs one character) |
| TagExtractor.MatchNameEnd | discovery.go:28 | the `>` of a match is the first `>` after its `<` |
| TagExtractor.NoTagNoValue | discovery.go:28-33 | a text in which the tag does not occur gives `""` |
| TagExtractor.TagInMatch | discovery.go:28 | a match contains the tag inside its element name, with no `/` before it |
| TagExtractor.NoMatchInPrefix | discovery.go:28-29 | no match starts inside a prefix that ends with `>` and lacks the tag's first letter |
| TagExtractor.FirstElementText | discovery.go:26-34 | for `P + W + "<" + ns + tag + ">" + V + "<" + R`, when nothing before the element can match, the value is the element's text `V` (for plain and namespace-prefixed elements) |
| TagExtractor.ElementMatches | discovery.go:28 | the element `"<" + ns + tag + ">" + V` is a match whose group is `V` |
| TagExtractor.NoMatchBefore | discovery.go:29 | no match starts in `P + W` when `P` closes every `<` it opens, lacks the tag's first letter, and `W` holds no `<` |
| ScopeExtractor.ExtractValueFromScopes | discovery.go:118-125 | `""` when the key is absent; a panic (slice out of range) exactly when the key's first occurrence ends the scopes; otherwise the space-free text starting one character past that occurrence and running to the next space or the end |
| ScopeExtractor.ExtractValueDetermined | discovery.go:120-123 | conversely, a space-free text that starts one character past the first occurrence and runs to a space or the end is the value extracted |
| ScopeExtractor.ValueAfterFreshKey | discovery.go:120-123 | a scope `P + key + "/" + V` followed by more scopes gives `V` when `P` lacks the key's first letter |
| ScopeExtractor.MacValueExample | discovery.go:118-125 | the `mac` key on `onvif://www.onvif.org/mac/AA:BB:CC:DD:EE:FF` gives `AA:BB:CC:DD:EE:FF` |
| ScopeExtractor.MacKeyIsCaseSensitive | discovery.go:120 | the search is case-sensitive: the key `MAC` finds nothing in a lower-case `mac` scope |
| ScopeExtractor.FirstLetterAbsent | discovery.go:120 | a key whose first letter is not in the scopes does not occur in them |
| ScopeExtractor.BareKeyAtEndPanics | discovery.go:121 | scopes that end with the key's first occurrence make the extraction panic with a slice out of range |
| ScopeExtractor.BareHardwareScopePanics | discovery.go:121 | the bare scope `onvif://www.onvif.org/hardware` makes reading `hardware` panic |
| ScopeExtractor.TokenUnique | discovery.go:122 | two space-free prefixes that each run up to a space or the end are equal |
| ScopeExtractor.LastSegment | discovery.go:131 | the last `/`-separated segment holds no `/`, is a suffix of the token, and is preceded by `/` when shorter than the token |
| ScopeExtractor.Profiles | discovery.go:127-135 | the profile list is no longer than the token list |
| ScopeExtractor.ExtractProfilesFromScopes | discovery.go:127-135 | the loop returns `Profiles` of the space-separated tokens, so at most one entry per token |
| ScopeExtractor.ProfilesAppend | discovery.go:129-132 | the list for two runs of tokens is the two lists one after the other: order and duplicates are kept |
| ScopeExtractor.ProfilesSnoc | discovery.go:130-131 | one more token adds its contribution at the end |
| ScopeExtractor.ProfilesFromProfileTokens | discovery.go:130-131 | every entry is the last segment of a token that starts with `onvif://www.onvif.org/Profile` |
| ScopeExtractor.ProfileTokensListed | discovery.go:130-131 | every token with that prefix has its last segment listed |
| ProbeBuilder.ProbeMessage | discovery.go:45-58 | the probe is the fixed head, the UUID and the fixed tail: the UUID fills the one slot |
| ProbeBuilder.ProbeUuidRoundTrip | discovery.go:49 | reading the UUID back from between the head and the tail gives the UUID the probe was built from |
| ProbeBuilder.ProbeMessageInjective | discovery.go:44-58 | distinct UUIDs give distinct probes |
| ProbeBuilder.ProbeActionValue | discovery.go:48 | the probe's `Action` text is `http://schemas.xmlsoap.org/ws/2005/04/discovery/Probe`, for every UUID |
| ProbeBuilder.ProbeMessageIdValue | discovery.go:49 | the probe's `MessageID` text is `urn:uuid:` followed by the UUID, when the UUID holds no `<` |
| Discovery.AsMap | discovery.go:102-110 | the record as a map has exactly the seven keys, each holding the record's field of that name (`metadata_version` holds `metadataVersion`) |
| Discovery.RewriteWildcard | discovery.go:91-93 | an address without the `http://0.0.0.0` prefix is unchanged; one with it gets `http://239.255.255.250` as its head and keeps everything after the 14-character prefix |
| Discovery.RewriteWildcardIdempotent | discovery.go:91-93 | rewriting twice is rewriting once |
| Discovery.KeptUnlessWildcard | discovery.go:91 | an address that does not start with `h` is not rewritten |
| Discovery.FirstToken | discovery.go:94 | the first token holds no space, is a prefix, and runs to a space or the end |
| Discovery.HandleReplySkips | discovery.go:84-90 | a reply is skipped exactly when it lacks `onvif` or its XAddrs text is empty |
| Discovery.HandleReplyRecord | discovery.go:91-111 | a kept reply's record: `xaddrs` is the first token of the rewritten address; the address parses and `ip` is its host and port; `profile` is the profile list joined with `, `; `name`, `hardware`, `mac` and `metadata_version` are the escaped extracted values |
| Discovery.HandleReplyPanics | discovery.go:95-105 | a reply that is not skipped panics exactly when a scope key's slice runs out of range or its address does not parse; the slice panic comes first |
| Discovery.LeadingSpaceGivesEmptyAddress | discovery.go:88-94 | an XAddrs text that starts with a space gives a kept record with an empty address whenever the reply does not panic |
| Discovery.Run | discovery.go:75-113 | a run that does not panic returns at most one record per read |
| Discovery.RunStep | discovery.go:75-111 | one loop turn: a read error ends the run with the records so far; a datagram is skipped, appended or ends the run with its panic |
| Discovery.ReadDatagram | discovery.go:82-111 | the step-by-step loop body for one datagram computes `ProcessReply` |
| Discovery.ReceiveReplies | discovery.go:74-113 | the receive loop returns `Collect` of the reads, and no records when there are no reads |
| Discovery.DiscoverStreamingDevices | discovery.go:44-113 | the run sends the probe for its UUID and returns `Collect` of the reads, with at most one record per read |
| Discovery.AcceptedReplyRecorded | discovery.go:102-111 | an accepted datagram's record comes before the records of later datagrams |
| Discovery.SkippedReplyIgnored | discovery.go:84-90 | a skipped datagram leaves no trace in the result |
| Discovery.PanickingReplyEndsRun | discovery.go:95-105 | a datagram whose handling panics ends the run with that panic, whatever follows |
| Discovery.RepeatedReplyRecordedTwice | discovery.go:111 | no deduplication: the same reply received twice gives two equal records |
| Discovery.RunStopsAtFirstError | discovery.go:77-81 | nothing read after the first receive error counts |
| Discovery.RunConcat | discovery.go:75-112 | records keep arrival order: the run over two stretches of datagrams is the first stretch's records followed by the second's |
| Discovery.RunRecordOrigin | discovery.go:75-111 | every record comes from a datagram read before the first error whose handling yields exactly that record |
| Discovery.CollectedRecordOrigin | discovery.go:84-111 | every returned record comes from a reply that mentions `onvif`, and its address holds no space |
| Discovery.SingleReplyRun | discovery.go:74-113 | one well-formed reply gives exactly one record; its `ip` is the parsed host and port of the reply's first address token, and its `profile` lists the reply's profile scopes |

## Left out

- The UDP socket is not modelled: listening, sending, `SetReadDeadline` and `ReadFrom`. A run is given the sequence of its read results instead, and the probe it sends is returned as a value. Setup errors at lines 39-41, 65-67 and 69-71 end the process through `log.Fatalf` and are not modelled.
- Timing is not modelled. The 5-second deadline is the end of the read sequence, or a `ReadError`.
- `uuid.New()` is not modelled. The UUID is a parameter of `DiscoverStreamingDevices`.
- `randString`, `extractIP` and `main` are outside the discovery path and are not part of this model. Neither is the logging.
- `net/url` is not modelled. `url.Parse`, `Hostname`, `Port` and `PathEscape` are uninterpreted function parameters. A parse error is `None`, which leads to the nil-pointer panic.
- The Go `regexp` engine is not modelled. `FindTagValue` is proved against the pattern's meaning only for plain tags (letters, digits, `_`). Every tag the source passes is plain.
- The 8192-byte read buffer is not modelled. The whole buffer, NUL padding included, becomes the reply text. The model takes the payload as the text, with no truncation and no padding.
- Strings are modelled as character sequences. Go indexes strings by byte, so the one-character skip after a key (line 121) and the offsets `strings.Index` returns agree with the model only on single-byte text. The `[14:]` cut at line 92 agrees on any text, since it only follows the 14 single-byte characters of `http://0.0.0.0`.
- Profiles: the source promises that profile entries hold no `/`. This is stated through `LastSegment` together with `ProfilesFromProfileTokens`, not as its own lemma.
- TagExtractor.FindTagValue: its contract states only the no-`<` and length facts. The full meaning, including the empty-result iff, is `FindTagValueLeftmost`, which needs a plain tag.
