/** `discoveryStreamingDevices`: send one Probe, then turn every reply that
    arrives before the first receive error into a device record. The socket
    is replaced by its results: the probe the run sends, and the sequence of
    reads it gets back (the end of the sequence is the read deadline). */
module Discovery {
  import opened GoRuntime
  import opened GoStrings
  import opened TagExtractor
  import opened ScopeExtractor
  import opened ProbeBuilder

  /** Replies that do not mention this are not discovery replies. */
  const OnvifMarker: string := "onvif"
  /** An address a device reports on the wildcard interface. */
  const WildcardPrefix: string := "http://0.0.0.0"
  /** `addr.IP.String()` for `addr`, the multicast address
      `239.255.255.250:3702` the probe is sent to. */
  const MulticastGroupIP: string := "239.255.255.250"

  /** What `url.Parse` yields when it succeeds: `Hostname()` and `Port()`. */
  datatype Url = Url(hostname: string, port: string)

  /** The parts of Go's `net/url` package the run uses, taken as given:
      `parse` is `url.Parse` (None when it returns an error) and
      `pathEscape` is `url.PathEscape`. */
  datatype UrlLibrary = UrlLibrary(parse: string -> Option<Url>, pathEscape: string -> string)

  /** One device record: the seven keys of the map the source builds. */
  datatype Device = Device(
    name: string,
    hardware: string,
    ip: string,
    xaddrs: string,
    mac: string,
    profile: string,
    metadataVersion: string)

  /** One `ReadFrom` on the socket: a datagram, or an error (the deadline
      passing or a socket failure). */
  datatype ReadResult = Datagram(payload: string) | ReadError

  const RecordKeys: set<string> :=
    {"name", "hardware", "ip", "xaddrs", "mac", "profile", "metadata_version"}

  /** The record as the source's `map[string]string`. */
  function AsMap(d: Device): (m: map<string, string>)
    ensures m.Keys == RecordKeys
    ensures m["xaddrs"] == d.xaddrs && m["ip"] == d.ip && m["profile"] == d.profile
    ensures m["name"] == d.name && m["hardware"] == d.hardware && m["mac"] == d.mac
    ensures m["metadata_version"] == d.metadataVersion
  {
    map["name" := d.name, "hardware" := d.hardware, "ip" := d.ip, "xaddrs" := d.xaddrs,
        "mac" := d.mac, "profile" := d.profile, "metadata_version" := d.metadataVersion]
  }

  /** An address on the wildcard interface gets the multicast group's IP as
      its host; what follows the 14-character prefix (port and path) is kept. */
  function RewriteWildcard(urlStr: string): (r: string)
    ensures !HasPrefix(urlStr, WildcardPrefix) ==> r == urlStr
    ensures HasPrefix(urlStr, WildcardPrefix) ==>
              && HasPrefix(r, "http://" + MulticastGroupIP)
              && |r| == |urlStr| - |WildcardPrefix| + |"http://" + MulticastGroupIP|
              && r[|"http://" + MulticastGroupIP|..] == urlStr[|WildcardPrefix|..]
  {
    if HasPrefix(urlStr, WildcardPrefix) then "http://" + MulticastGroupIP + urlStr[14..] else urlStr
  }

  /** Rewriting twice is rewriting once: a rewritten address no longer
      starts with the wildcard prefix. */
  lemma RewriteWildcardIdempotent(urlStr: string)
    ensures RewriteWildcard(RewriteWildcard(urlStr)) == RewriteWildcard(urlStr)
  {
    var r := RewriteWildcard(urlStr);
    if HasPrefix(urlStr, WildcardPrefix) {
      assert r[7] == '2' && WildcardPrefix[7] == '0';
      assert !HasPrefix(r, WildcardPrefix);
    }
  }

  /** An address that does not start like the wildcard prefix is not
      rewritten. */
  lemma KeptUnlessWildcard(urlStr: string)
    requires urlStr != [] && urlStr[0] != 'h'
    ensures RewriteWildcard(urlStr) == urlStr
  {
    assert WildcardPrefix[0] == 'h';
  }

  /** The first space-separated token of `s`: the longest prefix without a space. */
  function FirstToken(s: string): (t: string)
    ensures ' ' !in t && HasPrefix(s, t)
    ensures |t| == |s| || s[|t|] == ' '
  {
    SplitFirst(s, ' ');
    Split(s, ' ')[0]
  }

  /** The loop body of the source for one reply, once its fields are read:
      whether it mentions `onvif`, and the texts of its XAddrs, Scopes and
      MetadataVersion elements. Ok(None) when the reply is skipped
      (`continue`), Ok(Some(d)) when it yields the record `d`, Panic when one
      of its steps panics. */
  function HandleReply(lib: UrlLibrary, isOnvif: bool, xaddrs: string, scopes: string, metadataVersion: string)
    : Outcome<Option<Device>>
  {
    if !isOnvif then
      Ok(None)
    else if xaddrs == "" then
      Ok(None)
    else
      var urlStr := FirstToken(RewriteWildcard(xaddrs));
      var parsedUrl := lib.parse(urlStr);
      var hardware :- ExtractValueFromScopes(scopes, "hardware");
      var mac :- ExtractValueFromScopes(scopes, "MAC");
      var name :- ExtractValueFromScopes(scopes, "name");
      var profile := Profiles(Split(scopes, ' '));
      if parsedUrl.None? then
        Panic(NilPointerDereference)
      else
        Ok(Some(Device(
          lib.pathEscape(name),
          lib.pathEscape(hardware),
          parsedUrl.value.hostname + ":" + parsedUrl.value.port,
          urlStr,
          lib.pathEscape(mac),
          Join(profile, ", "),
          lib.pathEscape(metadataVersion))))
  }

  /** A reply is skipped exactly when it does not mention `onvif` or has no
      XAddrs text. */
  lemma HandleReplySkips(lib: UrlLibrary, isOnvif: bool, xaddrs: string, scopes: string, metadataVersion: string)
    ensures HandleReply(lib, isOnvif, xaddrs, scopes, metadataVersion) == Ok(None) <==> !isOnvif || xaddrs == ""
  {
  }

  /** The record of a reply that is not skipped: its address is the first
      space-separated token of the (rewritten) XAddrs text, its `ip` the host
      and port the URL library parses from that token, its `profile` the
      comma-joined profile list, and its free-text fields the escaped values
      read from the scopes and the MetadataVersion text. */
  lemma HandleReplyRecord(lib: UrlLibrary, isOnvif: bool, xaddrs: string, scopes: string, metadataVersion: string)
    requires HandleReply(lib, isOnvif, xaddrs, scopes, metadataVersion).Ok?
    requires HandleReply(lib, isOnvif, xaddrs, scopes, metadataVersion).value.Some?
    ensures isOnvif && xaddrs != ""
    ensures var d, found := HandleReply(lib, isOnvif, xaddrs, scopes, metadataVersion).value.value, RewriteWildcard(xaddrs);
            && ' ' !in d.xaddrs && HasPrefix(found, d.xaddrs)
            && (|d.xaddrs| == |found| || found[|d.xaddrs|] == ' ')
            && lib.parse(d.xaddrs).Some?
            && d.ip == lib.parse(d.xaddrs).value.hostname + ":" + lib.parse(d.xaddrs).value.port
            && d.profile == Join(Profiles(Split(scopes, ' ')), ", ")
            && d.metadataVersion == lib.pathEscape(metadataVersion)
    ensures var d := HandleReply(lib, isOnvif, xaddrs, scopes, metadataVersion).value.value;
            && ExtractValueFromScopes(scopes, "hardware").Ok?
            && ExtractValueFromScopes(scopes, "MAC").Ok?
            && ExtractValueFromScopes(scopes, "name").Ok?
            && d.hardware == lib.pathEscape(ExtractValueFromScopes(scopes, "hardware").value)
            && d.mac == lib.pathEscape(ExtractValueFromScopes(scopes, "MAC").value)
            && d.name == lib.pathEscape(ExtractValueFromScopes(scopes, "name").value)
  {
  }

  /** A reply that is not skipped panics exactly when reading one of the
      three scope keys slices past the end of the scopes, or when its address
      does not parse; the slicing comes first. */
  lemma HandleReplyPanics(lib: UrlLibrary, isOnvif: bool, xaddrs: string, scopes: string, metadataVersion: string)
    ensures var r := HandleReply(lib, isOnvif, xaddrs, scopes, metadataVersion);
            var slicePanic := || ExtractValueFromScopes(scopes, "hardware").Panic?
                              || ExtractValueFromScopes(scopes, "MAC").Panic?
                              || ExtractValueFromScopes(scopes, "name").Panic?;
            && (r.Panic? <==> isOnvif && xaddrs != ""
                              && (slicePanic || lib.parse(FirstToken(RewriteWildcard(xaddrs))).None?))
            && (r.Panic? ==> r.reason == if slicePanic then SliceBoundsOutOfRange else NilPointerDereference)
  {
  }

  /** The loop body of the source for one datagram `data`. */
  function ProcessReply(lib: UrlLibrary, data: string): Outcome<Option<Device>>
  {
    HandleReply(lib, Contains(data, OnvifMarker), FindTagValue(data, "XAddrs"),
                FindTagValue(data, "Scopes"), FindTagValue(data, "MetadataVersion"))
  }

  /** `devices` followed by what the rest of the run yields. */
  function Prepend(devices: seq<Device>, rest: Outcome<seq<Device>>): Outcome<seq<Device>>
  {
    match rest
    case Ok(more) => Ok(devices + more)
    case Panic(reason) => Panic(reason)
  }

  /** How one datagram is handled: skipped (Ok(None)), turned into a record,
      or a panic. */
  type Handler = string -> Outcome<Option<Device>>

  /** What the receive loop returns for a sequence of reads when `handle`
      handles each datagram: the records of the handled datagrams before the
      first read error, in arrival order; a panic while handling any of them
      ends the run with no result. */
  function Run(handle: Handler, received: seq<ReadResult>): (r: Outcome<seq<Device>>)
    ensures r.Ok? ==> |r.value| <= |received|
    decreases |received|
  {
    if received == [] || received[0].ReadError? then
      Ok([])
    else
      var reply :- handle(received[0].payload);
      var rest :- Run(handle, received[1..]);
      Ok(if reply.Some? then [reply.value] + rest else rest)
  }

  /** The handler of the source's loop body. */
  function ReplyHandler(lib: UrlLibrary): Handler
  {
    data => ProcessReply(lib, data)
  }

  /** What `discoveryStreamingDevices` returns for a sequence of reads. */
  function Collect(lib: UrlLibrary, received: seq<ReadResult>): Outcome<seq<Device>>
  {
    Run(ReplyHandler(lib), received)
  }

  /** One turn of the receive loop: the run from read `i` on, after the
      records `devices`, is made of what handling read `i` gives and the run
      after it. */
  lemma RunStep(handle: Handler, received: seq<ReadResult>, i: nat, devices: seq<Device>)
    requires i < |received|
    ensures received[i].ReadError? ==> Prepend(devices, Run(handle, received[i..])) == Ok(devices)
    ensures received[i].Datagram? ==>
              var rest := Run(handle, received[i + 1..]);
              Prepend(devices, Run(handle, received[i..])) ==
                match handle(received[i].payload)
                case Panic(reason) => Panic(reason)
                case Ok(None) => Prepend(devices, rest)
                case Ok(Some(d)) => Prepend(devices + [d], rest)
  {
    assert received[i..][0] == received[i];
    assert received[i..][1..] == received[i + 1..];
    assert devices + [] == devices;
    var rest := Run(handle, received[i + 1..]);
    if received[i].Datagram? && handle(received[i].payload).Ok? && rest.Ok? {
      match handle(received[i].payload).value
      case None =>
      case Some(d) => assert devices + ([d] + rest.value) == devices + [d] + rest.value;
    }
  }

  /** The body of the receive loop for one datagram, step by step as the
      source runs it; `None` stands for its `continue`. */
  method ReadDatagram(lib: UrlLibrary, decodedData: string) returns (r: Outcome<Option<Device>>)
    ensures r == ProcessReply(lib, decodedData)
  {
    if !Contains(decodedData, OnvifMarker) {
      return Ok(None);
    }
    var urlStr := FindTagValue(decodedData, "XAddrs");
    if urlStr == "" {
      return Ok(None);
    }
    if HasPrefix(urlStr, WildcardPrefix) {
      urlStr := "http://" + MulticastGroupIP + urlStr[14..];
    }
    urlStr := FirstToken(urlStr);
    var parsedUrl := lib.parse(urlStr);
    var scopes := FindTagValue(decodedData, "Scopes");
    var hardware := ExtractValueFromScopes(scopes, "hardware");
    if hardware.Panic? {
      return Panic(hardware.reason);
    }
    var mac := ExtractValueFromScopes(scopes, "MAC");
    if mac.Panic? {
      return Panic(mac.reason);
    }
    var name := ExtractValueFromScopes(scopes, "name");
    if name.Panic? {
      return Panic(name.reason);
    }
    var profile := ExtractProfilesFromScopes(scopes);
    var metadataVersion := FindTagValue(decodedData, "MetadataVersion");
    if parsedUrl.None? {
      return Panic(NilPointerDereference);
    }
    var device := Device(
      lib.pathEscape(name.value),
      lib.pathEscape(hardware.value),
      parsedUrl.value.hostname + ":" + parsedUrl.value.port,
      urlStr,
      lib.pathEscape(mac.value),
      Join(profile, ", "),
      lib.pathEscape(metadataVersion));
    return Ok(Some(device));
  }

  /** `discoveryStreamingDevices()`: the probe it sends for the run's UUID,
      and what it returns (or the panic that ends it) for the reads it gets. */
  method DiscoverStreamingDevices(uuid: string, lib: UrlLibrary, received: seq<ReadResult>)
    returns (probe: string, outcome: Outcome<seq<Device>>)
    ensures probe == ProbeMessage(uuid)
    ensures outcome == Collect(lib, received)
    ensures outcome.Ok? ==> |outcome.value| <= |received|
  {
    probe := ProbeMessage(uuid);
    outcome := ReceiveReplies(lib, received);
  }

  /** The receive loop of `discoveryStreamingDevices()`: one read per turn,
      until the first read error; skipped replies are passed over, accepted
      ones appended, and a panic ends the run. */
  method ReceiveReplies(lib: UrlLibrary, received: seq<ReadResult>) returns (outcome: Outcome<seq<Device>>)
    ensures outcome == Collect(lib, received)
    ensures received == [] ==> outcome == Ok([])
  {
    var devices: seq<Device> := [];
    var i := 0;
    assert Collect(lib, received).Ok? ==> [] + Collect(lib, received).value == Collect(lib, received).value;
    while i < |received|
      invariant 0 <= i <= |received|
      invariant Collect(lib, received) == Prepend(devices, Run(ReplyHandler(lib), received[i..]))
    {
      var read := received[i];
      RunStep(ReplyHandler(lib), received, i, devices);
      if read.ReadError? {
        break;
      }
      var reply := ReadDatagram(lib, read.payload);
      assert reply == ReplyHandler(lib)(read.payload);
      i := i + 1;
      if reply.Panic? {
        return Panic(reply.reason);
      }
      if reply.value.None? {
        continue;
      }
      devices := devices + [reply.value.value];
    }
    assert i == |received| ==> received[i..] == [];
    assert devices + [] == devices;
    outcome := Ok(devices);
  }

  /** A handled datagram's record is placed before the records of the
      datagrams after it. */
  lemma AcceptedReplyRecorded(handle: Handler, data: string, d: Device, rest: seq<ReadResult>)
    requires handle(data) == Ok(Some(d))
    ensures Run(handle, [Datagram(data)] + rest) == Prepend([d], Run(handle, rest))
  {
    assert ([Datagram(data)] + rest)[1..] == rest;
  }

  /** A skipped datagram leaves no trace. */
  lemma SkippedReplyIgnored(handle: Handler, data: string, rest: seq<ReadResult>)
    requires handle(data) == Ok(None)
    ensures Run(handle, [Datagram(data)] + rest) == Run(handle, rest)
  {
    assert ([Datagram(data)] + rest)[1..] == rest;
  }

  /** A datagram whose handling panics ends the run with that panic, whatever
      comes after it. */
  lemma PanickingReplyEndsRun(handle: Handler, data: string, rest: seq<ReadResult>)
    requires handle(data).Panic?
    ensures Run(handle, [Datagram(data)] + rest) == Panic(handle(data).reason)
  {
    assert ([Datagram(data)] + rest)[0] == Datagram(data);
  }

  /** No deduplication: the same datagram received twice gives two records. */
  lemma RepeatedReplyRecordedTwice(handle: Handler, data: string, d: Device)
    requires handle(data) == Ok(Some(d))
    ensures Run(handle, [Datagram(data), Datagram(data)]) == Ok([d, d])
  {
    var one := [Datagram(data)];
    AcceptedReplyRecorded(handle, data, d, []);
    assert one + [] == one;
    assert Run(handle, []) == Ok([]);
    assert [d] + [] == [d];
    assert Run(handle, one) == Ok([d]);
    AcceptedReplyRecorded(handle, data, d, one);
    assert one + one == [Datagram(data), Datagram(data)];
    assert [d] + [d] == [d, d];
  }

  /** The first read error ends the run: nothing received after it counts. */
  lemma {:induction false} RunStopsAtFirstError(handle: Handler, before: seq<ReadResult>, after: seq<ReadResult>)
    ensures Run(handle, before + [ReadError] + after) == Run(handle, before)
    decreases |before|
  {
    var all := before + [ReadError] + after;
    if before != [] && before[0].Datagram? {
      assert all[0] == before[0];
      assert all[1..] == before[1..] + [ReadError] + after;
      RunStopsAtFirstError(handle, before[1..], after);
    } else if before == [] {
      assert all[0] == ReadError;
    } else {
      assert all[0] == before[0];
    }
  }

  /** Records are kept in arrival order: the run over two stretches of
      datagrams is the records of the first followed by those of the second,
      unless handling the first panics. */
  lemma {:induction false} RunConcat(handle: Handler, a: seq<ReadResult>, b: seq<ReadResult>)
    requires forall i :: 0 <= i < |a| ==> a[i].Datagram?
    ensures Run(handle, a + b) == match Run(handle, a)
                                  case Ok(devices) => Prepend(devices, Run(handle, b))
                                  case Panic(reason) => Panic(reason)
    decreases |a|
  {
    if a == [] {
      assert a + b == b;
      if Run(handle, b).Ok? {
        assert [] + Run(handle, b).value == Run(handle, b).value;
      }
    } else {
      assert (a + b)[0] == a[0];
      assert (a + b)[1..] == a[1..] + b;
      RunConcat(handle, a[1..], b);
      var reply := handle(a[0].payload);
      if reply.Ok? && reply.value.Some? && Run(handle, a[1..]).Ok? && Run(handle, b).Ok? {
        var u, v := Run(handle, a[1..]).value, Run(handle, b).value;
        assert [reply.value.value] + u + v == [reply.value.value] + (u + v);
      }
    }
  }

  /** Every record of a run comes from a datagram received before the first
      read error whose handling yields exactly that record. */
  lemma {:induction false} RunRecordOrigin(handle: Handler, received: seq<ReadResult>, d: Device) returns (i: nat)
    requires Run(handle, received).Ok? && d in Run(handle, received).value
    ensures i < |received| && received[i].Datagram? && handle(received[i].payload) == Ok(Some(d))
    ensures forall j :: 0 <= j < i ==> received[j].Datagram?
    decreases |received|
  {
    if handle(received[0].payload) == Ok(Some(d)) {
      i := 0;
    } else {
      var rest := received[1..];
      assert d in Run(handle, rest).value;
      var k := RunRecordOrigin(handle, rest, d);
      i := k + 1;
      assert received[i] == rest[k];
      forall j | 0 <= j < i ensures received[j].Datagram? {
        if j > 0 { assert received[j] == rest[j - 1]; }
      }
    }
  }

  /** Every record `discoveryStreamingDevices` returns comes from a reply
      that mentions `onvif` and has XAddrs text, and holds the first token of
      that text as its address. */
  lemma CollectedRecordOrigin(lib: UrlLibrary, received: seq<ReadResult>, d: Device) returns (i: nat)
    requires Collect(lib, received).Ok? && d in Collect(lib, received).value
    ensures i < |received| && received[i].Datagram? && ProcessReply(lib, received[i].payload) == Ok(Some(d))
    ensures forall j :: 0 <= j < i ==> received[j].Datagram?
    ensures Contains(received[i].payload, OnvifMarker)
    ensures ' ' !in d.xaddrs
  {
    i := RunRecordOrigin(ReplyHandler(lib), received, d);
    var data := received[i].payload;
    assert ProcessReply(lib, data) == Ok(Some(d));
    HandleReplyRecord(lib, Contains(data, OnvifMarker), FindTagValue(data, "XAddrs"),
                      FindTagValue(data, "Scopes"), FindTagValue(data, "MetadataVersion"));
  }

  /** A run that receives one well-formed reply returns one record, whose
      `ip` is the parsed host and port of the reply's first address token
      and whose `profile` lists the reply's profile scopes. */
  lemma SingleReplyRun(lib: UrlLibrary, data: string)
    requires ProcessReply(lib, data).Ok? && ProcessReply(lib, data).value.Some?
    ensures var d := ProcessReply(lib, data).value.value;
            var url := lib.parse(d.xaddrs);
            && Collect(lib, [Datagram(data)]) == Ok([d])
            && url.Some? && d.ip == url.value.hostname + ":" + url.value.port
            && d.profile == Join(Profiles(Split(FindTagValue(data, "Scopes"), ' ')), ", ")
  {
    var d := ProcessReply(lib, data).value.value;
    HandleReplyRecord(lib, Contains(data, OnvifMarker), FindTagValue(data, "XAddrs"),
                      FindTagValue(data, "Scopes"), FindTagValue(data, "MetadataVersion"));
    assert ReplyHandler(lib)(data) == Ok(Some(d));
    AcceptedReplyRecorded(ReplyHandler(lib), data, d, []);
    assert [Datagram(data)] + [] == [Datagram(data)];
    assert Run(ReplyHandler(lib), []) == Ok([]);
    assert [d] + [] == [d];
  }

  /** An XAddrs text that starts with a space has an empty first token, so
      the record is kept with an empty address whenever the URL library
      accepts the empty string. */
  lemma LeadingSpaceGivesEmptyAddress(lib: UrlLibrary, rest: string, scopes: string, metadataVersion: string)
    requires HandleReply(lib, true, " " + rest, scopes, metadataVersion).Ok?
    ensures HandleReply(lib, true, " " + rest, scopes, metadataVersion).value.Some?
    ensures HandleReply(lib, true, " " + rest, scopes, metadataVersion).value.value.xaddrs == ""
  {
    var x := " " + rest;
    HandleReplySkips(lib, true, x, scopes, metadataVersion);
    HandleReplyRecord(lib, true, x, scopes, metadataVersion);
    KeptUnlessWildcard(x);
  }
}
