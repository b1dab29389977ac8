/** The WS-Discovery Probe message that starts a discovery run (the Probe
    message of section 5.2 of WS-Discovery, April 2005 namespace), rendered
    from a fixed template with the run's UUID as its message identifier. */
module ProbeBuilder {
  import opened GoStrings
  import opened TagExtractor

  const XmlSoapWs: string := "http://schemas.xmlsoap.org/ws/"
  const SoapEnvelopeNamespace: string := "http://www.w3.org/" + "2003/05/soap-envelope"
  const AddressingNamespace: string := XmlSoapWs + "2004/08/addressing"
  const DiscoveryNamespace: string := XmlSoapWs + "2005/04/discovery"

  /** The WS-Addressing action of a Probe. */
  const ProbeAction: string := DiscoveryNamespace + "/Probe"
  /** The WS-Addressing destination of a multicast Probe. */
  const ProbeTo: string := "urn:schemas-xmlsoap-org:ws:2005:04:discovery"

  const XmlDeclaration: string := "<?xml version=\"1.0\" ?>"
  const EnvelopeOpen: string := "<s:Envelope xmlns:s=\"" + SoapEnvelopeNamespace + "\">"
  const HeaderOpen: string := "<s:Header xmlns:a=\"" + AddressingNamespace + "\">"

  /** The template up to the `%s` verb: the declaration, the envelope and
      header openings and the Action line, then the opening of MessageID. */
  const ProbeHead: string :=
    XmlDeclaration + "\n\t" + EnvelopeOpen + "\n\t\t" + HeaderOpen
    + "\n\t\t\t<a:Action>" + ProbeAction + "</a:Action>"
    + "\n\t\t\t<a:MessageID>urn:uuid:"

  /** The template after the `%s` verb: the To line, then a body holding a
      Probe with empty Types and Scopes. */
  const ProbeTail: string :=
    "</a:MessageID>"
    + "\n\t\t\t<a:To>" + ProbeTo + "</a:To>"
    + "\n\t\t</s:Header>"
    + "\n\t\t<s:Body>"
    + "\n\t\t\t<d:Probe xmlns:d=\"" + DiscoveryNamespace + "\">"
    + "\n\t\t\t\t<d:Types />"
    + "\n\t\t\t\t<d:Scopes />"
    + "\n\t\t\t</d:Probe>"
    + "\n\t\t</s:Body>"
    + "\n\t</s:Envelope>"

  /** The probe sent for a run whose UUID is `uuid`: the template with `uuid`
      in the one `%s` slot, right after `urn:uuid:` in MessageID. */
  function ProbeMessage(uuid: string): (msg: string)
    ensures |msg| == |ProbeHead| + |uuid| + |ProbeTail|
    ensures msg[..|ProbeHead|] == ProbeHead && msg[|msg| - |ProbeTail|..] == ProbeTail
    ensures msg[|ProbeHead|..|msg| - |ProbeTail|] == uuid
  {
    ProbeHead + uuid + ProbeTail
  }

  /** The UUID a probe carries: the text between the fixed head and tail. */
  function ProbeUuid(msg: string): (uuid: string)
    requires |ProbeHead| + |ProbeTail| <= |msg|
  {
    msg[|ProbeHead|..|msg| - |ProbeTail|]
  }

  /** Reading the UUID back out of a probe gives the UUID it was built
      from, so distinct runs send distinct probes. */
  lemma ProbeUuidRoundTrip(uuid: string)
    ensures ProbeUuid(ProbeMessage(uuid)) == uuid
  {
  }

  lemma ProbeMessageInjective(u: string, v: string)
    requires ProbeMessage(u) == ProbeMessage(v)
    ensures u == v
  {
    ProbeUuidRoundTrip(u);
    ProbeUuidRoundTrip(v);
  }

  /** The text of the probe's Action element is the discovery Probe action. */
  lemma ProbeActionValue(uuid: string)
    ensures FindTagValue(ProbeMessage(uuid), "Action") == ProbeAction
  {
    var P := XmlDeclaration + "\n\t" + EnvelopeOpen + "\n\t\t" + HeaderOpen;
    var R := "/a:Action>" + "\n\t\t\t<a:MessageID>urn:uuid:" + uuid + ProbeTail;
    HeaderOpeningFacts();
    FirstElementText(P, "\n\t\t\t", "a:", "Action", ProbeAction, R);
    ActionTagParts();
    Regroup(P, "\n\t\t\t", "<", "a:", "Action", ">", ProbeAction, "<", "/a:Action>",
            "\n\t\t\t<a:MessageID>urn:uuid:", uuid, ProbeTail);
  }

  lemma ActionTagParts()
    ensures "\n\t\t\t<a:Action>" == "\n\t\t\t" + "<" + "a:" + "Action" + ">"
    ensures "</a:Action>" == "<" + "/a:Action>"
  {
  }

  lemma Regroup(a: string, b: string, c: string, d: string, e: string, f: string,
                g: string, h: string, i: string, j: string, k: string, l: string)
    ensures a + (b + c + d + e + f) + g + (h + i) + j + k + l
         == a + b + c + d + e + f + g + h + (i + j + k + l)
  {
  }

  /** The text of the probe's MessageID element is `urn:uuid:` followed by
      the UUID, when the UUID holds no `<`. */
  lemma ProbeMessageIdValue(uuid: string)
    requires '<' !in uuid
    ensures FindTagValue(ProbeMessage(uuid), "MessageID") == "urn:uuid:" + uuid
  {
    var P := XmlDeclaration + "\n\t" + EnvelopeOpen + "\n\t\t" + HeaderOpen
             + "\n\t\t\t<a:Action>" + ProbeAction + "</a:Action>";
    var R := ProbeTail[1..];
    ActionLineFacts();
    MessageIdTagParts();
    FirstElementText(P, "\n\t\t\t", "a:", "MessageID", "urn:uuid:" + uuid, R);
    RegroupMessageId(P, "\n\t\t\t", "<", "a:", "MessageID", ">", "urn:uuid:", uuid, "<", R);
  }

  /** The letters the Action and MessageID tags start with are not used
      before those elements. */
  lemma NamespaceLetters()
    ensures 'A' !in SoapEnvelopeNamespace && 'M' !in SoapEnvelopeNamespace
    ensures 'A' !in AddressingNamespace && 'M' !in AddressingNamespace
    ensures 'M' !in ProbeAction
  {
    SoapEnvelopeLetters();
    XmlSoapWsLetters();
  }

  lemma SoapEnvelopeLetters()
    ensures 'A' !in SoapEnvelopeNamespace && 'M' !in SoapEnvelopeNamespace
  {
    assert 'A' !in "http://www.w3.org/" && 'M' !in "http://www.w3.org/";
    assert 'A' !in "2003/05/soap-envelope" && 'M' !in "2003/05/soap-envelope";
  }

  lemma XmlSoapWsLetters()
    ensures 'A' !in XmlSoapWs && 'M' !in XmlSoapWs
  {
  }

  lemma EnvelopeOpenLetters()
    ensures 'A' !in EnvelopeOpen && 'M' !in EnvelopeOpen
  {
    SoapEnvelopeLetters();
    assert 'A' !in "<s:Envelope xmlns:s=\"" && 'M' !in "<s:Envelope xmlns:s=\"";
  }

  lemma HeaderOpenLetters()
    ensures 'A' !in HeaderOpen && 'M' !in HeaderOpen && HeaderOpen[|HeaderOpen| - 1] == '>'
  {
    NamespaceLetters();
    assert 'A' !in "<s:Header xmlns:a=\"" && 'M' !in "<s:Header xmlns:a=\"";
  }

  lemma HeaderOpeningFacts()
    ensures var P := XmlDeclaration + "\n\t" + EnvelopeOpen + "\n\t\t" + HeaderOpen;
            P[|P| - 1] == '>' && 'A' !in P && 'M' !in P
  {
    EnvelopeOpenLetters();
    HeaderOpenLetters();
    assert 'A' !in XmlDeclaration && 'M' !in XmlDeclaration;
  }

  lemma ActionLineFacts()
    ensures var P := XmlDeclaration + "\n\t" + EnvelopeOpen + "\n\t\t" + HeaderOpen
                     + "\n\t\t\t<a:Action>" + ProbeAction + "</a:Action>";
            P[|P| - 1] == '>' && 'M' !in P
    ensures ProbeTail == "<" + ProbeTail[1..]
  {
    NamespaceLetters();
    HeaderOpeningFacts();
  }

  lemma MessageIdTagParts()
    ensures "\n\t\t\t<a:MessageID>urn:uuid:" == "\n\t\t\t" + "<" + "a:" + "MessageID" + ">" + "urn:uuid:"
  {
  }

  lemma RegroupMessageId(a: string, b: string, c: string, d: string, e: string, f: string,
                         g: string, u: string, h: string, i: string)
    ensures a + (b + c + d + e + f + g) + u + (h + i)
         == a + b + c + d + e + f + (g + u) + h + i
  {
  }
}
