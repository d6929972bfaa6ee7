/**
 * Concrete passes of findk4.py: the reply `k4:0:192.168.73.108:278` from
 * the comment in the script, a network where nobody answers, one radio
 * reachable from two interfaces, and a reply with a field missing.
 */
module FindK4Scenarios {
  import opened Utf8
  import opened PyText
  import opened K4Reply
  import opened FindK4
  import opened FindK4Properties

  /** `str.zfill(5)` on serial numbers of every length. */
  lemma ZFillExamples()
    ensures ZFill("278", SerialWidth) == "00278"
    ensures ZFill("12345", SerialWidth) == "12345"
    ensures ZFill("1234567", SerialWidth) == "1234567"
    ensures ZFill("-12", SerialWidth) == "-0012"
    ensures ZFill("", SerialWidth) == "00000"
  {
    ZFillInsertsZeros("278", SerialWidth);
    ZFillInsertsZeros("-12", SerialWidth);
    ZFillInsertsZeros("", SerialWidth);
  }

  /** The fields of the example reply `k4:0:192.168.73.108:278` in the script's comment. */
  predicate IsExampleRadio(r: Radio)
  {
    r == Radio("k4", "0", "192.168.73.108", "278")
  }

  /** The example radio sends the text of the script's comment, all ASCII. */
  lemma ExampleReplyText(r: Radio)
    requires IsExampleRadio(r)
    ensures ReplyText(r) == "k4:0:192.168.73.108:278"
    ensures IsAscii(ReplyText(r))
  {
    ReplyFormat(r);
    ExampleReplyPhrase(r.rigType, r.rigIndex, r.rigIP, r.rigSN);
    ExampleTextAscii(ReplyText(r));
  }

  /** The example's four fields joined with colons, spelt out. */
  lemma ExampleReplyPhrase(rigType: string, rigIndex: string, rigIP: string, rigSN: string)
    requires rigType == "k4" && rigIndex == "0" && rigIP == "192.168.73.108" && rigSN == "278"
    ensures rigType + ":" + rigIndex + ":" + rigIP + ":" + rigSN == "k4:0:192.168.73.108:278"
  {
  }

  /** The example text holds only ASCII characters. */
  lemma ExampleTextAscii(text: string)
    requires text == "k4:0:192.168.73.108:278"
    ensures IsAscii(text)
  {
    forall i | 0 <= i < |text|
      ensures text[i] as int < 0x80
    {
      assert text[i] in "k4:0.123456789";
    }
  }

  /** The example reply's bytes are accepted with exactly its four fields. */
  lemma ExampleReplyAccepted(r: Radio)
    requires IsExampleRadio(r)
    ensures IsAscii(ReplyText(r)) && Classify(AsciiBytes(ReplyText(r))) == Accepted(r)
  {
    ExampleReplyText(r);
    assert ReturnDelimiter !in r.rigType && ReturnDelimiter !in r.rigIndex;
    assert ReturnDelimiter !in r.rigIP && ReturnDelimiter !in r.rigSN;
    assert r.rigType[..2] == "k4";
    ClassifyReply(r);
  }

  /** The per-radio line printed for the example radio. */
  lemma ExampleFoundText(serial: string, ip: string, padded: string)
    requires serial == "278" && ip == "192.168.73.108" && padded == "00278"
    ensures LineText(FoundRadio(serial, ip, padded))
              == "Found K4 serial number 278 at IP address 192.168.73.108 (K4-SN00278.local)"
  {
    var lead := "Found K4 serial number " + serial;
    var withIP := lead + " at IP address " + ip;
    var body := withIP + " (K4-SN" + padded;
    assert LineText(FoundRadio(serial, ip, padded)) == body + ".local)";
    FoundLeadPhrase(serial);
    FoundIPPhrase(lead, ip);
    FoundSerialPhrase(withIP, padded);
    FoundClosingPhrase(body);
  }

  /** The lead of the example line, spelt out. */
  lemma FoundLeadPhrase(serial: string)
    requires serial == "278"
    ensures "Found K4 serial number " + serial == "Found K4 serial number 278"
  {
  }

  /** The example line up to its IP, spelt out. */
  lemma FoundIPPhrase(lead: string, ip: string)
    requires lead == "Found K4 serial number 278" && ip == "192.168.73.108"
    ensures lead + " at IP address " + ip == "Found K4 serial number 278 at IP address 192.168.73.108"
  {
  }

  /** The example line up to its padded serial, spelt out. */
  lemma FoundSerialPhrase(withIP: string, padded: string)
    requires withIP == "Found K4 serial number 278 at IP address 192.168.73.108" && padded == "00278"
    ensures withIP + " (K4-SN" + padded
              == "Found K4 serial number 278 at IP address 192.168.73.108 (K4-SN00278"
  {
  }

  /** The whole example line, spelt out. */
  lemma FoundClosingPhrase(body: string)
    requires body == "Found K4 serial number 278 at IP address 192.168.73.108 (K4-SN00278"
    ensures body + ".local)"
              == "Found K4 serial number 278 at IP address 192.168.73.108 (K4-SN00278.local)"
  {
  }

  /** "Found 1 K4 radio …", spelt out from its numeral and its tail. */
  lemma OneRadioPhrase(numeral: string, tail: string)
    requires numeral == "1" && tail == " K4 radio accessible to this computer"
    ensures "Found " + numeral + tail == "Found 1 K4 radio accessible to this computer"
  {
  }

  /** "Found 2 K4 radios …", spelt out from its numeral and its tail. */
  lemma TwoRadiosPhrase(numeral: string, tail: string)
    requires numeral == "2" && tail == " K4 radios accessible to this computer"
    ensures "Found " + numeral + tail == "Found 2 K4 radios accessible to this computer"
  {
  }

  /** The summary printed when exactly one radio was found uses the singular. */
  lemma SummaryOneRadio(count: nat)
    requires count == 1
    ensures LineText(Summary(count)) == "Found 1 K4 radio accessible to this computer"
  {
    SummaryWording(count);
    SummaryNoun(count);
    var text := SummaryText(count);
    assert Decimal(count) == "1";
    assert text == "Found " + Decimal(count) + SummaryTail(count) by {
      assert text == text[..6] + text[6..];
    }
    OneRadioPhrase(Decimal(count), SummaryTail(count));
  }

  /** The summary printed when two radios were found uses the plural. */
  lemma SummaryTwoRadios(count: nat)
    requires count == 2
    ensures LineText(Summary(count)) == "Found 2 K4 radios accessible to this computer"
  {
    SummaryWording(count);
    SummaryNoun(count);
    var text := SummaryText(count);
    assert Decimal(count) == "2";
    assert text == "Found " + Decimal(count) + SummaryTail(count) by {
      assert text == text[..6] + text[6..];
    }
    TwoRadiosPhrase(Decimal(count), SummaryTail(count));
  }

  /** On an interface where every receive times out, nothing is read or counted. */
  lemma {:induction false} ScanSilent(ipList: seq<Interface>, st: State)
    requires forall i :: 0 <= i < |ipList| ==> BeforeTimeout(ipList[i].traffic) == []
    ensures Scan(ipList, st) == Done(st)
    decreases |ipList|
  {
    if ipList != [] {
      var t := ipList[0].traffic;
      assert BeforeTimeout(t) == [];
      assert Receive(t, st) == Done(st);
      assert forall i :: 0 <= i < |ipList[1..]| ==> ipList[1..][i] == ipList[i + 1];
      ScanSilent(ipList[1..], st);
    }
  }

  /** When no interface receives anything before its timeout, the only line
      printed is "No K4 radios found". */
  lemma NoRadiosFound(ipList: seq<Interface>)
    requires forall i :: 0 <= i < |ipList| ==> BeforeTimeout(ipList[i].traffic) == []
    ensures Program(ipList) == Done(State(0, [Summary(0)]))
  {
    ScanSilent(ipList, State(0, []));
  }

  /** Any accepted reply heard on one interface gives its line and the
      summary for one radio. */
  lemma OneReplyFound(ip: string, sender: Address, data: seq<byte>, r: Radio)
    requires Classify(data) == Accepted(r)
    ensures Program([Interface(ip, [Datagram(sender, data), Timeout])])
              == Done(State(1, [FoundLine(r), Summary(1)]))
  {
    var e := Datagram(sender, data);
    var ipList := [Interface(ip, [e, Timeout])];
    var first := State(1, [FoundLine(r)]);
    assert Receive([e, Timeout], State(0, [])) == Done(first) by {
      AcceptedThenSilence(sender, data, r, [Timeout], State(0, []));
      assert [e] + [Timeout] == [e, Timeout];
    }
    assert ipList[0].traffic == [e, Timeout] && ipList[1..] == [];
    assert Scan(ipList, State(0, [])) == Then(Done(first), ipList[1..]);
  }

  /** One interface hears the example radio: the pass prints its line, with
      the serial padded for the host name, and the summary for one radio. */
  lemma OneRadioFound(ip: string, sender: Address, r: Radio, reply: seq<byte>)
    requires IsExampleRadio(r)
    requires IsAscii(ReplyText(r)) && reply == AsciiBytes(ReplyText(r))
    ensures Program([Interface(ip, [Datagram(sender, reply), Timeout])])
              == Done(State(1, [FoundRadio("278", "192.168.73.108", "00278"), Summary(1)]))
  {
    ExampleReplyAccepted(r);
    assert ZFill("278", SerialWidth) == "00278" by { ZFillInsertsZeros("278", SerialWidth); }
    OneReplyFound(ip, sender, reply, r);
  }

  /** An accepted reply followed by silence prints its line and counts one. */
  lemma AcceptedThenSilence(sender: Address, data: seq<byte>, r: Radio, rest: seq<Event>, st: State)
    requires Classify(data) == Accepted(r) && BeforeTimeout(rest) == []
    ensures Receive([Datagram(sender, data)] + rest, st)
              == Done(State(st.count + 1, st.output + [FoundLine(r)]))
  {
    var traffic := [Datagram(sender, data)] + rest;
    var next := Handle(sender, data, st);
    assert next == State(st.count + 1, st.output + [FoundLine(r)]);
    assert traffic[0] == Datagram(sender, data) && traffic[1..] == rest;
    assert Receive(traffic, st) == Receive(rest, next);
    assert rest == [] || rest[0] == Timeout;
  }

  /** The scan over two interfaces that both hear the same accepted reply
      prints its line twice and counts two. */
  lemma SameReplyScan(ip1: string, ip2: string, sender: Address, data: seq<byte>, r: Radio)
    requires Classify(data) == Accepted(r)
    ensures Scan([Interface(ip1, [Datagram(sender, data)]), Interface(ip2, [Datagram(sender, data), Timeout])],
                 State(0, []))
              == Done(State(2, [FoundLine(r), FoundLine(r)]))
  {
    var line := FoundLine(r);
    var e := Datagram(sender, data);
    var ipList := [Interface(ip1, [e]), Interface(ip2, [e, Timeout])];
    var first := State(1, [line]);
    var second := State(2, [line, line]);
    assert Receive([e], State(0, [])) == Done(first) by {
      AcceptedThenSilence(sender, data, r, [], State(0, []));
      assert [e] + [] == [e];
    }
    assert Scan(ipList[1..], first) == Done(second) by {
      assert Receive([e, Timeout], first) == Done(second) by {
        AcceptedThenSilence(sender, data, r, [Timeout], first);
        assert [e] + [Timeout] == [e, Timeout];
      }
      assert ipList[1..] == [Interface(ip2, [e, Timeout])] && ipList[1..][1..] == [];
    }
    assert ipList[0].traffic == [e];
    assert Scan(ipList, State(0, [])) == Then(Done(first), ipList[1..]);
  }

  /** Any accepted reply heard on two interfaces is printed and counted on both. */
  lemma SameReplyOnTwoInterfaces(ip1: string, ip2: string, sender: Address, data: seq<byte>, r: Radio)
    requires Classify(data) == Accepted(r)
    ensures var line := FoundLine(r);
      Program([Interface(ip1, [Datagram(sender, data)]),
               Interface(ip2, [Datagram(sender, data), Timeout])])
        == Done(State(2, [line, line, Summary(2)]))
  {
    var line := FoundLine(r);
    SameReplyScan(ip1, ip2, sender, data, r);
    assert [line, line] + [Summary(2)] == [line, line, Summary(2)];
  }

  /** The example radio reachable from two interfaces is counted on both:
      there is no deduplication, so the pass reports it twice and counts two. */
  lemma SameRadioOnTwoInterfaces(ip1: string, ip2: string, sender: Address, r: Radio, reply: seq<byte>)
    requires IsExampleRadio(r)
    requires IsAscii(ReplyText(r)) && reply == AsciiBytes(ReplyText(r))
    ensures var line := FoundRadio("278", "192.168.73.108", "00278");
      Program([Interface(ip1, [Datagram(sender, reply)]),
               Interface(ip2, [Datagram(sender, reply), Timeout])])
        == Done(State(2, [line, line, Summary(2)]))
  {
    ExampleReplyAccepted(r);
    assert ZFill("278", SerialWidth) == "00278" by { ZFillInsertsZeros("278", SerialWidth); }
    SameReplyOnTwoInterfaces(ip1, ip2, sender, reply, r);
  }

  /** A `k4` reply with three fields is malformed: its split gives three values. */
  lemma ThreeFieldReply(fields: seq<string>, reply: seq<byte>)
    requires fields == ["k4", "0", "192.168.73.108"]
    requires IsAscii(Join(fields, ReturnDelimiter)) && reply == AsciiBytes(Join(fields, ReturnDelimiter))
    ensures Classify(reply) == Malformed(UnpackError(3))
  {
    assert ReturnDelimiter !in fields[0] && ReturnDelimiter !in fields[1] && ReturnDelimiter !in fields[2];
    assert fields[0][..2] == "k4";
    ClassifyJoin(fields);
  }

  /** A K4 reply with three fields makes the tuple unpacking raise: the pass
      ends before anything is counted and no summary is printed. */
  lemma MissingFieldAborts(ip: string, sender: Address, fields: seq<string>, reply: seq<byte>)
    requires fields == ["k4", "0", "192.168.73.108"]
    requires IsAscii(Join(fields, ReturnDelimiter)) && reply == AsciiBytes(Join(fields, ReturnDelimiter))
    ensures Program([Interface(ip, [Datagram(sender, reply), Timeout])]) == Crashed(UnpackError(3), State(0, []))
  {
    ThreeFieldReply(fields, reply);
    var traffic := [Datagram(sender, reply), Timeout];
    assert Receive(traffic, State(0, [])) == Crashed(UnpackError(3), State(0, []));
    assert Scan([Interface(ip, traffic)], State(0, [])) == Crashed(UnpackError(3), State(0, []));
  }
}
