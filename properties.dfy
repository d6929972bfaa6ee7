/**
 * What a discovery pass of findk4.py promises, stated over the functions
 * that `FindK4.Run` is proved to compute: the count is the number of
 * well-formed K4 replies received before each interface's first timeout,
 * summed over the interfaces, with no deduplication.
 */
module FindK4Properties {
  import opened Utf8
  import opened K4Reply
  import opened FindK4

  /** The events a receive loop reads: those before the first timeout. */
  function BeforeTimeout(traffic: seq<Event>): (events: seq<Event>)
    ensures Timeout !in events
    decreases |traffic|
  {
    if traffic == [] || traffic[0] == Timeout then []
    else [traffic[0]] + BeforeTimeout(traffic[1..])
  }

  /** Whether the event is a datagram that the receive loop accepts as a K4 reply. */
  predicate IsReply(e: Event)
  {
    e.Datagram? && Classify(e.data).Accepted?
  }

  /** Whether the event is a `k4` datagram that makes the receive loop raise. */
  predicate IsMalformed(e: Event)
  {
    e.Datagram? && Classify(e.data).Malformed?
  }

  /** How many of the events are accepted K4 replies. */
  function Replies(events: seq<Event>): nat
    decreases |events|
  {
    if events == [] then 0
    else (if IsReply(events[0]) then 1 else 0) + Replies(events[1..])
  }

  /** The number of replies the pass counts on every interface together. */
  function Total(ipList: seq<Interface>): nat
    decreases |ipList|
  {
    if ipList == [] then 0
    else Replies(BeforeTimeout(ipList[0].traffic)) + Total(ipList[1..])
  }

  /** Whether no interface delivers a malformed K4 reply before its first timeout. */
  predicate AllWellFormed(ipList: seq<Interface>)
  {
    forall i, e :: 0 <= i < |ipList| && e in BeforeTimeout(ipList[i].traffic) ==> !IsMalformed(e)
  }

  /** Traffic after a timeout is never read. */
  lemma {:induction false} ReceiveStopsAtTimeout(t1: seq<Event>, t2: seq<Event>, st: State)
    ensures Receive(t1 + [Timeout] + t2, st) == Receive(t1, st)
    decreases |t1|
  {
    var t := t1 + [Timeout] + t2;
    if t1 == [] {
      assert t[0] == Timeout;
    } else {
      assert t[0] == t1[0];
      assert t[1..] == t1[1..] + [Timeout] + t2;
      match t1[0]
      case Timeout =>
      case Datagram(addr, data) =>
        if !Classify(data).Malformed? {
          ReceiveStopsAtTimeout(t1[1..], t2, Handle(addr, data, st));
        }
    }
  }

  /** The receive loop of one interface runs to its timeout exactly when no
      malformed K4 reply arrives before it, and then adds to the count the
      number of K4 replies that arrived before it. */
  lemma {:induction false} ReceiveCount(traffic: seq<Event>, st: State)
    ensures Receive(traffic, st).Done? <==> forall e :: e in BeforeTimeout(traffic) ==> !IsMalformed(e)
    ensures Receive(traffic, st).Done? ==>
              Receive(traffic, st).state.count == st.count + Replies(BeforeTimeout(traffic))
    decreases |traffic|
  {
    if traffic != [] && traffic[0] != Timeout {
      var events := BeforeTimeout(traffic);
      assert events[0] == traffic[0] && events[1..] == BeforeTimeout(traffic[1..]);
      match traffic[0]
      case Datagram(addr, data) =>
        if Classify(data).Malformed? {
          assert IsMalformed(events[0]);
        } else {
          ReceiveCount(traffic[1..], Handle(addr, data, st));
          assert forall e :: e in events <==> e == events[0] || e in events[1..];
        }
    }
  }

  /** The line the receive loop prints for an event it reads: the per-radio
      line for a K4 reply and the "Unexpected data" line for any other
      datagram. A timeout prints nothing, and a malformed reply raises instead. */
  function LineOf(e: Event): seq<Line>
  {
    match e
    case Timeout => []
    case Datagram(addr, data) =>
      match Classify(data)
      case Accepted(r) => [FoundLine(r)]
      case Unexpected => [UnexpectedData(addr, data)]
      case Malformed(_) => []
  }

  /** The lines printed for a sequence of events, in order. */
  function Lines(events: seq<Event>): seq<Line>
    decreases |events|
  {
    if events == [] then [] else LineOf(events[0]) + Lines(events[1..])
  }

  /** A receive loop that reaches its timeout prints one line per datagram
      before it, in arrival order: the per-radio line with the raw serial and
      IP for each K4 reply, the "Unexpected data" line for every other one. */
  lemma {:induction false} ReceiveLines(traffic: seq<Event>, st: State)
    ensures Receive(traffic, st).Done? ==>
              Receive(traffic, st).state.output == st.output + Lines(BeforeTimeout(traffic))
    decreases |traffic|
  {
    if traffic != [] && traffic[0] != Timeout {
      var events := BeforeTimeout(traffic);
      assert events[0] == traffic[0] && events[1..] == BeforeTimeout(traffic[1..]);
      match traffic[0]
      case Datagram(addr, data) =>
        if !Classify(data).Malformed? {
          ReceiveLines(traffic[1..], Handle(addr, data, st));
          LinesStep(events, Handle(addr, data, st).output, st);
        }
    } else {
      assert BeforeTimeout(traffic) == [];
    }
  }

  /** A malformed K4 reply ends the pass at once: what came before it on the
      interface is counted and printed, the malformed reply itself is not,
      and nothing after it is read. */
  lemma {:induction false} ReceiveCrash(pre: seq<Event>, addr: Address, data: seq<byte>, post: seq<Event>, st: State)
    requires Timeout !in pre && forall e :: e in pre ==> !IsMalformed(e)
    requires Classify(data).Malformed?
    ensures Receive(pre + [Datagram(addr, data)] + post, st).Crashed?
    ensures Receive(pre + [Datagram(addr, data)] + post, st).failure == Classify(data).failure
    ensures Receive(pre + [Datagram(addr, data)] + post, st).state.count == st.count + Replies(pre)
    ensures Receive(pre + [Datagram(addr, data)] + post, st).state.output == st.output + Lines(pre)
    decreases |pre|
  {
    var t := pre + [Datagram(addr, data)] + post;
    if pre == [] {
      assert t[0] == Datagram(addr, data);
    } else {
      assert t[0] == pre[0] && pre[0] in pre;
      assert t[1..] == pre[1..] + [Datagram(addr, data)] + post;
      assert forall e :: e in pre[1..] ==> e in pre;
      ReceiveCrash(pre[1..], addr, data, post, Handle(pre[0].addr, pre[0].data, st));
      LinesStep(pre, Handle(pre[0].addr, pre[0].data, st).output, st);
    }
  }

  /** Handling a datagram that does not raise appends exactly its line. */
  lemma HandleAppendsLine(e: Event, st: State)
    requires e.Datagram? && !IsMalformed(e)
    ensures Handle(e.addr, e.data, st).output == st.output + LineOf(e)
  {
    var output := Handle(e.addr, e.data, st).output;
    assert LineOf(e) == [output[|st.output|]];
    assert output == output[..|st.output|] + [output[|st.output|]];
  }

  /** One step of the receive loop's output: the line handling the first
      datagram appends, followed by the lines of the rest, are the lines of
      all the events. */
  lemma LinesStep(pre: seq<Event>, output: seq<Line>, st: State)
    requires pre != [] && pre[0].Datagram? && !IsMalformed(pre[0])
    requires output == Handle(pre[0].addr, pre[0].data, st).output
    ensures output + Lines(pre[1..]) == st.output + Lines(pre)
  {
    HandleAppendsLine(pre[0], st);
    var line := LineOf(pre[0]);
    assert Lines(pre) == line + Lines(pre[1..]);
    assert (st.output + line) + Lines(pre[1..]) == st.output + (line + Lines(pre[1..]));
  }

  /** A datagram that does not start with `k4` prints only its "Unexpected
      data" line and leaves the count as it was, then the loop goes on. */
  lemma UnexpectedOnlyLine(addr: Address, data: seq<byte>, rest: seq<Event>, st: State)
    requires !StartsWith(data, K4ReturnStart)
    ensures Receive([Datagram(addr, data)] + rest, st)
              == Receive(rest, State(st.count, st.output + [UnexpectedData(addr, data)]))
  {
    var t := [Datagram(addr, data)] + rest;
    assert t[0] == Datagram(addr, data) && t[1..] == rest;
    assert Classify(data) == Unexpected;
    assert Handle(addr, data, st) == State(st.count, st.output + [UnexpectedData(addr, data)]);
  }

  /** A datagram that does not start with `k4` does not affect the count:
      wherever it arrives, that interface's receive loop ends the same way
      with the same count. */
  lemma {:induction false} UnexpectedNotCounted(pre: seq<Event>, addr: Address, data: seq<byte>, post: seq<Event>, st: State)
    requires !StartsWith(data, K4ReturnStart)
    ensures Receive(pre + [Datagram(addr, data)] + post, st).Done? == Receive(pre + post, st).Done?
    ensures Receive(pre + [Datagram(addr, data)] + post, st).state.count == Receive(pre + post, st).state.count
    decreases |pre|
  {
    var t := pre + [Datagram(addr, data)] + post;
    if pre == [] {
      assert t[0] == Datagram(addr, data) && t[1..] == post;
      assert pre + post == post;
      assert Classify(data) == Unexpected;
      SameCountFrom(post, st, Handle(addr, data, st));
    } else {
      assert t[0] == pre[0];
      assert t[1..] == pre[1..] + [Datagram(addr, data)] + post;
      assert (pre + post)[0] == pre[0] && (pre + post)[1..] == pre[1..] + post;
      match pre[0]
      case Timeout =>
      case Datagram(a, d) =>
        if !Classify(d).Malformed? {
          UnexpectedNotCounted(pre[1..], addr, data, post, Handle(a, d, st));
        }
    }
  }

  /** Only the count of the starting state matters for how the receive loop
      ends and what it counts; the lines printed so far do not. */
  lemma {:induction false} SameCountFrom(traffic: seq<Event>, s1: State, s2: State)
    requires s1.count == s2.count
    ensures Receive(traffic, s1).Done? == Receive(traffic, s2).Done?
    ensures Receive(traffic, s1).state.count == Receive(traffic, s2).state.count
    decreases |traffic|
  {
    if traffic != [] {
      match traffic[0]
      case Timeout =>
      case Datagram(addr, data) =>
        if !Classify(data).Malformed? {
          SameCountFrom(traffic[1..], Handle(addr, data, s1), Handle(addr, data, s2));
        }
    }
  }

  /** There is no deduplication: the same reply received twice is reported
      and counted twice. */
  lemma SameReplyCountedTwice(addr: Address, data: seq<byte>, st: State)
    requires Classify(data).Accepted?
    ensures var line := FoundLine(Classify(data).radio);
      Receive([Datagram(addr, data), Datagram(addr, data)], st)
        == Done(State(st.count + 2, st.output + [line, line]))
  {
    var e := Datagram(addr, data);
    var line := FoundLine(Classify(data).radio);
    var once := State(st.count + 1, st.output + [line]);
    var twice := State(st.count + 2, st.output + [line, line]);
    assert Handle(addr, data, st) == once;
    assert Handle(addr, data, once) == twice by {
      assert once.output + [line] == st.output + [line, line];
    }
    assert [e, e][1..] == [e] && [e][1..] == [];
    assert Receive([e], once) == Done(twice);
  }

  /** Every interface gets its own complete receive loop, whatever the
      interfaces before it delivered: the scan of a concatenated list is the
      scan of the first part continued with the second. */
  lemma {:induction false} ScanAppend(a: seq<Interface>, b: seq<Interface>, st: State)
    ensures Scan(a + b, st) == Then(Scan(a, st), b)
    decreases |a|
  {
    if a == [] {
      assert a + b == b;
    } else {
      assert (a + b)[0] == a[0] && (a + b)[1..] == a[1..] + b;
      match Receive(a[0].traffic, st)
      case Crashed(_, _) =>
      case Done(s) => ScanAppend(a[1..], b, s);
    }
  }

  /** The scan runs to the end exactly when every interface is well formed
      before its timeout, and then the count grows by the per-interface
      reply counts summed over all interfaces. */
  lemma {:induction false} ScanCount(ipList: seq<Interface>, st: State)
    ensures Scan(ipList, st).Done? <==> AllWellFormed(ipList)
    ensures Scan(ipList, st).Done? ==> Scan(ipList, st).state.count == st.count + Total(ipList)
    decreases |ipList|
  {
    if ipList != [] {
      var first := ipList[0].traffic;
      ReceiveCount(first, st);
      match Receive(first, st)
      case Crashed(_, _) =>
        assert !AllWellFormed(ipList);
      case Done(s) =>
        ScanCount(ipList[1..], s);
        assert AllWellFormed(ipList) <==> AllWellFormed(ipList[1..]) by {
          if AllWellFormed(ipList[1..]) {
            forall i, e | 0 <= i < |ipList| && e in BeforeTimeout(ipList[i].traffic)
              ensures !IsMalformed(e)
            {
              if i > 0 { assert ipList[i] == ipList[1..][i - 1]; }
            }
          }
          if AllWellFormed(ipList) {
            forall i, e | 0 <= i < |ipList[1..]| && e in BeforeTimeout(ipList[1..][i].traffic)
              ensures !IsMalformed(e)
            {
              assert ipList[1..][i] == ipList[i + 1];
            }
          }
        }
    }
  }

  /** A pass that runs to the end prints the summary last, and the count in
      it is the total of K4 replies over all interfaces; a pass that raises
      prints no summary. */
  lemma ProgramSummary(ipList: seq<Interface>)
    ensures Program(ipList).Done? <==> AllWellFormed(ipList)
    ensures Program(ipList).Done? ==>
              Program(ipList).state.count == Total(ipList) &&
              |Program(ipList).state.output| >= 1 &&
              Program(ipList).state.output[|Program(ipList).state.output| - 1] == Summary(Total(ipList))
    ensures Program(ipList).Crashed? ==> forall line :: line in Program(ipList).state.output ==> !line.Summary?
  {
    ScanCount(ipList, State(0, []));
    if Program(ipList).Crashed? {
      ScanNoSummary(ipList, State(0, []));
    }
  }

  /** The scan itself never prints a summary line. */
  lemma {:induction false} ScanNoSummary(ipList: seq<Interface>, st: State)
    requires forall line :: line in st.output ==> !line.Summary?
    ensures forall line :: line in Scan(ipList, st).state.output ==> !line.Summary?
    decreases |ipList|
  {
    if ipList != [] {
      ReceiveNoSummary(ipList[0].traffic, st);
      match Receive(ipList[0].traffic, st)
      case Crashed(_, _) =>
      case Done(s) => ScanNoSummary(ipList[1..], s);
    }
  }

  /** The receive loop prints only per-radio and "Unexpected data" lines. */
  lemma {:induction false} ReceiveNoSummary(traffic: seq<Event>, st: State)
    requires forall line :: line in st.output ==> !line.Summary?
    ensures forall line :: line in Receive(traffic, st).state.output ==> !line.Summary?
    decreases |traffic|
  {
    if traffic != [] {
      match traffic[0]
      case Timeout =>
      case Datagram(addr, data) =>
        if !Classify(data).Malformed? {
          ReceiveNoSummary(traffic[1..], Handle(addr, data, st));
        }
    }
  }
}
