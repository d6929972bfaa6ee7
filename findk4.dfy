/**
 * The discovery pass of findk4.py with the sockets abstracted away: each
 * interface contributes the sequence of events its receive socket delivers,
 * and the program turns them into printed lines and a radio count.
 *
 * `Receive`, `Scan` and `Program` state what a pass yields as functions;
 * `Run` is the script's own control flow (the `for ip in IPList` loop, the
 * `while not done` loop, the `done` flag and the `nK4Count` counter) and is
 * proved to yield exactly that.
 */
module FindK4 {
  import opened Utf8
  import opened PyText
  import opened K4Reply

  /** One entry of `IPList` with the traffic its receive socket delivers after
      the probe was broadcast from it. Reading past the end of the traffic
      behaves as a receive timeout. */
  datatype Interface = Interface(ip: string, traffic: seq<Event>)

  /** The program state that survives between datagrams: `nK4Count` and what
      has been printed so far. */
  datatype State = State(count: nat, output: seq<Line>)

  /** How a pass ends: it runs to the end, or an exception that the
      `except socket.timeout` clause does not catch escapes from the receive
      loop and ends the program there. */
  datatype Outcome = Done(state: State) | Crashed(failure: Failure, state: State)

  /** How many of the lines are per-radio lines. */
  function FoundCount(lines: seq<Line>): nat
  {
    if lines == [] then 0
    else FoundCount(lines[..|lines| - 1]) + (if lines[|lines| - 1].FoundRadio? then 1 else 0)
  }

  /** Whether `next` keeps what `st` printed and counted, and has printed one
      per-radio line for each unit it added to the count. */
  ghost predicate Extends(next: State, st: State)
  {
    next.count >= st.count &&
    |next.output| >= |st.output| && next.output[..|st.output|] == st.output &&
    FoundCount(next.output) - FoundCount(st.output) == next.count - st.count
  }

  /** The effect of one datagram on the state, when it does not raise: one
      line is printed, and the count grows by one exactly for a K4 reply,
      whose line is its per-radio line; any other datagram prints only the
      "Unexpected data" line. */
  function Handle(addr: Address, data: seq<byte>, st: State): (next: State)
    requires !Classify(data).Malformed?
    ensures Extends(next, st) && |next.output| == |st.output| + 1
    ensures next.count == st.count + (if Classify(data).Accepted? then 1 else 0)
    ensures Classify(data).Accepted? ==> next.output[|st.output|] == FoundLine(Classify(data).radio)
    ensures Classify(data).Unexpected? ==> next.output[|st.output|] == UnexpectedData(addr, data)
  {
    match Classify(data)
    case Accepted(r) => State(st.count + 1, st.output + [FoundLine(r)])
    case Unexpected => State(st.count, st.output + [UnexpectedData(addr, data)])
  }

  /** The receive loop of one interface, from state `st`: datagrams are
      handled one by one until the first timeout or the end of the traffic.
      On every way out, nothing printed or counted is taken back, and each
      unit added to the count printed one per-radio line. */
  function Receive(traffic: seq<Event>, st: State): (o: Outcome)
    ensures Extends(o.state, st)
    decreases |traffic|
  {
    if traffic == [] then Done(st)
    else
      match traffic[0]
      case Timeout => Done(st)
      case Datagram(addr, data) =>
        if Classify(data).Malformed? then Crashed(Classify(data).failure, st)
        else Receive(traffic[1..], Handle(addr, data, st))
  }

  /** Continue with the remaining interfaces after an outcome. */
  function Then(o: Outcome, rest: seq<Interface>): (next: Outcome)
    ensures Extends(next.state, o.state)
    decreases |rest|, 2
  {
    match o
    case Crashed(_, _) => o
    case Done(st) => Scan(rest, st)
  }

  /** The loop over the interface list: one receive loop per interface, in order. */
  function Scan(ipList: seq<Interface>, st: State): (o: Outcome)
    ensures Extends(o.state, st)
    decreases |ipList|, 1
  {
    if ipList == [] then Done(st)
    else Then(Receive(ipList[0].traffic, st), ipList[1..])
  }

  /** The whole pass: scan every interface from a zero count, then print
      the summary. The count is the number of per-radio lines printed, and a
      pass that runs to the end prints the summary for it last. */
  function Program(ipList: seq<Interface>): (o: Outcome)
    ensures FoundCount(o.state.output) == o.state.count
    ensures o.Done? ==> |o.state.output| > 0 && o.state.output[|o.state.output| - 1] == Summary(o.state.count)
  {
    match Scan(ipList, State(0, []))
    case Crashed(f, st) => Crashed(f, st)
    case Done(st) =>
      assert (st.output + [Summary(st.count)])[..|st.output|] == st.output;
      Done(State(st.count, st.output + [Summary(st.count)]))
  }

  /** The script: for every interface, receive until `done` is set by a
      timeout, counting each K4 reply, then reset `done`; finally print the
      summary. A malformed K4 reply ends the program with an exception. */
  method Run(ipList: seq<Interface>) returns (outcome: Outcome)
    ensures outcome == Program(ipList)
  {
    var done := false;
    var nK4Count: nat := 0;
    var output: seq<Line> := [];
    ghost var whole := Scan(ipList, State(0, []));
    for k := 0 to |ipList|
      invariant !done
      invariant whole == Scan(ipList[k..], State(nK4Count, output))
    {
      assert ipList[k..][1..] == ipList[k + 1..];
      var traffic := ipList[k].traffic;
      var next := 0;
      while !done
        invariant next <= |traffic| + 1
        invariant !done ==> next <= |traffic|
        invariant !done ==> whole == Then(Receive(traffic[next..], State(nK4Count, output)), ipList[k + 1..])
        invariant done ==> whole == Scan(ipList[k + 1..], State(nK4Count, output))
        decreases |traffic| + 1 - next
      {
        var event := if next < |traffic| then traffic[next] else Timeout;
        ghost var rest := traffic[next..];
        next := next + 1;
        match event {
          case Timeout =>
            done := true;
          case Datagram(addr, data) =>
            assert rest[0] == event && rest[1..] == traffic[next..];
            if StartsWith(data, K4ReturnStart) {
              var sData := Decode(data);
              if sData.None? {
                return Crashed(UnicodeDecodeError, State(nK4Count, output));
              }
              var fields := Split(sData.value, ReturnDelimiter);
              if |fields| != FieldCount {
                return Crashed(UnpackError(|fields|), State(nK4Count, output));
              }
              var sRigType, sRigIndex, sRigIP, sRigSN := fields[0], fields[1], fields[2], fields[3];
              var sSNFull := ZFill(sRigSN, SerialWidth);
              output := output + [FoundRadio(sRigSN, sRigIP, sSNFull)];
              nK4Count := nK4Count + 1;
            } else {
              output := output + [UnexpectedData(addr, data)];
            }
        }
      }
      done := false;
    }
    outcome := Done(State(nK4Count, output + [Summary(nK4Count)]));
  }
}
