/**
 * RemotePmacInterface as an object: its attributes are fields that the methods update in
 * place, and every method is proved to do what the function of the same name in RemoteSpec
 * says: the attributes after the call and the outcome are the function's.
 */
module Remote {
  import opened Py
  import opened Transport
  import opened Addressing
  import opened Commands
  import opened RemoteSpec

  /** One connection to a PMAC, through the Ethernet or the Telnet transport. */
  class RemotePmac {
    const link: Link
    var hostname: string
    var port: Option<int>
    var isOpen: bool
    var hasSocket: bool
    var geobrick: Option<bool>
    var numAxes: Option<int>
    var permits: nat
    var sent: seq<string>
    var cooked: string

    /** The attributes as one value. */
    function Snap(): State
      reads this
    {
      State(hostname, port, isOpen, hasSocket, geobrick, numAxes, permits, sent, cooked)
    }

    /** __init__: an axis count given here is taken as known and never asked of the controller. */
    constructor (link: Link, numAxes: Option<int>)
      ensures this.link == link && Snap() == Init(numAxes)
    {
      this.link := link;
      hostname := "";
      port := None;
      isOpen := false;
      hasSocket := false;
      geobrick := None;
      this.numAxes := numAxes;
      permits := 1;
      sent := [];
      cooked := "";
    }

    method SetConnectionParams(host: string, port: Option<int>)
      modifies this
      ensures Snap() == RemoteSpec.SetConnectionParams(old(Snap()), host, port)
    {
      hostname := host;
      if port.Some? && port.value != 0 {
        this.port := port;
      }
    }

    /** _sendCommand of the transport: the semaphore is taken and given back around the exchange. */
    method Exchange(command: string, shouldWait: bool) returns (r: Result<string>)
      requires shouldWait ==> permits > 0
      modifies this
      ensures Out(Snap(), r) == RemoteSpec.Exchange(link, old(Snap()), command, shouldWait)
    {
      if shouldWait {
        permits := permits - 1;
      }
      match link {
        case Ethernet(eth) =>
          var packet := AddHeader(command);
          if !hasSocket {
            r := Raised(AttributeError("sock"));
          } else if packet.None? {
            r := Raised(StructError);
          } else {
            var reply := eth(|sent|, packet.value);
            sent := sent + [packet.value];
            match reply {
              case Recv(data) => r := Ok(Received(data));
              case EthSocketError => r := Raised(IOError("Socket communication error"));
            }
          }
        case Telnet(tel) =>
          if !hasSocket {
            r := Raised(IOError("Communication with PMAC broken."));
          } else {
            var line := command + "\r\n";
            var reply := tel(|sent|, line);
            sent := sent + [line];
            match reply {
              case TelnetSocketError(detail) =>
                r := Raised(IOError("Communication with PMAC broken: " + detail));
              case Chunks(parts, eof) =>
                match Expect(cooked, parts, eof) {
                  case Matched(_, text, rest) =>
                    cooked := rest;
                    r := Ok(text);
                  case Timeout(text) =>
                    cooked := "";
                    r := Raised(IOError("Timed out waiting for expected response. Got only: " + text));
                  case EofError =>
                    cooked := "";
                    r := Raised(IOError("Communication with PMAC broken."));
                }
            }
          }
      }
      if shouldWait {
        permits := permits + 1;
      }
    }

    method SendCommand(command: string, shouldWait: bool) returns (r: Result<Reply>)
      requires shouldWait ==> permits > 0
      modifies this
      ensures Out(Snap(), r) == RemoteSpec.SendCommand(link, old(Snap()), command, shouldWait)
    {
      var x := Exchange(command, shouldWait);
      match x {
        case Ok(response) => r := Ok(Reply(response, true));
        case Raised(e) =>
          if e.IOError? {
            r := Ok(Reply("I/O error during comm with PMAC: " + e.message, false));
          } else {
            r := Raised(e);
          }
      }
    }

    method GetPmacModel() returns (r: Result<string>)
      requires permits > 0
      modifies this
      ensures Out(Snap(), r) == RemoteSpec.GetPmacModel(link, old(Snap()))
    {
      var x := SendCommand("cid", true);
      if x.Raised? {
        return Raised(x.exc);
      }
      if !x.value.success {
        return Raised(IOError("Error talking to PMAC"));
      }
      var code := CidCode(x.value.response);
      if code.None? {
        return Raised(ValueError("Received malformed input from PMAC (" + Repr(x.value.response) + ")"));
      }
      var name := ModelName(code.value);
      if name.None? {
        return Raised(ValueError("Unsupported PMAC model"));
      }
      r := Ok(name.value);
    }

    method IsModelGeobrick() returns (r: Result<bool>)
      requires permits > 0
      modifies this
      ensures Out(Snap(), r) == RemoteSpec.IsModelGeobrick(link, old(Snap()))
    {
      if geobrick.None? {
        var model := GetPmacModel();
        if model.Raised? {
          return Raised(model.exc);
        }
        geobrick := Some(model.value == GeoBrick);
      }
      r := Ok(geobrick.value);
    }

    /** getIVars: query the I-variables base + offset and split the reply into its values. */
    method GetIVars(base: int, offsets: seq<int>) returns (r: Result<seq<string>>)
      requires permits > 0
      modifies this
      ensures Out(Snap(), r) == RemoteSpec.GetIVars(link, old(Snap()), base, offsets)
    {
      var vars := Offset(base, offsets);
      var cmd := BuildIVarsCommand(vars);
      var x := SendCommand(cmd, true);
      if x.Raised? {
        return Raised(x.exc);
      }
      if x.value.success {
        r := Ok(ReplyValues(x.value.response));
      } else {
        r := Raised(IOError("Cannot retrieve variable: error communicating with PMAC"));
      }
    }

    /** _getNumberOfMacroStationAxes: eight more axes for every one of I20 .. I23 that is not "$0". */
    method MacroStationAxes() returns (r: Result<int>)
      requires permits > 0
      modifies this
      ensures Out(Snap(), r) == RemoteSpec.MacroStationAxes(link, old(Snap()))
    {
      var addresses := GetIVars(0, [20, 21, 22, 23]);
      if addresses.Raised? {
        return Raised(addresses.exc);
      }
      var bases := addresses.value;
      var count := 0;
      var i := 0;
      while i < 4
        invariant 0 <= i <= 4 && i <= |bases|
        invariant count == 8 * PresentIcs(bases, i)
      {
        if i >= |bases| {
          return Raised(IndexError);
        }
        if bases[i] != "$0" {
          count := count + 8;
        }
        i := i + 1;
      }
      r := Ok(count);
    }

    method NumberOfAxes() returns (r: Result<int>)
      requires permits > 0
      modifies this
      ensures Out(Snap(), r) == RemoteSpec.NumberOfAxes(link, old(Snap()))
    {
      if numAxes.None? {
        var g := IsModelGeobrick();
        if g.Raised? {
          return Raised(g.exc);
        }
        var macro := MacroStationAxes();
        assert RemoteSpec.NumberOfAxes(link, old(Snap())) == WithOnboardAxes(g.value, Out(Snap(), macro));
        if macro.Raised? {
          return Raised(macro.exc);
        }
        ghost var counted := Out(Snap(), macro);
        if g.value {
          numAxes := Some(8 + macro.value);
        } else {
          numAxes := Some(macro.value);
        }
        assert Out(Snap(), Ok(numAxes.value)) == WithOnboardAxes(g.value, counted);
      }
      r := Ok(numAxes.value);
    }

    method CheckAxis(axis: int) returns (r: Result<()>)
      requires permits > 0
      modifies this
      ensures Out(Snap(), r) == RemoteSpec.CheckAxis(link, old(Snap()), axis)
    {
      if axis < 0 {
        return Raised(ValueError("Asking for a negative axis"));
      }
      var n := NumberOfAxes();
      if n.Raised? {
        return Raised(n.exc);
      }
      if axis > n.value {
        // the count is cached by now, so asking again returns it
        var again := NumberOfAxes();
        return Raised(ValueError("Requested axis " + Dec(axis) + " but PMAC has only " + Dec(again.value) + " axes"));
      }
      r := Ok(());
    }

    method AxisMacroStation(axis: int) returns (r: Result<int>)
      requires permits > 0
      modifies this
      ensures Out(Snap(), r) == RemoteSpec.AxisMacroStation(link, old(Snap()), axis)
    {
      var c := CheckAxis(axis);
      if c.Raised? {
        return Raised(c.exc);
      }
      var g := IsModelGeobrick();
      if g.Raised? {
        return Raised(g.exc);
      }
      var entry: Option<int>;
      if !g.value {
        entry := PyIndex(MacroStationTable, axis - 1);
      } else if axis <= 8 {
        return Raised(ValueError("Axis " + Dec(axis) + " is not on the MACRO ring"));
      } else {
        entry := PyIndex(MacroStationTable, (axis - 8) - 1);
      }
      if entry.None? {
        return Raised(IndexError);
      }
      r := Ok(entry.value);
    }

    method IsMacroStationAxis(axis: int) returns (r: Result<bool>)
      requires permits > 0
      modifies this
      ensures Out(Snap(), r) == RemoteSpec.IsMacroStationAxis(link, old(Snap()), axis)
    {
      var c := CheckAxis(axis);
      if c.Raised? {
        return Raised(c.exc);
      }
      var g := IsModelGeobrick();
      if g.Raised? {
        return Raised(g.exc);
      }
      r := Ok(!g.value || axis > 8);
    }

    method SetVar(name: string, value: string) returns (r: Result<()>)
      requires permits > 0
      modifies this
      ensures Out(Snap(), r) == RemoteSpec.SetVar(link, old(Snap()), name, value)
    {
      var x := SendCommand(name + "=" + value, true);
      if x.Raised? {
        return Raised(x.exc);
      }
      if x.value.success {
        r := Ok(());
      } else {
        r := Raised(IOError("Cannot set variable: error communicating with PMAC"));
      }
    }

    method GetAxisSetupIVars(axis: int, offsets: seq<int>) returns (r: Result<seq<string>>)
      requires permits > 0
      modifies this
      ensures Out(Snap(), r) == RemoteSpec.GetAxisSetupIVars(link, old(Snap()), axis, offsets)
    {
      var c := CheckAxis(axis);
      if c.Raised? {
        return Raised(c.exc);
      }
      r := GetIVars(100 * axis, offsets);
    }

    method SetAxisSetupIVar(axis: int, offset: int, value: string) returns (r: Result<()>)
      requires permits > 0
      modifies this
      ensures Out(Snap(), r) == RemoteSpec.SetAxisSetupIVar(link, old(Snap()), axis, offset, value)
    {
      var c := CheckAxis(axis);
      if c.Raised? {
        return Raised(c.exc);
      }
      r := SetVar("i" + Dec(100 * axis + offset), value);
    }

    /** getAxisMsIVars: query the I-variables of the axis's MACRO station and split the reply. */
    method GetAxisMsIVars(axis: int, vars: seq<int>) returns (r: Result<seq<string>>)
      requires permits > 0
      modifies this
      ensures Out(Snap(), r) == RemoteSpec.GetAxisMsIVars(link, old(Snap()), axis, vars)
    {
      var c := CheckAxis(axis);
      if c.Raised? {
        return Raised(c.exc);
      }
      var s := AxisMacroStation(axis);
      if s.Raised? {
        return Raised(s.exc);
      }
      var station := s.value;
      var cmd := BuildMsIVarsCommand(station, vars);
      var x := SendCommand(cmd, true);
      if x.Raised? {
        return Raised(x.exc);
      }
      if x.value.success {
        r := Ok(ReplyValues(x.value.response));
      } else {
        r := Raised(IOError("Cannot retrieve variable: error communicating with PMAC"));
      }
    }

    method SetAxisMsIVar(axis: int, v: int, value: string) returns (r: Result<()>)
      requires permits > 0
      modifies this
      ensures Out(Snap(), r) == RemoteSpec.SetAxisMsIVar(link, old(Snap()), axis, v, value)
    {
      var c := CheckAxis(axis);
      if c.Raised? {
        return Raised(c.exc);
      }
      var s := AxisMacroStation(axis);
      if s.Raised? {
        return Raised(s.exc);
      }
      r := SetVar("ms" + Dec(s.value) + ",i" + Dec(v), value);
    }

    method OnboardBase(axis: int) returns (r: Result<int>)
      requires permits > 0
      modifies this
      ensures Out(Snap(), r) == RemoteSpec.OnboardBase(link, old(Snap()), axis)
    {
      var c := CheckAxis(axis);
      if c.Raised? {
        return Raised(c.exc);
      }
      var m := IsMacroStationAxis(axis);
      if m.Raised? {
        return Raised(m.exc);
      }
      if m.value {
        return Raised(ValueError("Axis " + Dec(axis) + " is not an onboard axis"));
      }
      r := Ok(I7000Base(axis));
    }

    method GetOnboardVars(axis: int, offsets: seq<int>) returns (r: Result<seq<string>>)
      requires permits > 0
      modifies this
      ensures Out(Snap(), r) == RemoteSpec.GetOnboardVars(link, old(Snap()), axis, offsets)
    {
      var b := OnboardBase(axis);
      if b.Raised? {
        return Raised(b.exc);
      }
      r := GetIVars(b.value, offsets);
    }

    method SetOnboardVar(axis: int, offset: int, value: string) returns (r: Result<()>)
      requires permits > 0
      modifies this
      ensures Out(Snap(), r) == RemoteSpec.SetOnboardVar(link, old(Snap()), axis, offset, value)
    {
      var b := OnboardBase(axis);
      if b.Raised? {
        return Raised(b.exc);
      }
      r := SetVar("i" + Dec(b.value + offset), value);
    }

    method JogInc(motor: int, direction: string, distance: int) returns (r: Result<CommandReply>)
      requires permits > 0
      modifies this
      ensures Out(Snap(), r) == RemoteSpec.JogInc(link, old(Snap()), motor, direction, distance)
    {
      var command := JogIncCommand(motor, direction, distance);
      if command.None? {
        return Raised(UnboundLocalError("cmd"));
      }
      var cmd := command.value;
      var x := SendCommand(cmd, true);
      if x.Raised? {
        return Raised(x.exc);
      }
      r := Ok(CommandReply(cmd, x.value.response, x.value.success));
    }

    method JogStop(motor: int) returns (r: Result<CommandReply>)
      requires permits > 0
      modifies this
      ensures Out(Snap(), r) == RemoteSpec.JogStop(link, old(Snap()), motor)
    {
      var cmd := JogStopCommand(motor);
      var x := SendCommand(cmd, true);
      if x.Raised? {
        return Raised(x.exc);
      }
      r := Ok(CommandReply(cmd, x.value.response, x.value.success));
    }

    method JogTo(motor: int, position: int) returns (r: Result<CommandReply>)
      requires permits > 0
      modifies this
      ensures Out(Snap(), r) == RemoteSpec.JogTo(link, old(Snap()), motor, position)
    {
      var cmd := JogToCommand(motor, position);
      var x := SendCommand(cmd, true);
      if x.Raised? {
        return Raised(x.exc);
      }
      r := Ok(CommandReply(cmd, x.value.response, x.value.success));
    }

    method JogContinuous(motor: int, direction: string) returns (r: Result<CommandReply>)
      requires permits > 0
      modifies this
      ensures Out(Snap(), r) == RemoteSpec.JogContinuous(link, old(Snap()), motor, direction)
    {
      var command := JogContinuousCommand(motor, direction);
      if command.None? {
        return Raised(UnboundLocalError("cmd"));
      }
      var cmd := command.value;
      var x := SendCommand(cmd, true);
      if x.Raised? {
        return Raised(x.exc);
      }
      r := Ok(CommandReply(cmd, x.value.response, x.value.success));
    }

    method Home(motor: int) returns (r: Result<CommandReply>)
      requires permits > 0
      modifies this
      ensures Out(Snap(), r) == RemoteSpec.Home(link, old(Snap()), motor)
    {
      var cmd := HomeCommand(motor);
      var x := SendCommand(cmd, true);
      if x.Raised? {
        return Raised(x.exc);
      }
      r := Ok(CommandReply(cmd, x.value.response, x.value.success));
    }

    method DisableLimits(motor: int, disable: bool) returns (r: Result<LimitsOutcome>)
      requires permits > 0
      modifies this
      ensures Out(Snap(), r) == RemoteSpec.DisableLimits(link, old(Snap()), motor, disable)
    {
      var x := SendCommand(LimitsQuery(motor), true);
      if x.Raised? {
        return Raised(x.exc);
      }
      var plan := PlanLimits(x.value, disable);
      if plan.Finish? {
        return plan.res;
      }
      var cmd := LimitsWrite(motor, plan.setting);
      var w := SendCommand(cmd, true);
      if w.Raised? {
        return Raised(w.exc);
      }
      r := Ok(Written(cmd, w.value.response, w.value.success));
    }

    /**
     * sendSeriesThread: hold the semaphore for the whole series, run the loop, release,
     * post the closing progress and the done event; an exception from the loop escapes with
     * the semaphore still held.
     */
    method SendSeries(lines: seq<(int, string)>, cancelled: nat -> bool) returns (events: seq<Event>, raised: Option<Exception>)
      requires permits > 0
      modifies this
      ensures Series(Snap(), events, raised) == RemoteSpec.SendSeries(link, old(Snap()), lines, cancelled)
    {
      permits := permits - 1;
      ghost var total := SeriesSweep(link, Snap(), lines, cancelled, []);
      assert RemoteSpec.SendSeries(link, old(Snap()), lines, cancelled) == SeriesEnd(lines, total);
      var errLines, lineNumber;
      ghost var replies;
      events, errLines, lineNumber, raised, replies := SendLines(lines, cancelled, total);
      if raised.Some? {
        return;
      }
      permits := permits + 1;
      events := events + [Progress(|lines| + 1)];
      if lineNumber.None? {
        raised := Some(UnboundLocalError("lineNumber"));
        return;
      }
      events := events + [Done(errLines, lineNumber.value)];
    }

    /**
     * The loop of sendSeriesThread: send the lines until the first cancelled one, note the
     * failed ones and post the progress after each; an exception ends it.
     */
    method SendLines(lines: seq<(int, string)>, cancelled: nat -> bool, ghost total: Sweep)
      returns (events: seq<Event>, errLines: seq<(int, string)>, lineNumber: Option<int>, raised: Option<Exception>,
               ghost replies: seq<Reply>)
      requires total == SeriesSweep(link, Snap(), lines, cancelled, [])
      modifies this
      ensures Snap() == total.st && raised == total.raised && replies == total.replies && |replies| <= |lines|
      ensures Tally(lines, replies, events, errLines, lineNumber)
    {
      replies := [];
      events := [];
      errLines := [];
      lineNumber := None;
      var i := 0;
      while i < |lines| && !cancelled(i)
        invariant 0 <= i <= |lines| && i == |replies|
        invariant Tally(lines, replies, events, errLines, lineNumber)
        invariant SeriesSweep(link, Snap(), lines, cancelled, replies) == total
      {
        var (n, command) := lines[i];
        ghost var before := Snap();
        var x := SendCommand(command, false);
        SweepStep(link, before, lines, cancelled, replies, Out(Snap(), x));
        if x.Raised? {
          raised := Some(x.exc);
          return;
        }
        TallySnoc(lines, replies, events, errLines, lineNumber, x.value);
        if Failed(x.value) {
          errLines := errLines + [(n, x.value.response)];
        }
        replies := replies + [x.value];
        lineNumber := Some(n);
        events := events + [Progress(i + 1)];
        i := i + 1;
      }
      raised := None;
    }

    /** The Ethernet connect, with the outcome of the socket's connect() as a parameter. */
    method EthernetConnect(reach: Reach) returns (r: Result<Option<string>>)
      requires link.Ethernet?
      requires Handshakes(Snap(), reach) ==> permits > 0
      modifies this
      ensures Out(Snap(), r) == RemoteSpec.EthernetConnect(link.eth, old(Snap()), reach)
    {
      if isOpen {
        return Ok(Some("Socket is already open"));
      }
      if hostname == "" || port.None? || port.value == 0 {
        return Ok(Some("ERROR: hostname or port number not set"));
      }
      hasSocket := true;
      if reach == UnknownHost {
        return Ok(Some("ERROR: unknown host"));
      }
      if reach == Refused {
        return Ok(Some("ERROR: connection refused by host"));
      }
      isOpen := true;
      var x := Exchange("ver", true);
      if x.Raised? {
        if x.exc.IOError? {
          Disconnect();
          return Ok(Some("Device failed to respond to a \"ver\" command"));
        }
        return Raised(x.exc);
      }
      if !IsVersionReply(x.value) {
        Disconnect();
        return Ok(Some("Device did not respond correctly to a \"ver\" command"));
      }
      r := Ok(None);
    }

    /** disconnect: close an open connection while holding the semaphore; a closed one stays as it is. */
    method Disconnect()
      requires isOpen ==> permits > 0
      modifies this
      ensures Snap() == RemoteSpec.Disconnect(old(Snap()))
    {
      if isOpen {
        permits := permits - 1;
        permits := permits + 1;
        isOpen := false;
      }
    }
  }
}
