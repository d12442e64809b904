/**
 * What a RemotePmacInterface does, operation by operation, as functions from the state of
 * the connection object before the call to its state after the call and the outcome of the
 * call (a value, or the exception that escapes).
 *
 * The wire is an oracle: for the n-th exchange and the bytes written, it says what comes
 * back (Transport.EthReply for the Ethernet transport, Transport.TelnetReply for the Telnet
 * one). The connection semaphore is its count of free permits; a call that waits on it with
 * no permit free would block for ever, so such calls require a free permit.
 */
module RemoteSpec {
  import opened Py
  import opened Transport
  import opened Addressing
  import opened Commands

  /** The transport an interface talks through, with the wire's behaviour. */
  datatype Link =
    | Ethernet(eth: (nat, string) -> EthReply)
    | Telnet(tel: (nat, string) -> TelnetReply)

  /**
   * The attributes of a RemotePmacInterface the modelled operations read and write: the
   * connection parameters, whether the connection is open, whether the object that carries
   * the connection exists (self.sock, or self.tn for Telnet), the cached model flag and axis
   * count (None while not known), the semaphore's free permits, everything written to the
   * wire so far, and (Telnet only) the received text not yet consumed by a reply.
   */
  datatype State = State(
    hostname: string,
    port: Option<int>,
    isOpen: bool,
    hasSocket: bool,
    geobrick: Option<bool>,
    numAxes: Option<int>,
    permits: nat,
    sent: seq<string>,
    cooked: string)

  /** The state after a call, and what the call returns or raises. */
  datatype Out<T> = Out(st: State, res: Result<T>)

  /** sendCommand's answer: the response, or an error message, and whether the exchange went through. */
  datatype Reply = Reply(response: string, success: bool)

  /** What the jog and home methods return: the command, the response and the success flag. */
  datatype CommandReply = CommandReply(command: string, response: string, success: bool)

  /** b has the connection parameters, the open flag, the connection object and the free permits of a. */
  predicate Settled(a: State, b: State)
  {
    b.hostname == a.hostname && b.port == a.port && b.isOpen == a.isOpen && b.hasSocket == a.hasSocket &&
    b.permits == a.permits
  }

  /** b differs from a at most in what has gone over the wire. */
  predicate Wire(a: State, b: State)
  {
    Settled(a, b) && b.geobrick == a.geobrick && b.numAxes == a.numAxes && a.sent <= b.sent
  }

  /** b differs from a at most in the wire and in caches that a had not filled yet. */
  predicate Caches(a: State, b: State)
  {
    Settled(a, b) && a.sent <= b.sent &&
    (a.geobrick.Some? ==> b.geobrick == a.geobrick) &&
    (a.numAxes.Some? ==> b.numAxes == a.numAxes)
  }

  /**
   * A new interface: no host, no port, closed, no connection object, nothing cached but an
   * axis count given by the caller.
   */
  function Init(numAxes: Option<int>): (st: State)
    ensures !st.isOpen && !st.hasSocket && st.permits == 1 && st.sent == [] && st.numAxes == numAxes && st.geobrick.None?
  {
    State("", None, false, false, None, numAxes, 1, [], "")
  }

  /**
   * The exceptions sendCommand lets escape: struct.error from a command too long for its
   * header, and the AttributeError of an Ethernet interface that never created its socket.
   */
  predicate Escapes(e: Exception)
  {
    e == StructError || e == AttributeError("sock")
  }

  /**
   * setConnectionParams: the host always changes; the port only when a non-zero one is
   * given, otherwise the previous port stays.
   */
  function SetConnectionParams(st: State, host: string, port: Option<int>): (r: State)
    ensures r.hostname == host
    ensures r.port == (if port.Some? && port.value != 0 then port else st.port)
    ensures r.(hostname := st.hostname, port := st.port) == st
  {
    st.(hostname := host, port := if port.Some? && port.value != 0 then port else st.port)
  }

  // ---------------------------------------------------------------- one exchange

  /** What the controller reads as the command out of what was written to the wire. */
  function Delivered(link: Link, written: string): Option<string>
  {
    match link
    case Ethernet(_) => ReadPacket(written)
    case Telnet(_) =>
      if |written| >= 2 && written[|written| - 2..] == "\r\n" then Some(written[..|written| - 2]) else None
  }

  /**
   * _sendCommand: take a permit if asked to wait, write the command and read the reply, and
   * give the permit back on every way out. Ethernet: without a socket, AttributeError;
   * otherwise the command behind its header, the reply from one recv; a command too long
   * for the header's length byte raises struct.error before anything is written. Telnet:
   * without a session, the bare except turns the AttributeError into IOError; otherwise the
   * command and "\r\n", the reply as expect() finds it; a socket error, the end of the
   * connection and a timeout become IOError.
   */
  function Exchange(link: Link, st: State, command: string, shouldWait: bool): (o: Out<string>)
    requires shouldWait ==> st.permits > 0
    ensures Wire(st, o.st) && |o.st.sent| <= |st.sent| + 1
    ensures o.res.Raised? ==> o.res.exc.IOError? || Escapes(o.res.exc)
  {
    match link
    case Ethernet(eth) =>
      if !st.hasSocket then Out(st, Raised(AttributeError("sock")))
      else
        (match AddHeader(command)
         case None => Out(st, Raised(StructError))
         case Some(packet) =>
           var st1 := st.(sent := st.sent + [packet]);
           match eth(|st.sent|, packet)
           case Recv(data) => Out(st1, Ok(Received(data)))
           case EthSocketError => Out(st1, Raised(IOError("Socket communication error"))))
    case Telnet(tel) =>
      if !st.hasSocket then Out(st, Raised(IOError("Communication with PMAC broken.")))
      else
        var line := command + "\r\n";
        var st1 := st.(sent := st.sent + [line]);
        match tel(|st.sent|, line)
        case TelnetSocketError(detail) => Out(st1, Raised(IOError("Communication with PMAC broken: " + detail)))
        case Chunks(parts, eof) =>
          match Expect(st.cooked, parts, eof)
          case Matched(_, text, rest) => Out(st1.(cooked := rest), Ok(text))
          case Timeout(text) =>
            Out(st1.(cooked := ""), Raised(IOError("Timed out waiting for expected response. Got only: " + text)))
          case EofError => Out(st1.(cooked := ""), Raised(IOError("Communication with PMAC broken.")))
  }

  /** Whatever an exchange writes, the controller reads back exactly the command from it. */
  lemma ExchangeDelivers(link: Link, st: State, command: string, shouldWait: bool)
    requires shouldWait ==> st.permits > 0
    ensures var o := Exchange(link, st, command, shouldWait);
            |o.st.sent| == |st.sent| + 1 ==> Delivered(link, o.st.sent[|st.sent|]) == Some(command)
  {
    var o := Exchange(link, st, command, shouldWait);
    if |o.st.sent| == |st.sent| + 1 {
      var w := o.st.sent[|st.sent|];
      match link
      case Ethernet(_) =>
        PacketRoundTrip(command, w);
      case Telnet(_) =>
        assert w == command + "\r\n";
        assert w[|w| - 2..] == "\r\n" && w[..|w| - 2] == command;
    }
  }

  /**
   * Only an Ethernet interface without a socket, and an Ethernet command too long for its
   * header, escape as something other than IOError; nothing is written then, nor by a
   * Telnet interface without a session, which reports a broken communication; every
   * Ethernet reply is at most one recv's worth.
   */
  lemma ExchangeErrors(link: Link, st: State, command: string, shouldWait: bool)
    requires shouldWait ==> st.permits > 0
    ensures var o := Exchange(link, st, command, shouldWait);
            (o.res == Raised(AttributeError("sock")) <==> link.Ethernet? && !st.hasSocket) &&
            (o.res == Raised(StructError) <==> link.Ethernet? && st.hasSocket && |command| >= 256) &&
            (o.res.Raised? ==> o.res.exc.IOError? || Escapes(o.res.exc)) &&
            (o.st.sent == st.sent <==> !st.hasSocket || (link.Ethernet? && |command| >= 256)) &&
            (link.Telnet? && !st.hasSocket ==> o == Out(st, Raised(IOError("Communication with PMAC broken.")))) &&
            (link.Ethernet? && o.res.Ok? ==> |o.res.value| <= RecvLimit)
  {
  }

  /**
   * A Telnet reply is the text up to the end of a matched pattern: it ends in a full error
   * report or in its only ACK.
   */
  lemma TelnetReplyShape(tel: (nat, string) -> TelnetReply, st: State, command: string, shouldWait: bool)
    requires shouldWait ==> st.permits > 0
    ensures var o := Exchange(Telnet(tel), st, command, shouldWait);
            o.res.Ok? ==> var t := o.res.value;
              (|t| >= 8 && ErrorAt(t, |t| - 8)) || (|t| > 0 && t[|t| - 1] == ACK && ACK !in t[..|t| - 1])
  {
    match tel(|st.sent|, command + "\r\n")
    case Chunks(parts, eof) =>
      ExpectReplyShape(st.cooked, parts, eof);
    case TelnetSocketError(_) =>
  }

  /** sendCommand: an IOError becomes a failure reply carrying its message; anything else escapes. */
  function SendCommand(link: Link, st: State, command: string, shouldWait: bool): (o: Out<Reply>)
    requires shouldWait ==> st.permits > 0
    ensures Wire(st, o.st) && |o.st.sent| <= |st.sent| + 1
    ensures o.res.Raised? ==> Escapes(o.res.exc)
  {
    var x := Exchange(link, st, command, shouldWait);
    match x.res
    case Ok(response) => Out(x.st, Ok(Reply(response, true)))
    case Raised(IOError(m)) => Out(x.st, Ok(Reply("I/O error during comm with PMAC: " + m, false)))
    case Raised(e) => Out(x.st, Raised(e))
  }

  /**
   * The outcome contract: success exactly when the exchange returned, with its reply as it
   * came (an "ERRnnn" answer included); a failure reply says why; only the AttributeError of
   * a missing Ethernet socket and struct.error escape, as they came.
   */
  lemma SendCommandOutcome(link: Link, st: State, command: string, shouldWait: bool)
    requires shouldWait ==> st.permits > 0
    ensures var x := Exchange(link, st, command, shouldWait);
            var o := SendCommand(link, st, command, shouldWait);
            o.st == x.st &&
            (o.res.Raised? <==> link.Ethernet? && (!st.hasSocket || |command| >= 256)) &&
            (o.res.Raised? ==> x.res == Raised(o.res.exc)) &&
            (o.res.Ok? && o.res.value.success <==> x.res.Ok?) &&
            (x.res.Ok? ==> o.res.value.response == x.res.value) &&
            (o.res.Ok? && !o.res.value.success ==>
               exists m :: x.res == Raised(IOError(m)) && o.res.value.response == "I/O error during comm with PMAC: " + m)
  {
    ExchangeErrors(link, st, command, shouldWait);
  }

  // ---------------------------------------------------------------- model and axes

  /**
   * getPmacModel: "cid" must come back as digits, CR, ACK; the code must be one of the two
   * known models.
   */
  function GetPmacModel(link: Link, st: State): (o: Out<string>)
    requires st.permits > 0
    ensures Wire(st, o.st)
  {
    var x := SendCommand(link, st, "cid", true);
    match x.res
    case Raised(e) => Out(x.st, Raised(e))
    case Ok(reply) =>
      if !reply.success then Out(x.st, Raised(IOError("Error talking to PMAC")))
      else match CidCode(reply.response)
        case None => Out(x.st, Raised(ValueError("Received malformed input from PMAC (" + Repr(reply.response) + ")")))
        case Some(code) =>
          match ModelName(code)
          case None => Out(x.st, Raised(ValueError("Unsupported PMAC model")))
          case Some(name) => Out(x.st, Ok(name))
  }

  /** A controller answering "cid" with its code is recognised as that model, or refused as unsupported. */
  lemma GetPmacModelOfCode(link: Link, st: State, code: nat)
    requires st.permits > 0
    requires Exchange(link, st, "cid", true).res == Ok(DecDigits(code) + "\r" + [ACK])
    ensures GetPmacModel(link, st).res ==
              if code == 603382 then Ok(GeoBrick)
              else if code == 602413 then Ok(TurboPmac2Vme)
              else Raised(ValueError("Unsupported PMAC model"))
  {
    CidCodeOfAnswer(code);
  }

  /** The model is always one of the two known names. */
  lemma GetPmacModelNames(link: Link, st: State)
    requires st.permits > 0
    ensures GetPmacModel(link, st).res.Ok? ==>
              GetPmacModel(link, st).res.value in {TurboPmac2Vme, GeoBrick}
  {
  }

  /** isModelGeobrick: asks the model once and keeps the answer. */
  function IsModelGeobrick(link: Link, st: State): (o: Out<bool>)
    requires st.permits > 0
    ensures Caches(st, o.st) && o.st.numAxes == st.numAxes
    ensures o.res.Ok? ==> o.st.geobrick == Some(o.res.value)
    ensures st.geobrick.Some? ==> o == Out(st, Ok(st.geobrick.value))
    ensures st.geobrick.None? ==>
              var m := GetPmacModel(link, st);
              (o.res.Ok? <==> m.res.Ok?) && (o.res.Ok? ==> o.res.value == (m.res.value == GeoBrick))
  {
    if st.geobrick.Some? then Out(st, Ok(st.geobrick.value))
    else
      var m := GetPmacModel(link, st);
      match m.res
      case Raised(e) => Out(m.st, Raised(e))
      case Ok(name) => Out(m.st.(geobrick := Some(name == GeoBrick)), Ok(name == GeoBrick))
  }

  /**
   * A controller answering "cid" with code c, asked for the first time, is a Geo Brick for
   * 603382, not one for 602413, and any other code raises ValueError('Unsupported PMAC model').
   */
  lemma IsModelGeobrickOfCode(link: Link, st: State, code: nat)
    requires st.permits > 0 && st.geobrick.None?
    requires Exchange(link, st, "cid", true).res == Ok(DecDigits(code) + "\r" + [ACK])
    ensures IsModelGeobrick(link, st).res ==
              if code == 603382 then Ok(true)
              else if code == 602413 then Ok(false)
              else Raised(ValueError("Unsupported PMAC model"))
  {
    GetPmacModelOfCode(link, st, code);
  }

  /** The I-variables base + offset, in order: the "map(lambda x: base + x, offsets)" of getIVars. */
  function Offset(base: int, offsets: seq<int>): (r: seq<int>)
    ensures |r| == |offsets|
  {
    if |offsets| == 0 then [] else [base + offsets[0]] + Offset(base, offsets[1..])
  }

  lemma {:induction false} OffsetAt(base: int, offsets: seq<int>, k: nat)
    requires k < |offsets|
    ensures Offset(base, offsets)[k] == base + offsets[k]
    decreases |offsets|
  {
    if k > 0 {
      OffsetAt(base, offsets[1..], k - 1);
    }
  }

  lemma OffsetAll(base: int, offsets: seq<int>)
    ensures forall k :: 0 <= k < |offsets| ==> Offset(base, offsets)[k] == base + offsets[k]
  {
    forall k | 0 <= k < |offsets|
      ensures Offset(base, offsets)[k] == base + offsets[k]
    {
      OffsetAt(base, offsets, k);
    }
  }

  /** getIVars: queries "i<base + offset> " for every offset; the values of the reply, or IOError. */
  function GetIVars(link: Link, st: State, base: int, offsets: seq<int>): (o: Out<seq<string>>)
    requires st.permits > 0
    ensures Wire(st, o.st)
  {
    var x := SendCommand(link, st, IVarsCommand(Offset(base, offsets)), true);
    match x.res
    case Raised(e) => Out(x.st, Raised(e))
    case Ok(reply) =>
      if reply.success then Out(x.st, Ok(ReplyValues(reply.response)))
      else Out(x.st, Raised(IOError("Cannot retrieve variable: error communicating with PMAC")))
  }

  /** getIVars hands back the CR-separated values of the reply; a failed exchange is IOError. */
  lemma GetIVarsOutcome(link: Link, st: State, base: int, offsets: seq<int>)
    requires st.permits > 0
    ensures var x := Exchange(link, st, IVarsCommand(Offset(base, offsets)), true);
            var o := GetIVars(link, st, base, offsets);
            o.st == x.st &&
            (x.res.Ok? ==> o.res == Ok(ReplyValues(x.res.value))) &&
            (x.res.Raised? && x.res.exc.IOError? ==>
               o.res == Raised(IOError("Cannot retrieve variable: error communicating with PMAC")))
  {
  }

  /** The query getIVars sends asks the controller for the variables base + offset, in order. */
  lemma GetIVarsAsks(base: int, offsets: seq<int>)
    ensures var command := IVarsCommand(Offset(base, offsets));
            |Words(command)| == |offsets| &&
            forall k :: 0 <= k < |offsets| ==> QueriedIVar(Words(command)[k]) == Some(base + offsets[k])
  {
    var vars := Offset(base, offsets);
    IVarsCommandQueries(vars);
    OffsetAll(base, offsets);
    QueriesShifted(Words(IVarsCommand(vars)), vars, base, offsets);
  }

  lemma QueriesShifted(ws: seq<string>, vars: seq<int>, base: int, offsets: seq<int>)
    requires |ws| == |vars| == |offsets|
    requires forall k :: 0 <= k < |vars| ==> QueriedIVar(ws[k]) == Some(vars[k])
    requires forall k :: 0 <= k < |offsets| ==> vars[k] == base + offsets[k]
    ensures forall k :: 0 <= k < |offsets| ==> QueriedIVar(ws[k]) == Some(base + offsets[k])
  {
  }

  /** _getNumberOfMacroStationAxes: eight axes for every MACRO IC whose base address I20..I23 is set. */
  function MacroStationAxes(link: Link, st: State): (o: Out<int>)
    requires st.permits > 0
    ensures Wire(st, o.st)
    ensures o.res.Ok? ==> o.res.value in {0, 8, 16, 24, 32}
    ensures var x := GetIVars(link, st, 0, [20, 21, 22, 23]);
            (o.res.Ok? <==> x.res.Ok? && |x.res.value| >= 4) &&
            (o.res.Ok? ==> o.res.value == 8 * |PresentSet(x.res.value, 4)|)
  {
    var x := GetIVars(link, st, 0, [20, 21, 22, 23]);
    match x.res
    case Raised(e) => Out(x.st, Raised(e))
    case Ok(bases) => Out(x.st, MacroAxesFromBases(bases))
  }

  /** getNumberOfAxes: computed once (eight on-board axes on a Geo Brick, plus the MACRO axes) and kept. */
  function NumberOfAxes(link: Link, st: State): (o: Out<int>)
    requires st.permits > 0
    ensures Caches(st, o.st)
    ensures o.res.Ok? ==> o.st.numAxes == Some(o.res.value)
    ensures st.numAxes.Some? ==> o == Out(st, Ok(st.numAxes.value))
  {
    if st.numAxes.Some? then Out(st, Ok(st.numAxes.value))
    else
      var g := IsModelGeobrick(link, st);
      match g.res
      case Raised(e) => Out(g.st, Raised(e))
      case Ok(geobrick) => WithOnboardAxes(geobrick, MacroStationAxes(link, g.st))
  }

  /** The total of a count of MACRO axes and, on a Geo Brick, its eight on-board axes, kept in the cache. */
  function WithOnboardAxes(geobrick: bool, m: Out<int>): (o: Out<int>)
    ensures o.st.(numAxes := m.st.numAxes) == m.st
    ensures o.res.Ok? <==> m.res.Ok?
    ensures o.res.Ok? ==> o.st.numAxes == Some(o.res.value)
    ensures o.res.Ok? ==> o.res.value == (if geobrick then 8 else 0) + m.res.value
  {
    match m.res
    case Raised(e) => Out(m.st, Raised(e))
    case Ok(macro) =>
      var n := (if geobrick then 8 else 0) + macro;
      Out(m.st.(numAxes := Some(n)), Ok(n))
  }

  /**
   * What a counted axis total can be: a multiple of eight, at most 40, and at least eight
   * exactly on a Geo Brick (whose eight on-board axes come first).
   */
  predicate AxisTotal(geobrick: bool, n: int)
  {
    if geobrick then n in {8, 16, 24, 32, 40} else n in {0, 8, 16, 24, 32}
  }

  /** A counted total is one of the totals AxisTotal allows, for the model found on the way. */
  lemma NumberOfAxesCounted(link: Link, st: State)
    requires st.permits > 0 && st.numAxes.None?
    ensures var o := NumberOfAxes(link, st);
            o.res.Ok? ==> o.st.geobrick.Some? && AxisTotal(o.st.geobrick.value, o.res.value)
    ensures var o := NumberOfAxes(link, st);
            var g := IsModelGeobrick(link, st);
            var x := GetIVars(link, g.st, 0, [20, 21, 22, 23]);
            o.res.Ok? ==>
              g.res.Ok? && x.res.Ok? && |x.res.value| >= 4 &&
              o.res.value == (if g.res.value then 8 else 0) + 8 * |PresentSet(x.res.value, 4)|
  {
    var g := IsModelGeobrick(link, st);
    if g.res.Ok? {
      var m := MacroStationAxes(link, g.st);
      assert NumberOfAxes(link, st) == WithOnboardAxes(g.res.value, m);
      OnboardAxesTotal(g.res.value, m);
    }
  }

  lemma OnboardAxesTotal(geobrick: bool, m: Out<int>)
    requires m.res.Ok? ==> m.res.value in {0, 8, 16, 24, 32}
    ensures var o := WithOnboardAxes(geobrick, m);
            o.res.Ok? ==> AxisTotal(geobrick, o.res.value)
  {
  }

  /** Asking again after a count gives the same count and changes nothing. */
  lemma NumberOfAxesCached(link: Link, st: State)
    requires st.permits > 0
    ensures var o := NumberOfAxes(link, st);
            o.res.Ok? ==> o.st.permits > 0 && NumberOfAxes(link, o.st) == o
  {
  }

  /** checkAxisIsInRange: a negative axis, or one above the axis count, is ValueError. */
  function CheckAxis(link: Link, st: State, axis: int): (o: Out<()>)
    requires st.permits > 0
    ensures Caches(st, o.st)
  {
    if axis < 0 then Out(st, Raised(ValueError("Asking for a negative axis")))
    else
      var n := NumberOfAxes(link, st);
      match n.res
      case Raised(e) => Out(n.st, Raised(e))
      case Ok(count) =>
        if axis > count then
          var again := NumberOfAxes(link, n.st);
          match again.res
          case Raised(e) => Out(again.st, Raised(e))
          case Ok(count2) =>
            Out(again.st, Raised(ValueError("Requested axis " + Dec(axis) + " but PMAC has only " + Dec(count2) + " axes")))
        else Out(n.st, Ok(()))
  }

  /**
   * The range check passes exactly for 0 <= axis <= count (axis 0 included); past the
   * count the message names the axis and the count.
   */
  lemma CheckAxisRange(link: Link, st: State, axis: int)
    requires st.permits > 0
    ensures var n := NumberOfAxes(link, st);
            var o := CheckAxis(link, st, axis);
            (o.res.Ok? <==> 0 <= axis && n.res.Ok? && axis <= n.res.value) &&
            (axis < 0 ==> o == Out(st, Raised(ValueError("Asking for a negative axis")))) &&
            (0 <= axis && n.res.Ok? && axis > n.res.value ==>
               o == Out(n.st, Raised(ValueError("Requested axis " + Dec(axis) + " but PMAC has only " + Dec(n.res.value) + " axes"))))
  {
    NumberOfAxesCached(link, st);
  }

  /**
   * getAxisMacroStationNumber: the station of the axis on the MACRO ring, counted after the
   * eight on-board axes of a Geo Brick; an on-board axis of a Geo Brick is ValueError.
   */
  function AxisMacroStation(link: Link, st: State, axis: int): (o: Out<int>)
    requires st.permits > 0
    ensures Caches(st, o.st)
  {
    var c := CheckAxis(link, st, axis);
    match c.res
    case Raised(e) => Out(c.st, Raised(e))
    case Ok(_) =>
      var g := IsModelGeobrick(link, c.st);
      match g.res
      case Raised(e) => Out(g.st, Raised(e))
      case Ok(geobrick) =>
        if !geobrick then
          match PyIndex(MacroStationTable, axis - 1)
          case None => Out(g.st, Raised(IndexError))
          case Some(station) => Out(g.st, Ok(station))
        else if axis <= 8 then Out(g.st, Raised(ValueError("Axis " + Dec(axis) + " is not on the MACRO ring")))
        else
          match PyIndex(MacroStationTable, (axis - 8) - 1)
          case None => Out(g.st, Raised(IndexError))
          case Some(station) => Out(g.st, Ok(station))
  }

  /**
   * A station comes from the table at the axis's place on the MACRO ring; on a Geo Brick
   * the first ring axis is axis 9. Axis 0 of a non-Geo Brick reads the table's last entry.
   */
  lemma AxisMacroStationTable(link: Link, st: State, axis: int)
    requires st.permits > 0
    ensures var o := AxisMacroStation(link, st, axis);
            o.res.Ok? ==>
              0 <= axis && o.st.geobrick.Some? &&
              (o.st.geobrick.value ==> axis > 8 && o.res == StationOfMacroAxis(axis - 8)) &&
              (!o.st.geobrick.value ==> o.res == StationOfMacroAxis(axis)) &&
              (!o.st.geobrick.value && axis == 0 ==> o.res.value == 65)
  {
    var c := CheckAxis(link, st, axis);
    CheckAxisRange(link, st, axis);
    if c.res.Ok? {
      var g := IsModelGeobrick(link, c.st);
      if g.res.Ok? && g.res.value && axis > 8 {
        assert (axis - 8) - 1 == axis - 9;
      }
    }
  }

  /** isMacroStationAxis: every axis of a non-Geo Brick, the axes past the eighth of a Geo Brick. */
  function IsMacroStationAxis(link: Link, st: State, axis: int): (o: Out<bool>)
    requires st.permits > 0
    ensures Caches(st, o.st)
    ensures o.res.Ok? ==> o.st.geobrick.Some? && o.res.value == (!o.st.geobrick.value || axis > 8)
  {
    var c := CheckAxis(link, st, axis);
    match c.res
    case Raised(e) => Out(c.st, Raised(e))
    case Ok(_) =>
      var g := IsModelGeobrick(link, c.st);
      match g.res
      case Raised(e) => Out(g.st, Raised(e))
      case Ok(geobrick) => Out(g.st, Ok(!geobrick || axis > 8))
  }

  // ---------------------------------------------------------------- I-variables

  /** setVar: sends "<name>=<value>"; a failed exchange is IOError. */
  function SetVar(link: Link, st: State, name: string, value: string): (o: Out<()>)
    requires st.permits > 0
    ensures Wire(st, o.st)
  {
    var x := SendCommand(link, st, name + "=" + value, true);
    match x.res
    case Raised(e) => Out(x.st, Raised(e))
    case Ok(reply) =>
      if reply.success then Out(x.st, Ok(()))
      else Out(x.st, Raised(IOError("Cannot set variable: error communicating with PMAC")))
  }

  /** setVar succeeds exactly when its exchange returns, and writes name=value. */
  lemma SetVarOutcome(link: Link, st: State, name: string, value: string)
    requires st.permits > 0
    ensures var x := Exchange(link, st, name + "=" + value, true);
            var o := SetVar(link, st, name, value);
            o.st == x.st && (o.res.Ok? <==> x.res.Ok?) &&
            (x.res.Raised? && x.res.exc.IOError? ==>
               o.res == Raised(IOError("Cannot set variable: error communicating with PMAC")))
  {
  }

  /** getAxisSetupIVars: the I-variables 100 * axis + offset of an axis in range. */
  function GetAxisSetupIVars(link: Link, st: State, axis: int, offsets: seq<int>): (o: Out<seq<string>>)
    requires st.permits > 0
    ensures Caches(st, o.st)
  {
    var c := CheckAxis(link, st, axis);
    match c.res
    case Raised(e) => Out(c.st, Raised(e))
    case Ok(_) => GetIVars(link, c.st, 100 * axis, offsets)
  }

  /** setAxisSetupIVar: sets "i<100 * axis + offset>" of an axis in range. */
  function SetAxisSetupIVar(link: Link, st: State, axis: int, offset: int, value: string): (o: Out<()>)
    requires st.permits > 0
    ensures Caches(st, o.st)
  {
    var c := CheckAxis(link, st, axis);
    match c.res
    case Raised(e) => Out(c.st, Raised(e))
    case Ok(_) => SetVar(link, c.st, "i" + Dec(100 * axis + offset), value)
  }

  /** Only an axis in range has its setup variables read or written, and those are Ixx<offset>. */
  lemma AxisSetupChecked(link: Link, st: State, axis: int, offsets: seq<int>, offset: int, value: string)
    requires st.permits > 0
    ensures var c := CheckAxis(link, st, axis);
            (c.res.Raised? ==> GetAxisSetupIVars(link, st, axis, offsets) == Out(c.st, Raised(c.res.exc)) &&
                               SetAxisSetupIVar(link, st, axis, offset, value) == Out(c.st, Raised(c.res.exc))) &&
            (c.res.Ok? ==> GetAxisSetupIVars(link, st, axis, offsets) == GetIVars(link, c.st, 100 * axis, offsets) &&
                           SetAxisSetupIVar(link, st, axis, offset, value) ==
                             SetVar(link, c.st, "i" + Dec(100 * axis + offset), value))
  {
  }

  /** getAxisMsIVars: queries "ms<station>,i<v> " for every variable of the axis's MACRO station. */
  function GetAxisMsIVars(link: Link, st: State, axis: int, vars: seq<int>): (o: Out<seq<string>>)
    requires st.permits > 0
    ensures Caches(st, o.st)
  {
    var c := CheckAxis(link, st, axis);
    match c.res
    case Raised(e) => Out(c.st, Raised(e))
    case Ok(_) =>
      var s := AxisMacroStation(link, c.st, axis);
      match s.res
      case Raised(e) => Out(s.st, Raised(e))
      case Ok(station) =>
        var x := SendCommand(link, s.st, MsIVarsCommand(station, vars), true);
        match x.res
        case Raised(e) => Out(x.st, Raised(e))
        case Ok(reply) =>
          if reply.success then Out(x.st, Ok(ReplyValues(reply.response)))
          else Out(x.st, Raised(IOError("Cannot retrieve variable: error communicating with PMAC")))
  }

  /** setAxisMsIVar: sets "ms<station>,i<v>" of the axis's MACRO station. */
  function SetAxisMsIVar(link: Link, st: State, axis: int, v: int, value: string): (o: Out<()>)
    requires st.permits > 0
    ensures Caches(st, o.st)
  {
    var c := CheckAxis(link, st, axis);
    match c.res
    case Raised(e) => Out(c.st, Raised(e))
    case Ok(_) =>
      var s := AxisMacroStation(link, c.st, axis);
      match s.res
      case Raised(e) => Out(s.st, Raised(e))
      case Ok(station) => SetVar(link, s.st, "ms" + Dec(station) + ",i" + Dec(v), value)
  }

  /**
   * The MACRO station I-variables of an axis are asked of, or written to, the station the
   * table gives for that axis.
   */
  lemma AxisMsIVarsStation(link: Link, st: State, axis: int, vars: seq<int>, v: int, value: string)
    requires st.permits > 0
    ensures var c := CheckAxis(link, st, axis);
            c.res.Ok? ==>
              var s := AxisMacroStation(link, c.st, axis);
              s.res.Ok? ==>
                s.st.permits > 0 &&
                SetAxisMsIVar(link, st, axis, v, value) == SetVar(link, s.st, "ms" + Dec(s.res.value) + ",i" + Dec(v), value) &&
                var x := Exchange(link, s.st, MsIVarsCommand(s.res.value, vars), true);
                GetAxisMsIVars(link, st, axis, vars).st == x.st &&
                (x.res.Ok? ==> GetAxisMsIVars(link, st, axis, vars).res == Ok(ReplyValues(x.res.value)))
  {
  }

  /**
   * getOnboardAxisI7000PlusVarsBase: the first I7000+ variable of an on-board axis;
   * ValueError for an axis on the MACRO ring.
   */
  function OnboardBase(link: Link, st: State, axis: int): (o: Out<int>)
    requires st.permits > 0
    ensures Caches(st, o.st)
  {
    var c := CheckAxis(link, st, axis);
    match c.res
    case Raised(e) => Out(c.st, Raised(e))
    case Ok(_) =>
      var m := IsMacroStationAxis(link, c.st, axis);
      match m.res
      case Raised(e) => Out(m.st, Raised(e))
      case Ok(isMacro) =>
        if isMacro then Out(m.st, Raised(ValueError("Axis " + Dec(axis) + " is not an onboard axis")))
        else Out(m.st, Ok(I7000Base(axis)))
  }

  /**
   * Only an on-board axis of a Geo Brick (1 to 8) has an I7000+ base; the eight bases are
   * 7010 .. 7040 and 7110 .. 7140.
   */
  lemma OnboardBaseAxes(link: Link, st: State, axis: int)
    requires st.permits > 0
    ensures var o := OnboardBase(link, st, axis);
            o.res.Ok? ==>
              o.st.geobrick == Some(true) && 0 <= axis <= 8 && o.res.value == I7000Base(axis) &&
              (axis >= 1 ==> 7010 <= o.res.value <= 7140 && o.res.value % 10 == 0)
  {
    CheckAxisRange(link, st, axis);
    if 1 <= axis < 8 {
      I7000BlocksDisjoint(axis, 8);
    }
    if axis == 8 {
      I7000BlocksDisjoint(1, 8);
    }
  }

  /** getOnboardAxisI7000PlusVars: the I-variables base + offset of an on-board axis. */
  function GetOnboardVars(link: Link, st: State, axis: int, offsets: seq<int>): (o: Out<seq<string>>)
    requires st.permits > 0
    ensures Caches(st, o.st)
  {
    var b := OnboardBase(link, st, axis);
    match b.res
    case Raised(e) => Out(b.st, Raised(e))
    case Ok(base) => GetIVars(link, b.st, base, offsets)
  }

  /** setOnboardAxisI7000PlusIVar: sets "i<base + offset>" of an on-board axis. */
  function SetOnboardVar(link: Link, st: State, axis: int, offset: int, value: string): (o: Out<()>)
    requires st.permits > 0
    ensures Caches(st, o.st)
  {
    var b := OnboardBase(link, st, axis);
    match b.res
    case Raised(e) => Out(b.st, Raised(e))
    case Ok(base) => SetVar(link, b.st, "i" + Dec(base + offset), value)
  }

  // ---------------------------------------------------------------- motion and limits

  /** One command through sendCommand, returned with its command as the jog and home methods do. */
  function Command(link: Link, st: State, command: string): (o: Out<CommandReply>)
    requires st.permits > 0
    ensures Wire(st, o.st)
    ensures o.res.Ok? ==> o.res.value.command == command
  {
    var x := SendCommand(link, st, command, true);
    match x.res
    case Raised(e) => Out(x.st, Raised(e))
    case Ok(reply) => Out(x.st, Ok(CommandReply(command, reply.response, reply.success)))
  }

  /** jogInc: with a direction other than "neg" or "pos" the unassigned cmd is UnboundLocalError. */
  function JogInc(link: Link, st: State, motor: int, direction: string, distance: int): (o: Out<CommandReply>)
    requires st.permits > 0
    ensures Wire(st, o.st)
  {
    match JogIncCommand(motor, direction, distance)
    case None => Out(st, Raised(UnboundLocalError("cmd")))
    case Some(command) => Command(link, st, command)
  }

  function JogStop(link: Link, st: State, motor: int): (o: Out<CommandReply>)
    requires st.permits > 0
    ensures Wire(st, o.st)
  {
    Command(link, st, JogStopCommand(motor))
  }

  function JogTo(link: Link, st: State, motor: int, position: int): (o: Out<CommandReply>)
    requires st.permits > 0
    ensures Wire(st, o.st)
  {
    Command(link, st, JogToCommand(motor, position))
  }

  /** jogContinous: with a direction other than "neg" or "pos" the unassigned cmd is UnboundLocalError. */
  function JogContinuous(link: Link, st: State, motor: int, direction: string): (o: Out<CommandReply>)
    requires st.permits > 0
    ensures Wire(st, o.st)
  {
    match JogContinuousCommand(motor, direction)
    case None => Out(st, Raised(UnboundLocalError("cmd")))
    case Some(command) => Command(link, st, command)
  }

  function Home(link: Link, st: State, motor: int): (o: Out<CommandReply>)
    requires st.permits > 0
    ensures Wire(st, o.st)
  {
    Command(link, st, HomeCommand(motor))
  }

  /**
   * Every jog and home method sends one command that asks the controller for that motion of
   * that motor, and returns the exchange's reply with it; an unknown direction sends nothing.
   */
  lemma MotionSent(link: Link, st: State, motor: nat, direction: string, distance: nat, position: int)
    requires st.permits > 0
    ensures var o := JogInc(link, st, motor, direction, distance);
            (direction != "neg" && direction != "pos" ==> o == Out(st, Raised(UnboundLocalError("cmd")))) &&
            (direction == "neg" && o.res.Ok? ==> ReadMotion(o.res.value.command) == Some((motor, Incremental(-(distance as int))))) &&
            (direction == "pos" && o.res.Ok? ==> ReadMotion(o.res.value.command) == Some((motor, Incremental(distance))))
    ensures var o := JogContinuous(link, st, motor, direction);
            (direction != "neg" && direction != "pos" ==> o == Out(st, Raised(UnboundLocalError("cmd")))) &&
            (o.res.Ok? ==> ReadMotion(o.res.value.command) == Some((motor, Continuous(direction == "pos"))))
    ensures JogStop(link, st, motor).res.Ok? ==> ReadMotion(JogStop(link, st, motor).res.value.command) == Some((motor, Stop))
    ensures JogTo(link, st, motor, position).res.Ok? ==>
              ReadMotion(JogTo(link, st, motor, position).res.value.command) == Some((motor, Absolute(position)))
    ensures Home(link, st, motor).res.Ok? ==> ReadMotion(Home(link, st, motor).res.value.command) == Some((motor, Homing))
  {
    MotionCommandsRead(motor, distance, distance, position);
  }

  /** What disableLimits ends with. */
  datatype LimitsOutcome =
    | ReadFailed                                                // the read failed: the method returns 1
    | NoChange                                                  // already as asked: ('', '', False)
    | Written(command: string, response: string, success: bool) // the write's (cmd, reply, status)

  /**
   * disableLimits: read "i<motor>24" as hexadecimal; set the limits bit to disable limits
   * that are enabled, flip it back to enable limits that are disabled, and otherwise write
   * nothing. A reply int() cannot read is ValueError.
   */
  function DisableLimits(link: Link, st: State, motor: int, disable: bool): (o: Out<LimitsOutcome>)
    requires st.permits > 0
    ensures Wire(st, o.st)
  {
    var x := SendCommand(link, st, LimitsQuery(motor), true);
    match x.res
    case Raised(e) => Out(x.st, Raised(e))
    case Ok(reply) =>
      match PlanLimits(reply, disable)
      case Finish(r) => Out(x.st, r)
      case WriteWord(setting) => LimitsWritten(motor, setting, SendCommand(link, x.st, LimitsWrite(motor, setting), true))
  }

  /** What disableLimits does after the read: finish with an outcome, or write a flag word. */
  datatype LimitsPlan = Finish(res: Result<LimitsOutcome>) | WriteWord(setting: int)

  /**
   * The decision disableLimits takes on the reply to the read: a failed read returns 1, a
   * reply that is not hexadecimal is ValueError, and a word whose limits bit is already as
   * asked needs no write.
   */
  function PlanLimits(reply: Reply, disable: bool): (p: LimitsPlan)
    ensures p.Finish? ==> !(p.res.Ok? && p.res.value.Written?)
    ensures p.WriteWord? ==>
              reply.success && LimitsReadBack(reply.response).Some? &&
              NewLimits(LimitsReadBack(reply.response).value, disable) == Some(p.setting)
  {
    if !reply.success then Finish(Ok(ReadFailed))
    else match LimitsReadBack(reply.response)
      case None =>
        Finish(Raised(ValueError("invalid literal for int() with base 16: " + Repr(Strip(reply.response, {'$', '\r', ACK})))))
      case Some(initial) =>
        match NewLimits(initial, disable)
        case None => Finish(Ok(NoChange))
        case Some(setting) => WriteWord(setting)
  }

  /** The end of disableLimits after a write: the command written, with the write's reply. */
  function LimitsWritten(motor: int, setting: int, w: Out<Reply>): (o: Out<LimitsOutcome>)
    ensures o.st == w.st && (o.res.Ok? <==> w.res.Ok?)
    ensures o.res.Ok? ==> o.res.value.Written? && o.res.value.command == LimitsWrite(motor, setting)
  {
    match w.res
    case Raised(e) => Out(w.st, Raised(e))
    case Ok(wrote) => Out(w.st, Ok(Written(LimitsWrite(motor, setting), wrote.response, wrote.success)))
  }

  /** When the limits already are as asked, disableLimits writes nothing. */
  lemma DisableLimitsUnchanged(link: Link, st: State, motor: int, disable: bool, initial: int)
    requires st.permits > 0
    requires Exchange(link, st, LimitsQuery(motor), true).res.Ok?
    requires LimitsReadBack(Exchange(link, st, LimitsQuery(motor), true).res.value) == Some(initial)
    requires Bit(initial, LimitsBit) == disable
    ensures DisableLimits(link, st, motor, disable) == Out(Exchange(link, st, LimitsQuery(motor), true).st, Ok(NoChange))
  {
    NewLimitsBits(initial, disable);
  }

  /** The word disableLimits writes is the one NewLimits derives from the word read. */
  lemma DisableLimitsCommand(link: Link, st: State, motor: int, disable: bool, initial: int)
    requires st.permits > 0
    requires Exchange(link, st, LimitsQuery(motor), true).res.Ok?
    requires LimitsReadBack(Exchange(link, st, LimitsQuery(motor), true).res.value) == Some(initial)
    ensures var o := DisableLimits(link, st, motor, disable);
            o.res.Ok? && o.res.value.Written? ==>
              NewLimits(initial, disable).Some? && o.res.value.command == LimitsWrite(motor, NewLimits(initial, disable).value)
  {
    var x := SendCommand(link, st, LimitsQuery(motor), true);
    assert x.res == Ok(Reply(Exchange(link, st, LimitsQuery(motor), true).res.value, true));
  }

  /**
   * A write happens only when the limits are not yet as asked, and the word written differs
   * from the word read in the limits bit alone, which it sets as asked.
   */
  lemma DisableLimitsWrites(link: Link, st: State, motor: int, disable: bool, initial: int)
    requires st.permits > 0
    requires Exchange(link, st, LimitsQuery(motor), true).res.Ok?
    requires LimitsReadBack(Exchange(link, st, LimitsQuery(motor), true).res.value) == Some(initial)
    ensures var o := DisableLimits(link, st, motor, disable);
            o.res.Ok? && o.res.value.Written? ==>
              Bit(initial, LimitsBit) != disable &&
              exists setting :: o.res.value.command == LimitsWrite(motor, setting) &&
                Bit(setting, LimitsBit) == disable &&
                forall j: nat :: j != LimitsBit ==> Bit(setting, j) == Bit(initial, j)
  {
    var o := DisableLimits(link, st, motor, disable);
    if o.res.Ok? && o.res.value.Written? {
      DisableLimitsCommand(link, st, motor, disable, initial);
      NewLimitsBits(initial, disable);
      var setting := NewLimits(initial, disable).value;
      assert o.res.value.command == LimitsWrite(motor, setting);
    }
  }

  // ---------------------------------------------------------------- a series of commands

  /** What sendSeriesThread posts to the receiver: progress counts, then the errors and the last line number. */
  datatype Event = Progress(count: int) | Done(errors: seq<(int, string)>, lastLine: int)

  /** The progress events 1, 2, ..., n. */
  function ProgressEvents(n: nat): (r: seq<Event>)
    ensures |r| == n
  {
    if n == 0 then [] else ProgressEvents(n - 1) + [Progress(n)]
  }

  /** The loop of sendSeriesThread: the replies in order, and an exception that ended it early. */
  datatype Sweep = Sweep(st: State, replies: seq<Reply>, raised: Option<Exception>)

  /**
   * The loop from the line after the replies already received: the lines are sent one by
   * one, without waiting on the semaphore, until the first cancelled one; an exception
   * escaping sendCommand ends the loop there.
   */
  function SeriesSweep(link: Link, st: State, lines: seq<(int, string)>, cancelled: nat -> bool, done: seq<Reply>): (w: Sweep)
    requires |done| <= |lines|
    ensures Wire(st, w.st) && |done| <= |w.replies| <= |lines| && w.replies[..|done|] == done
    decreases |lines| - |done|
  {
    var i := |done|;
    if i == |lines| || cancelled(i) then Sweep(st, done, None)
    else
      var x := SendCommand(link, st, lines[i].1, false);
      match x.res
      case Raised(e) => Sweep(x.st, done, Some(e))
      case Ok(reply) => SeriesSweep(link, x.st, lines, cancelled, done + [reply])
  }

  /** Whether a reply goes on the error list: a failed exchange, or ERR and three digits in the response. */
  predicate Failed(reply: Reply)
  {
    !reply.success || HasErrCode(reply.response)
  }

  /** errLineLst: the line number and response of every failed reply, in order. */
  function Failures(lines: seq<(int, string)>, replies: seq<Reply>): (r: seq<(int, string)>)
    requires |replies| <= |lines|
    ensures |r| <= |replies|
  {
    if |replies| == 0 then []
    else
      var k := |replies| - 1;
      Failures(lines, replies[..k]) + (if Failed(replies[k]) then [(lines[k].0, replies[k].response)] else [])
  }

  /** A reply added at the end adds its line at the end of the error list exactly when it failed. */
  lemma FailuresSnoc(lines: seq<(int, string)>, replies: seq<Reply>, reply: Reply)
    requires |replies| < |lines|
    ensures Failures(lines, replies + [reply]) ==
              Failures(lines, replies) + (if Failed(reply) then [(lines[|replies|].0, reply.response)] else [])
  {
    assert (replies + [reply])[..|replies|] == replies;
  }

  /**
   * The bookkeeping of sendSeriesThread after the replies so far: a progress event per
   * reply, the failed lines, and the number of the last line sent (unbound before the first).
   */
  predicate Tally(lines: seq<(int, string)>, replies: seq<Reply>, events: seq<Event>, errLines: seq<(int, string)>, lineNumber: Option<int>)
    requires |replies| <= |lines|
  {
    events == ProgressEvents(|replies|) && errLines == Failures(lines, replies) &&
    lineNumber == if |replies| == 0 then None else Some(lines[|replies| - 1].0)
  }

  /** Each reply extends the bookkeeping by its progress event, its line when it failed, and its line number. */
  lemma TallySnoc(lines: seq<(int, string)>, replies: seq<Reply>, events: seq<Event>, errLines: seq<(int, string)>,
                  lineNumber: Option<int>, reply: Reply)
    requires |replies| < |lines| && Tally(lines, replies, events, errLines, lineNumber)
    ensures Tally(lines, replies + [reply], events + [Progress(|replies| + 1)],
                  errLines + (if Failed(reply) then [(lines[|replies|].0, reply.response)] else []), Some(lines[|replies|].0))
  {
    FailuresSnoc(lines, replies, reply);
  }

  /** The outcome of a whole series: the state, the events posted, and the exception that ended the thread. */
  datatype Series = Series(st: State, events: seq<Event>, raised: Option<Exception>)

  /**
   * sendSeriesThread: take the semaphore once, run the loop, give the semaphore back, post
   * the closing progress and the done event with the errors and the last line number sent.
   * With no line sent that number was never bound (UnboundLocalError, after the release);
   * an exception from sendCommand leaves the semaphore taken.
   */
  function SendSeries(link: Link, st: State, lines: seq<(int, string)>, cancelled: nat -> bool): (s: Series)
    requires st.permits > 0
    ensures Wire(st.(permits := s.st.permits), s.st)
  {
    SeriesEnd(lines, SeriesSweep(link, st.(permits := st.permits - 1), lines, cancelled, []))
  }

  /**
   * What follows the loop of sendSeriesThread: unless an exception escaped from it, the
   * semaphore is given back and the closing progress posted; the done event carries the
   * failed lines and the number of the last line sent.
   */
  function SeriesEnd(lines: seq<(int, string)>, w: Sweep): (s: Series)
    requires |w.replies| <= |lines|
    ensures s.raised.None? ==> |w.replies| > 0 && w.raised.None?
    ensures s.st.(permits := w.st.permits) == w.st
    ensures |s.events| >= |w.replies| && s.events[..|w.replies|] == ProgressEvents(|w.replies|)
  {
    var progress := ProgressEvents(|w.replies|);
    if w.raised.Some? then Series(w.st, progress, w.raised)
    else
      var released := w.st.(permits := w.st.permits + 1);
      var events := progress + [Progress(|lines| + 1)];
      if |w.replies| == 0 then Series(released, events, Some(UnboundLocalError("lineNumber")))
      else Series(released, events + [Done(Failures(lines, w.replies), lines[|w.replies| - 1].0)], None)
  }

  /** One round of the loop: the next line is sent, and the loop goes on from its reply or ends on an exception. */
  lemma SweepStep(link: Link, st: State, lines: seq<(int, string)>, cancelled: nat -> bool, done: seq<Reply>, x: Out<Reply>)
    requires |done| < |lines| && !cancelled(|done|)
    requires x == SendCommand(link, st, lines[|done|].1, false)
    ensures x.res.Raised? ==> SeriesSweep(link, st, lines, cancelled, done) == Sweep(x.st, done, Some(x.res.exc))
    ensures x.res.Ok? ==>
              SeriesSweep(link, st, lines, cancelled, done) == SeriesSweep(link, x.st, lines, cancelled, done + [x.res.value])
  {
  }

  /**
   * The loop sends a prefix of the lines: none of them cancelled, and it stops only at the
   * end, at the first cancelled line, or on an exception.
   */
  lemma {:induction false} SweepStops(link: Link, st: State, lines: seq<(int, string)>, cancelled: nat -> bool, done: seq<Reply>)
    requires |done| <= |lines|
    ensures var w := SeriesSweep(link, st, lines, cancelled, done);
            (forall k :: |done| <= k < |w.replies| ==> !cancelled(k)) &&
            (w.raised.None? ==> |w.replies| == |lines| || cancelled(|w.replies|)) &&
            (w.raised.Some? ==> |w.replies| < |lines| && Escapes(w.raised.value))
    decreases |lines| - |done|
  {
    var i := |done|;
    if i < |lines| && !cancelled(i) {
      var x := SendCommand(link, st, lines[i].1, false);
      if x.res.Ok? {
        SweepStops(link, x.st, lines, cancelled, done + [x.res.value]);
      }
    }
  }

  /** A line is on the error list exactly when its reply failed, in the order the lines were sent. */
  lemma {:induction false} FailuresExact(lines: seq<(int, string)>, replies: seq<Reply>, n: int, response: string)
    requires |replies| <= |lines|
    ensures (n, response) in Failures(lines, replies) <==>
              exists k :: 0 <= k < |replies| && lines[k].0 == n && replies[k].response == response && Failed(replies[k])
    decreases |replies|
  {
    if |replies| > 0 {
      var k := |replies| - 1;
      FailuresExact(lines, replies[..k], n, response);
      if exists j :: 0 <= j < k && lines[j].0 == n && replies[..k][j].response == response && Failed(replies[..k][j]) {
        var j :| 0 <= j < k && lines[j].0 == n && replies[..k][j].response == response && Failed(replies[..k][j]);
        assert replies[j] == replies[..k][j];
      }
      if exists j :: 0 <= j < |replies| && lines[j].0 == n && replies[j].response == response && Failed(replies[j]) {
        var j :| 0 <= j < |replies| && lines[j].0 == n && replies[j].response == response && Failed(replies[j]);
        if j < k {
          assert replies[..k][j] == replies[j];
        }
      }
    }
  }

  /**
   * The semaphore is taken once and given back once: a series that ends normally, or with
   * the unbound line number, leaves the permits as they were; an escaping exception leaves
   * one permit taken. The events are the progress of every line sent, then (unless an
   * exception escaped from the loop) the closing progress.
   */
  lemma SendSeriesSemaphore(link: Link, st: State, lines: seq<(int, string)>, cancelled: nat -> bool)
    requires st.permits > 0
    ensures var s := SendSeries(link, st, lines, cancelled);
            var w := SeriesSweep(link, st.(permits := st.permits - 1), lines, cancelled, []);
            (w.raised.Some? ==>
               s.raised == w.raised && s.st.permits == st.permits - 1 && s.events == ProgressEvents(|w.replies|)) &&
            (w.raised.None? ==>
               s.st.permits == st.permits &&
               s.events[..|w.replies| + 1] == ProgressEvents(|w.replies|) + [Progress(|lines| + 1)]) &&
            (s.raised == Some(UnboundLocalError("lineNumber")) <==> |w.replies| == 0 && w.raised.None?)
  {
    var w := SeriesSweep(link, st.(permits := st.permits - 1), lines, cancelled, []);
    SweepStops(link, st.(permits := st.permits - 1), lines, cancelled, []);
    if w.raised.None? && |w.replies| > 0 {
      var p := ProgressEvents(|w.replies|) + [Progress(|lines| + 1)];
      assert (p + [Done(Failures(lines, w.replies), lines[|w.replies| - 1].0)])[..|w.replies| + 1] == p;
    }
  }

  /** A series that is not cancelled and meets no exception sends every line, in order, and ends with the last line number. */
  lemma SendSeriesAll(link: Link, st: State, lines: seq<(int, string)>)
    requires st.permits > 0 && |lines| > 0
    ensures var s := SendSeries(link, st, lines, k => false);
            var w := SeriesSweep(link, st.(permits := st.permits - 1), lines, k => false, []);
            s.raised.None? ==>
              w.replies != [] && |w.replies| == |lines| && |s.events| == |lines| + 2 &&
              s.events[|lines| + 1] == Done(Failures(lines, w.replies), lines[|lines| - 1].0)
  {
    SweepStops(link, st.(permits := st.permits - 1), lines, k => false, []);
  }

  // ---------------------------------------------------------------- connecting

  /** How a socket connect() attempt ends: connected, an unknown host, or any other refusal. */
  datatype Reach = Reached | UnknownHost | Refused

  /** Whether connect gets as far as the "ver" handshake, which waits on the semaphore. */
  predicate Handshakes(st: State, reach: Reach)
  {
    !st.isOpen && st.hostname != "" && st.port.Some? && st.port.value != 0 && reach == Reached
  }

  /** disconnect: an open connection is closed (taking and giving back the semaphore); a closed one is left alone. */
  function Disconnect(st: State): (r: State)
    requires st.isOpen ==> st.permits > 0
    ensures !r.isOpen && r.(isOpen := st.isOpen) == st
  {
    if st.isOpen then st.(isOpen := false) else st
  }

  /** Whether connect gets past its checks and creates the socket, whatever connect() then does. */
  predicate CreatesSocket(st: State)
  {
    !st.isOpen && st.hostname != "" && st.port.Some? && st.port.value != 0
  }

  /**
   * The Ethernet connect: refuse when already open or when the host or port is not set,
   * create the socket, report a failed connect, then check that the device answers "ver"
   * like a PMAC and close the connection again if it does not. None is success.
   */
  function EthernetConnect(eth: (nat, string) -> EthReply, st: State, reach: Reach): (o: Out<Option<string>>)
    requires Handshakes(st, reach) ==> st.permits > 0
    ensures o.st.(isOpen := st.isOpen, hasSocket := st.hasSocket, sent := st.sent) == st && st.sent <= o.st.sent
    ensures o.st.hasSocket <==> st.hasSocket || CreatesSocket(st)
  {
    if st.isOpen then Out(st, Ok(Some("Socket is already open")))
    else if st.hostname == "" || st.port.None? || st.port.value == 0 then
      Out(st, Ok(Some("ERROR: hostname or port number not set")))
    else
      var created := st.(hasSocket := true);
      if reach == UnknownHost then Out(created, Ok(Some("ERROR: unknown host")))
      else if reach == Refused then Out(created, Ok(Some("ERROR: connection refused by host")))
      else VerChecked(Exchange(Ethernet(eth), created.(isOpen := true), "ver", true))
  }

  /**
   * The end of connect, after the "ver" exchange on the opened socket: a firmware version
   * completes the connection; no answer or a wrong one closes it again with a message.
   */
  function VerChecked(x: Out<string>): (o: Out<Option<string>>)
    requires x.st.isOpen ==> x.st.permits > 0
    ensures o.st.(isOpen := x.st.isOpen) == x.st
    ensures o.res == Ok(None) <==> x.res.Ok? && IsVersionReply(x.res.value)
    ensures x.st.isOpen && o.res.Ok? ==> (o.st.isOpen <==> o.res.value.None?)
  {
    match x.res
    case Raised(IOError(_)) => Out(Disconnect(x.st), Ok(Some("Device failed to respond to a \"ver\" command")))
    case Raised(e) => Out(x.st, Raised(e))
    case Ok(response) =>
      if IsVersionReply(response) then Out(x.st, Ok(None))
      else Out(Disconnect(x.st), Ok(Some("Device did not respond correctly to a \"ver\" command")))
  }

  /**
   * connect ends with the connection open exactly when it succeeds (or it was open already),
   * and it succeeds exactly when the reply to "ver" is a firmware version.
   */
  lemma EthernetConnectOpen(eth: (nat, string) -> EthReply, st: State, reach: Reach)
    requires Handshakes(st, reach) ==> st.permits > 0
    ensures var o := EthernetConnect(eth, st, reach);
            o.res.Ok? &&
            (st.isOpen ==> o == Out(st, Ok(Some("Socket is already open")))) &&
            (!st.isOpen ==> (o.st.isOpen <==> o.res.value.None?)) &&
            (o.res.value.None? <==>
               Handshakes(st, reach) &&
               var x := Exchange(Ethernet(eth), st.(isOpen := true, hasSocket := true), "ver", true);
               x.res.Ok? && IsVersionReply(x.res.value))
  {
    if Handshakes(st, reach) {
      ExchangeErrors(Ethernet(eth), st.(isOpen := true, hasSocket := true), "ver", true);
    }
  }

  /** A device answering "ver" with "<major>.<minor>" in one recv completes the connection. */
  lemma EthernetConnectVersion(eth: (nat, string) -> EthReply, st: State, major: nat, minor: nat)
    requires Handshakes(st, Reached) && st.permits > 0
    requires |DecDigits(major)| + |DecDigits(minor)| + 3 <= RecvLimit
    requires eth(|st.sent|, AddHeader("ver").value) == Recv(DecDigits(major) + "." + DecDigits(minor) + "\r" + [ACK])
    ensures EthernetConnect(eth, st, Reached).res == Ok(None)
    ensures EthernetConnect(eth, st, Reached).st.isOpen
  {
    var reply := DecDigits(major) + "." + DecDigits(minor) + "\r" + [ACK];
    VersionReplyAccepted(major, minor);
    var connected := st.(isOpen := true, hasSocket := true);
    EthernetReceives(eth, connected, "ver", reply);
    assert EthernetConnect(eth, st, Reached) == VerChecked(Exchange(Ethernet(eth), connected, "ver", true));
  }

  /** An Ethernet exchange whose answer fits one recv returns it whole. */
  lemma EthernetReceives(eth: (nat, string) -> EthReply, st: State, command: string, data: string)
    requires st.permits > 0 && st.hasSocket && |command| < 256 && |data| <= RecvLimit
    requires eth(|st.sent|, AddHeader(command).value) == Recv(data)
    ensures Exchange(Ethernet(eth), st, command, true) == Out(st.(sent := st.sent + [AddHeader(command).value]), Ok(data))
  {
  }
}
