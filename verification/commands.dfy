/**
 * The text of the commands the library sends to a PMAC and how it reads the replies:
 * I-variable queries, MACRO station I-variable queries, the controller's identity and
 * firmware version, error codes, the limit flags of a motor, and the jog and home commands.
 */
module Commands {
  import opened Py

  // ---------------------------------------------------------------- I-variable queries

  /** The query of one I-variable, "i<v> ". */
  function IVarQuery(v: int): string
  {
    "i" + Dec(v) + " "
  }

  /** The query getIVars builds: one "i<v> " per variable, in order. */
  function IVarsCommand(vars: seq<int>): (r: string)
    ensures r == "" <==> |vars| == 0
  {
    if |vars| == 0 then "" else IVarQuery(vars[0]) + IVarsCommand(vars[1..])
  }

  /** The query of one MACRO station I-variable, "ms<station>,i<v> ". */
  function MsIVarQuery(station: int, v: int): string
  {
    "ms" + Dec(station) + ",i" + Dec(v) + " "
  }

  /** The query getAxisMsIVars builds: one "ms<station>,i<v> " per variable, in order. */
  function MsIVarsCommand(station: int, vars: seq<int>): (r: string)
    ensures r == "" <==> |vars| == 0
  {
    if |vars| == 0 then "" else MsIVarQuery(station, vars[0]) + MsIVarsCommand(station, vars[1..])
  }

  /** The loop of getIVars that builds its query one variable at a time. */
  method BuildIVarsCommand(vars: seq<int>) returns (cmd: string)
    ensures cmd == IVarsCommand(vars)
  {
    cmd := "";
    var i := 0;
    while i < |vars|
      invariant 0 <= i <= |vars|
      invariant cmd + IVarsCommand(vars[i..]) == IVarsCommand(vars)
    {
      assert vars[i..][1..] == vars[i + 1..];
      ConcatAssoc(cmd, IVarQuery(vars[i]), IVarsCommand(vars[i + 1..]));
      cmd := cmd + IVarQuery(vars[i]);
      i := i + 1;
    }
    assert vars[i..] == [];
  }

  /** The loop of getAxisMsIVars that builds its query one variable at a time. */
  method BuildMsIVarsCommand(station: int, vars: seq<int>) returns (cmd: string)
    ensures cmd == MsIVarsCommand(station, vars)
  {
    cmd := "";
    var i := 0;
    while i < |vars|
      invariant 0 <= i <= |vars|
      invariant cmd + MsIVarsCommand(station, vars[i..]) == MsIVarsCommand(station, vars)
    {
      assert vars[i..][1..] == vars[i + 1..];
      ConcatAssoc(cmd, MsIVarQuery(station, vars[i]), MsIVarsCommand(station, vars[i + 1..]));
      cmd := cmd + MsIVarQuery(station, vars[i]);
      i := i + 1;
    }
    assert vars[i..] == [];
  }

  /** How the controller reads a query word "i<n>": the I-variable n. */
  function QueriedIVar(word: string): Option<int>
  {
    if |word| > 1 && word[0] == 'i' then ParseDec(word[1..]) else None
  }

  /** How the controller reads a query word "ms<s>,i<n>": station s, I-variable n. */
  function QueriedMsIVar(word: string): Option<(int, int)>
  {
    if |word| > 2 && word[..2] == "ms" then
      match FirstIndex(word, ',')
      case None => None
      case Some(k) =>
        if k < 2 then None
        else match (ParseDec(word[2..k]), QueriedIVar(word[k + 1..]))
          case (Some(s), Some(n)) => Some((s, n))
          case _ => None
    else None
  }

  /** The query words "i<v>" of getIVars, in order. */
  function IVarNames(vars: seq<int>): seq<string>
  {
    if |vars| == 0 then [] else ["i" + Dec(vars[0])] + IVarNames(vars[1..])
  }

  /** The query words "ms<s>,i<v>" of getAxisMsIVars, in order. */
  function MsIVarNames(station: int, vars: seq<int>): seq<string>
  {
    if |vars| == 0 then [] else ["ms" + Dec(station) + ",i" + Dec(vars[0])] + MsIVarNames(station, vars[1..])
  }

  /** "i<v>" is one word. */
  lemma IVarWord(v: int)
    ensures |"i" + Dec(v)| > 0 && NoneIn("i" + Dec(v), Whitespace)
  {
    DecNoneIn(v, Whitespace);
    NoneInConcat("i", Dec(v), Whitespace);
  }

  /** The controller reads the variable v out of "i<v>". */
  lemma IVarWordRead(v: int)
    ensures QueriedIVar("i" + Dec(v)) == Some(v)
  {
    DropPrefix("i", Dec(v));
    DecRoundTrip(v);
  }

  /** Split on blanks, a getIVars query gives its query words. */
  lemma {:induction false} IVarsCommandWords(vars: seq<int>)
    ensures Words(IVarsCommand(vars)) == IVarNames(vars)
    decreases |vars|
  {
    if |vars| > 0 {
      IVarsCommandWords(vars[1..]);
      IVarWord(vars[0]);
      WordsCons("i" + Dec(vars[0]), IVarsCommand(vars[1..]));
    }
  }

  lemma {:induction false} IVarNamesAre(vars: seq<int>)
    ensures |IVarNames(vars)| == |vars|
    ensures forall k :: 0 <= k < |vars| ==> IVarNames(vars)[k] == "i" + Dec(vars[k])
    decreases |vars|
  {
    if |vars| > 0 {
      IVarNamesAre(vars[1..]);
      assert IVarNames(vars) == ["i" + Dec(vars[0])] + IVarNames(vars[1..]);
      forall k | 1 <= k < |vars|
        ensures IVarNames(vars)[k] == "i" + Dec(vars[k])
      {
        assert vars[1..][k - 1] == vars[k];
      }
    }
  }

  /** The controller reads the variables, in order, out of a getIVars query. */
  lemma IVarsCommandQueries(vars: seq<int>)
    ensures var ws := Words(IVarsCommand(vars));
            |ws| == |vars| && forall k :: 0 <= k < |vars| ==> QueriedIVar(ws[k]) == Some(vars[k])
  {
    IVarsCommandWords(vars);
    IVarNamesAre(vars);
    forall k | 0 <= k < |vars|
      ensures QueriedIVar(IVarNames(vars)[k]) == Some(vars[k])
    {
      IVarWordRead(vars[k]);
    }
  }

  /** "ms<s>,i<v>" is one word. */
  lemma MsIVarWord(station: int, v: int)
    ensures var w := "ms" + Dec(station) + ",i" + Dec(v);
            |w| > 0 && NoneIn(w, Whitespace)
  {
    DecNoneIn(station, Whitespace);
    DecNoneIn(v, Whitespace);
    NoneInConcat("ms", Dec(station), Whitespace);
    NoneInConcat("ms" + Dec(station), ",i", Whitespace);
    NoneInConcat("ms" + Dec(station) + ",i", Dec(v), Whitespace);
  }

  /** Where the parts of "ms<ds>,i<dv>" sit, when ds holds no comma. */
  lemma MsWordLayout(ds: string, dv: string)
    requires ',' !in ds
    ensures var w := "ms" + ds + ",i" + dv;
            var k := 2 + |ds|;
            |w| == k + 2 + |dv| && w[..2] == "ms" && w[k] == ',' && ',' !in w[..k] &&
            w[2..k] == ds && w[k + 1..] == "i" + dv
  {
    var w := "ms" + ds + ",i" + dv;
    var k := 2 + |ds|;
    assert w[..k] == "ms" + ds;
    assert w[k + 1..] == "i" + dv;
  }

  /** The controller reads station s and variable v out of "ms<s>,i<v>". */
  lemma MsIVarWordRead(station: int, v: int)
    ensures QueriedMsIVar("ms" + Dec(station) + ",i" + Dec(v)) == Some((station, v))
  {
    var ds := Dec(station);
    DecNoneIn(station, {','});
    assert ',' !in ds;
    MsWordLayout(ds, Dec(v));
    FirstIndexAt("ms" + ds + ",i" + Dec(v), 2 + |ds|, ',');
    IVarWordRead(v);
    DecRoundTrip(station);
  }

  /** Split on blanks, a getAxisMsIVars query gives its query words. */
  lemma {:induction false} MsIVarsCommandWords(station: int, vars: seq<int>)
    ensures Words(MsIVarsCommand(station, vars)) == MsIVarNames(station, vars)
    decreases |vars|
  {
    if |vars| > 0 {
      MsIVarsCommandWords(station, vars[1..]);
      MsIVarWord(station, vars[0]);
      WordsCons("ms" + Dec(station) + ",i" + Dec(vars[0]), MsIVarsCommand(station, vars[1..]));
    }
  }

  lemma {:induction false} MsIVarNamesAre(station: int, vars: seq<int>)
    ensures |MsIVarNames(station, vars)| == |vars|
    ensures forall k :: 0 <= k < |vars| ==> MsIVarNames(station, vars)[k] == "ms" + Dec(station) + ",i" + Dec(vars[k])
    decreases |vars|
  {
    if |vars| > 0 {
      MsIVarNamesAre(station, vars[1..]);
      var rest := MsIVarNames(station, vars[1..]);
      assert MsIVarNames(station, vars) == ["ms" + Dec(station) + ",i" + Dec(vars[0])] + rest;
      forall k | 1 <= k < |vars|
        ensures MsIVarNames(station, vars)[k] == "ms" + Dec(station) + ",i" + Dec(vars[k])
      {
        assert vars[1..][k - 1] == vars[k];
      }
    }
  }

  /** The controller reads the station and each variable, in order, out of a getAxisMsIVars query. */
  lemma MsIVarsCommandQueries(station: int, vars: seq<int>)
    ensures var ws := Words(MsIVarsCommand(station, vars));
            |ws| == |vars| &&
            forall k :: 0 <= k < |vars| ==> QueriedMsIVar(ws[k]) == Some((station, vars[k]))
  {
    MsIVarsCommandWords(station, vars);
    MsIVarNamesAre(station, vars);
    forall k | 0 <= k < |vars|
      ensures QueriedMsIVar(MsIVarNames(station, vars)[k]) == Some((station, vars[k]))
    {
      MsIVarWordRead(station, vars[k]);
    }
  }

  // ---------------------------------------------------------------- replies

  /** retStr.split('\r')[:-1]: the values of a reply, one per CR, without what follows the last CR. */
  function ReplyValues(reply: string): (r: seq<string>)
    ensures forall k :: 0 <= k < |r| ==> '\r' !in r[k]
  {
    var parts := Split(reply, '\r');
    parts[..|parts| - 1]
  }

  /** A reply carrying one CR-terminated value per query gives back exactly those values. */
  lemma ReplyValuesOfAnswer(values: seq<string>, tail: string)
    requires forall k :: 0 <= k < |values| ==> '\r' !in values[k]
    requires '\r' !in tail
    ensures ReplyValues(Join(values + [tail], '\r')) == values
  {
    var all := values + [tail];
    assert forall k :: 0 <= k < |all| ==> '\r' !in all[k];
    JoinSplit(all, '\r');
    assert all[..|all| - 1] == values;
  }

  /** "ERR" and three digits starting at index i. */
  predicate ErrCodeAt(s: string, i: int)
  {
    0 <= i && i + 6 <= |s| && s[i..i + 3] == "ERR" && AllDigits(s[i + 3..i + 6])
  }

  /** Whether a reply holds an error code ERRnnn anywhere. */
  predicate HasErrCode(s: string)
  {
    exists i :: 0 <= i <= |s| - 6 && ErrCodeAt(s, i)
  }

  /** The model code of a reply to "cid", "<digits>\r\x06" (a final newline is allowed by the match). */
  function CidCode(reply: string): Option<nat>
  {
    var t := if |reply| > 0 && reply[|reply| - 1] == '\n' then reply[..|reply| - 1] else reply;
    if |t| >= 3 && t[|t| - 2] == '\r' && t[|t| - 1] == ACK && AllDigits(t[..|t| - 2])
    then Some(DigitsValue(t[..|t| - 2]))
    else None
  }

  /** A controller answering "cid" with its model code has that code read back. */
  lemma CidCodeOfAnswer(code: nat)
    ensures CidCode(DecDigits(code) + "\r" + [ACK]) == Some(code)
    ensures CidCode(DecDigits(code) + "\r" + [ACK] + "\n") == Some(code)
  {
    var d := DecDigits(code);
    var t := d + "\r" + [ACK];
    assert t[..|t| - 2] == d;
    assert (t + "\n")[..|t|] == t;
    DecDigitsValue(code);
  }

  /** A reply with a model code is digits, CR and ACK, possibly then a newline; nothing else has one. */
  lemma CidCodeRejects(reply: string)
    requires CidCode(reply).Some?
    ensures |reply| >= 3 && IsDigit(reply[0])
    ensures reply[|reply| - 1] == ACK || reply[|reply| - 1] == '\n'
    ensures exists d :: |d| > 0 && AllDigits(d) && CidCode(reply) == Some(DigitsValue(d)) &&
                        (reply == d + "\r" + [ACK] || reply == d + "\r" + [ACK] + "\n")
  {
    var t := if reply[|reply| - 1] == '\n' then reply[..|reply| - 1] else reply;
    var d := t[..|t| - 2];
    assert t == d + "\r" + [ACK];
    assert reply == t || reply == t + "\n";
  }

  const TurboPmac2Vme: string := "Turbo PMAC2-VME"
  const GeoBrick: string := "Geo Brick (3U Turbo PMAC2)"

  /** The models the library knows, by model code. */
  function ModelName(code: nat): (r: Option<string>)
    ensures r.Some? <==> code == 602413 || code == 603382
    ensures r == Some(GeoBrick) <==> code == 603382
  {
    if code == 602413 then Some(TurboPmac2Vme)
    else if code == 603382 then Some(GeoBrick)
    else None
  }

  /** "<digits>.<digits>", as in a firmware version. */
  predicate IsDottedDecimal(n: string)
  {
    match FirstIndex(n, '.')
    case None => false
    case Some(k) => 0 < k && AllDigits(n[..k]) && k + 1 < |n| && AllDigits(n[k + 1..])
  }

  predicate IsVersionBody(t: string)
  {
    |t| >= 2 && t[|t| - 1] == ACK && t[|t| - 2] == '\r' &&
    var body := t[..|t| - 1];
    var n := TakeWord(body);
    IsDottedDecimal(n) && AllSpace(body[|n|..])
  }

  /** A reply to "ver" of the form "<digits>.<digits>", blanks, CR, ACK (and possibly a final newline). */
  predicate IsVersionReply(reply: string)
  {
    IsVersionBody(reply) || (|reply| > 0 && reply[|reply| - 1] == '\n' && IsVersionBody(reply[..|reply| - 1]))
  }

  /** "<major>.<minor>" holds no blank. */
  lemma VersionNoBlank(major: nat, minor: nat)
    ensures NoneIn(DecDigits(major) + "." + DecDigits(minor), Whitespace)
  {
    DecChars(major);
    DecChars(minor);
    DecNoneIn(major, Whitespace);
    DecNoneIn(minor, Whitespace);
    NoneInConcat(DecDigits(major), ".", Whitespace);
    NoneInConcat(DecDigits(major) + ".", DecDigits(minor), Whitespace);
  }

  /** "<major>.<minor>" is a dotted decimal. */
  lemma VersionDotted(major: nat, minor: nat)
    ensures IsDottedDecimal(DecDigits(major) + "." + DecDigits(minor))
  {
    var a, b := DecDigits(major), DecDigits(minor);
    DecChars(major);
    DecNoneIn(major, {'.'});
    assert '.' !in a;
    FirstIndexConcat(a, "." + b, '.');
    var n := a + "." + b;
    assert n == a + ("." + b);
    assert FirstIndex(n, '.') == Some(|a|);
    DropPrefix(a, "." + b);
    DropPrefix(a + ".", b);
    DecDigitsChars(major);
    DecDigitsChars(minor);
  }

  /** A dotted decimal followed by CR and ACK is a version reply. */
  lemma VersionBodyOf(n: string)
    requires IsDottedDecimal(n) && NoneIn(n, Whitespace)
    ensures IsVersionBody(n + "\r" + [ACK])
  {
    var t := n + "\r" + [ACK];
    assert t[..|t| - 1] == n + "\r";
    TakeWordOfWord(n, "\r");
    DropPrefix(n, "\r");
  }

  /** A controller's firmware version "<major>.<minor>\r\x06" is accepted. */
  lemma VersionReplyAccepted(major: nat, minor: nat)
    ensures IsVersionReply(DecDigits(major) + "." + DecDigits(minor) + "\r" + [ACK])
  {
    VersionNoBlank(major, minor);
    VersionDotted(major, minor);
    VersionBodyOf(DecDigits(major) + "." + DecDigits(minor));
  }

  // ---------------------------------------------------------------- limits

  /** The flag of Ixx24 that disables the hardware limits of a motor: 0x20000. */
  const LimitsBit: nat := 17

  lemma LimitsBitValue()
    ensures Pow2(LimitsBit) == 0x20000
  {
    assert Pow2(1) == 2;
    assert Pow2(2) == 4;
    assert Pow2(3) == 8;
    assert Pow2(4) == 16;
    assert Pow2(5) == 32;
    assert Pow2(6) == 64;
    assert Pow2(7) == 128;
    assert Pow2(8) == 256;
    assert Pow2(9) == 512;
    assert Pow2(10) == 1024;
    assert Pow2(11) == 2048;
    assert Pow2(12) == 4096;
    assert Pow2(13) == 8192;
    assert Pow2(14) == 16384;
    assert Pow2(15) == 32768;
    assert Pow2(16) == 65536;
  }

  /** The query of a motor's flag control word, "i<motor>24". */
  function LimitsQuery(motor: int): string
  {
    "i" + Dec(motor) + "24"
  }

  /** The flag word read out of the reply: int(reply.strip('$\r\x06'), 16); None where int() raises. */
  function LimitsReadBack(reply: string): Option<int>
  {
    ParseHexLiteral(Strip(reply, {'$', '\r', ACK}))
  }

  /**
   * The flag word to write: the limits bit set (with |) to disable limits that are enabled,
   * flipped (with ^) to enable limits that are disabled; None when they already are as asked.
   */
  function NewLimits(initial: int, disable: bool): Option<int>
  {
    var enabled := !Bit(initial, LimitsBit);
    if enabled && disable then Some(SetBit(initial, LimitsBit))
    else if !enabled && !disable then Some(FlipBit(initial, LimitsBit))
    else None
  }

  /** Only the limits flag changes, and it ends up as asked; nothing is written when it already is. */
  lemma NewLimitsBits(initial: int, disable: bool)
    ensures NewLimits(initial, disable).None? <==> Bit(initial, LimitsBit) == disable
    ensures NewLimits(initial, disable).Some? ==>
              Bit(NewLimits(initial, disable).value, LimitsBit) == disable &&
              forall j: nat :: j != LimitsBit ==> Bit(NewLimits(initial, disable).value, j) == Bit(initial, j)
  {
    if NewLimits(initial, disable).Some? {
      forall j: nat
        ensures Bit(NewLimits(initial, disable).value, j) == if j == LimitsBit then disable else Bit(initial, j)
      {
        FlipBitBits(initial, LimitsBit, j);
        SetBitBits(initial, LimitsBit, j);
      }
    }
  }

  /** The command that writes the flag word: "i<motor>24=$<hex>". */
  function LimitsWrite(motor: int, value: int): string
  {
    LimitsQuery(motor) + "=" + DollarHex(value)
  }

  /** A flag word written with "$<hex>" and echoed as "$<hex>\r\x06" reads back as the same value. */
  lemma LimitsReadBackOfWritten(value: nat)
    ensures LimitsReadBack(DollarHex(value) + "\r" + [ACK]) == Some(value)
  {
    var d := HexDigits(value, false);
    HexDigitsChars(value, false);
    var cs := {'$', '\r', ACK};
    assert DollarHex(value) + "\r" + [ACK] == "$" + d + ("\r" + [ACK]);
    assert d[0] !in cs && d[|d| - 1] !in cs;
    StripExact("$", d, "\r" + [ACK], cs);
    HexLiteralOfDigits(d);
    HexDigitsRoundTrip(value, false);
  }

  // ---------------------------------------------------------------- motion

  /** What a motion command asks of a motor. */
  datatype Motion = Incremental(distance: int) | Stop | Absolute(position: int) | Continuous(positive: bool) | Homing

  function MotorPrefix(motor: int): string
  {
    "#" + Dec(motor)
  }

  /** jogInc: "#<motor>J^-<distance>" or "#<motor>J^<distance>"; None for a direction other than "neg" or "pos". */
  function JogIncCommand(motor: int, direction: string, distance: int): Option<string>
  {
    if direction == "neg" then Some(MotorPrefix(motor) + "J^-" + Dec(distance))
    else if direction == "pos" then Some(MotorPrefix(motor) + "J^" + Dec(distance))
    else None
  }

  function JogStopCommand(motor: int): string
  {
    MotorPrefix(motor) + "J/"
  }

  function JogToCommand(motor: int, position: int): string
  {
    MotorPrefix(motor) + "J=" + Dec(position)
  }

  /** jogContinous: "#<motor>J-" or "#<motor>J+"; None for a direction other than "neg" or "pos". */
  function JogContinuousCommand(motor: int, direction: string): Option<string>
  {
    if direction == "neg" then Some(MotorPrefix(motor) + "J-")
    else if direction == "pos" then Some(MotorPrefix(motor) + "J+")
    else None
  }

  function HomeCommand(motor: int): string
  {
    MotorPrefix(motor) + "HM"
  }

  /** What the controller does on a motion command once the motor number has been read off. */
  function MotionOf(rest: string): (r: Option<Motion>)
  {
    if rest == "J/" then Some(Stop)
    else if rest == "J-" then Some(Continuous(false))
    else if rest == "J+" then Some(Continuous(true))
    else if rest == "HM" then Some(Homing)
    else if |rest| >= 2 && rest[..2] == "J^" && ParseDec(rest[2..]).Some? then Some(Incremental(ParseDec(rest[2..]).value))
    else if |rest| >= 2 && rest[..2] == "J=" && ParseDec(rest[2..]).Some? then Some(Absolute(ParseDec(rest[2..]).value))
    else None
  }

  /** How the controller reads a motion command: "#", a motor number, then what to do. */
  function ReadMotion(command: string): Option<(nat, Motion)>
  {
    if |command| < 2 || command[0] != '#' then None
    else
      var digits := TakeDigits(command[1..]);
      if |digits| == 0 then None
      else
        match MotionOf(command[1 + |digits|..])
        case None => None
        case Some(m) => Some((DigitsValue(digits), m))
  }

  /** The controller reads the motor number back from every motion command, whatever follows it. */
  lemma ReadMotor(motor: nat, rest: string)
    requires |rest| > 0 && !IsDigit(rest[0])
    ensures ReadMotion(MotorPrefix(motor) + rest) ==
            match MotionOf(rest) case None => None case Some(m) => Some((motor, m))
  {
    var d := DecDigits(motor);
    DecChars(motor);
    DecDigitsValue(motor);
    var c := MotorPrefix(motor) + rest;
    assert c[1..] == d + rest;
    TakeDigitsOf(d, rest);
    assert c[1 + |d|..] == rest;
  }

  lemma ReadMotorMotion(motor: nat, rest: string, m: Motion)
    requires |rest| > 0 && !IsDigit(rest[0]) && MotionOf(rest) == Some(m)
    ensures ReadMotion(MotorPrefix(motor) + rest) == Some((motor, m))
  {
    ReadMotor(motor, rest);
  }

  /** "J^" or "J=" and a number the controller reads is a jog by, or to, that number. */
  lemma MotionOfNumber(num: string, n: int)
    requires ParseDec(num) == Some(n)
    ensures MotionOf("J^" + num) == Some(Incremental(n))
    ensures MotionOf("J=" + num) == Some(Absolute(n))
  {
    assert |num| > 0;
    DropPrefix("J^", num);
    DropPrefix("J=", num);
  }

  lemma JogByRead(motor: nat, distance: int)
    ensures ReadMotion(JogIncCommand(motor, "pos", distance).value) == Some((motor, Incremental(distance)))
  {
    DecRoundTrip(distance);
    MotionOfNumber(Dec(distance), distance);
    ConcatAssoc(MotorPrefix(motor), "J^", Dec(distance));
    ReadMotorMotion(motor, "J^" + Dec(distance), Incremental(distance));
  }

  /** "-" and the digits of a distance read back as minus the distance (also for 0, from "-0"). */
  lemma NegatedRead(distance: nat)
    ensures ParseDec("-" + Dec(distance)) == Some(-(distance as int))
  {
    DecChars(distance);
    DecDigitsValue(distance);
    assert ("-" + Dec(distance))[1..] == DecDigits(distance);
  }

  lemma JogBackText(motor: nat, distance: nat)
    ensures JogIncCommand(motor, "neg", distance).value == MotorPrefix(motor) + ("J^" + ("-" + Dec(distance)))
  {
    var d := Dec(distance);
    assert "J^-" + d == "J^" + ("-" + d);
    ConcatAssoc(MotorPrefix(motor), "J^-", d);
  }

  lemma JogBackRead(motor: nat, distance: nat)
    ensures ReadMotion(JogIncCommand(motor, "neg", distance).value) == Some((motor, Incremental(-(distance as int))))
  {
    var num := "-" + Dec(distance);
    NegatedRead(distance);
    MotionOfNumber(num, -(distance as int));
    JogBackText(motor, distance);
    ReadMotorMotion(motor, "J^" + num, Incremental(-(distance as int)));
  }

  lemma JogToRead(motor: nat, position: int)
    ensures ReadMotion(JogToCommand(motor, position)) == Some((motor, Absolute(position)))
  {
    DecRoundTrip(position);
    MotionOfNumber(Dec(position), position);
    ConcatAssoc(MotorPrefix(motor), "J=", Dec(position));
    ReadMotorMotion(motor, "J=" + Dec(position), Absolute(position));
  }

  /** Every motion command the library builds asks the controller for exactly that motion of that motor. */
  lemma MotionCommandsRead(motor: nat, distance: nat, signed: int, position: int)
    ensures ReadMotion(JogIncCommand(motor, "neg", distance).value) == Some((motor, Incremental(-(distance as int))))
    ensures ReadMotion(JogIncCommand(motor, "pos", signed).value) == Some((motor, Incremental(signed)))
    ensures ReadMotion(JogStopCommand(motor)) == Some((motor, Stop))
    ensures ReadMotion(JogToCommand(motor, position)) == Some((motor, Absolute(position)))
    ensures ReadMotion(JogContinuousCommand(motor, "neg").value) == Some((motor, Continuous(false)))
    ensures ReadMotion(JogContinuousCommand(motor, "pos").value) == Some((motor, Continuous(true)))
    ensures ReadMotion(HomeCommand(motor)) == Some((motor, Homing))
  {
    JogBackRead(motor, distance);
    JogByRead(motor, signed);
    JogToRead(motor, position);
    FixedMotionsRead(motor);
  }

  lemma FixedMotionsRead(motor: nat)
    ensures ReadMotion(JogStopCommand(motor)) == Some((motor, Stop))
    ensures ReadMotion(JogContinuousCommand(motor, "neg").value) == Some((motor, Continuous(false)))
    ensures ReadMotion(JogContinuousCommand(motor, "pos").value) == Some((motor, Continuous(true)))
    ensures ReadMotion(HomeCommand(motor)) == Some((motor, Homing))
  {
    ReadMotorMotion(motor, "J/", Stop);
    ReadMotorMotion(motor, "J-", Continuous(false));
    ReadMotorMotion(motor, "J+", Continuous(true));
    ReadMotorMotion(motor, "HM", Homing);
  }
}
