/**
 * The two wires a PMAC is reached through.
 *
 * Ethernet: every command travels in one packet behind the eight-byte VR_PMAC_GETRESPONSE
 * header of the Accessory 54E protocol, and the reply is the data of one recv(2048).
 *
 * Telnet (a terminal server session): the command is written with "\r\n" appended, and the
 * reply is whatever arrives until one of five patterns matches the text read so far, the way
 * telnetlib's expect() works: on every look, the first pattern in list order that matches
 * anywhere in the buffered text wins, the text up to the end of its match is the reply, and
 * the rest stays buffered for the next command.
 */
module Transport {
  import opened Py

  /** What one Ethernet exchange brings back: the data of the recv, or a socket error. */
  datatype EthReply = Recv(data: string) | EthSocketError

  /**
   * What the terminal server delivers after one Telnet write: text in pieces, then either
   * the three-second timeout (eof false) or the end of the connection (eof true); or a
   * socket error with its description.
   */
  datatype TelnetReply = Chunks(parts: seq<string>, eof: bool) | TelnetSocketError(detail: string)

  // ---------------------------------------------------------------- Ethernet

  /** The first seven bytes of the header: request type 0x40, VR_PMAC_GETRESPONSE 0xBF, then zeros. */
  const HeaderPrefix: string := ['\U{40}', '\U{bf}', '\U{0}', '\U{0}', '\U{0}', '\U{0}', '\U{0}']

  /** The most a single recv takes from the socket. */
  const RecvLimit: nat := 2048

  /**
   * The packet for a command: the header, whose last byte is the command's length, then the
   * command. None where struct.pack raises struct.error, a length that does not fit a byte.
   */
  function AddHeader(command: string): (r: Option<string>)
    ensures r.Some? <==> |command| < 256
    ensures r.Some? ==> |r.value| == |command| + 8
  {
    if |command| < 256 then Some(HeaderPrefix + [|command| as char] + command) else None
  }

  /** How the controller reads a packet: a well-formed header, then exactly the announced number of bytes. */
  function ReadPacket(packet: string): Option<string>
  {
    if |packet| >= 8 && packet[..7] == HeaderPrefix && packet[7] as int < 256 && packet[7] as int == |packet| - 8
    then Some(packet[8..])
    else None
  }

  /** The controller reads back exactly the command of every packet the library builds, and nothing else. */
  lemma PacketRoundTrip(command: string, packet: string)
    ensures AddHeader(command) == Some(packet) <==> ReadPacket(packet) == Some(command)
  {
    if AddHeader(command) == Some(packet) {
      assert packet[..7] == HeaderPrefix && packet[8..] == command;
    }
    if ReadPacket(packet) == Some(command) {
      assert (|command| as char) == packet[7];
      assert packet == packet[..7] + [packet[7]] + packet[8..];
    }
  }

  /** The data one recv(2048) returns out of what the controller sent. */
  function Received(data: string): (r: string)
    ensures |r| <= RecvLimit && |r| <= |data| && r == data[..|r|]
    ensures |data| <= RecvLimit ==> r == data
  {
    if |data| <= RecvLimit then data else data[..RecvLimit]
  }

  // ---------------------------------------------------------------- Telnet reply patterns

  /** Pattern 0, an error report: BEL, "ERR", three digits and CR starting at index i. */
  predicate ErrorAt(s: string, i: nat)
  {
    i + 8 <= |s| && s[i] == BEL && s[i + 1..i + 4] == "ERR" && AllDigits(s[i + 4..i + 7]) && s[i + 7] == '\r'
  }

  /** The leftmost error report at or after index i. */
  function FirstErrorFrom(s: string, i: nat): (r: Option<nat>)
    ensures r.Some? ==> i <= r.value && ErrorAt(s, r.value)
    ensures r.Some? ==> forall j :: i <= j < r.value ==> !ErrorAt(s, j)
    ensures r.None? ==> forall j :: i <= j ==> !ErrorAt(s, j)
    decreases |s| - i
  {
    if i + 8 > |s| then None
    else if ErrorAt(s, i) then Some(i)
    else FirstErrorFrom(s, i + 1)
  }

  /** -?(\d*\.)?\d+ : a decimal number with an optional sign and an optional fraction. */
  predicate IsNumber(s: string)
  {
    var t := if |s| > 0 && s[0] == '-' then s[1..] else s;
    match FirstIndex(t, '.')
    case None => |t| > 0 && AllDigits(t)
    case Some(k) => AllDigits(t[..k]) && k + 1 < |t| && AllDigits(t[k + 1..])
  }

  predicate AllUpperAlnum(s: string) { forall i :: 0 <= i < |s| ==> IsUpperAlnum(s[i]) }

  /** Pattern 1, ^\$[A-Z0-9]+\r\x06 : one hexadecimal value. */
  predicate IsHexReply(p: string)
  {
    |p| >= 4 && p[0] == '$' && p[|p| - 2] == '\r' && p[|p| - 1] == ACK && AllUpperAlnum(p[1..|p| - 2])
  }

  /** Pattern 2, ^-?(\d*\.)?\d+\s*\r\x06 : one decimal value, possibly followed by blanks. */
  predicate IsDecimalReply(p: string)
  {
    |p| >= 2 && p[|p| - 1] == ACK && p[|p| - 2] == '\r' &&
    var body := p[..|p| - 1];
    var n := TakeWord(body);
    IsNumber(n) && AllSpace(body[|n|..])
  }

  /** Pattern 3: the answer to "#x?PVF", a status word then position, velocity and following error. */
  predicate IsPvfReply(p: string)
  {
    |p| >= 1 && p[|p| - 1] == ACK &&
    var parts := Split(p[..|p| - 1], '\r');
    |parts| == 5 && parts[4] == "" && |parts[0]| > 0 && AllUpperAlnum(parts[0]) &&
    IsNumber(parts[1]) && IsNumber(parts[2]) && IsNumber(parts[3])
  }

  /** Which pattern a look at the buffered text finds first, and where its match ends. */
  datatype Match = Match(pattern: nat, end: nat)

  /**
   * One look of expect() at the buffered text s. Patterns 1 to 3 are anchored at the start
   * and every text they accept holds its only ACK at its end, so each of them matches
   * exactly when the text up to the first ACK is of its form; pattern 4 is that first ACK.
   */
  function Classify(s: string): (r: Option<Match>)
    ensures r.Some? ==> 0 < r.value.end <= |s| && r.value.pattern <= 4
    ensures r.None? <==> ACK !in s && FirstErrorFrom(s, 0).None?
  {
    match FirstErrorFrom(s, 0)
    case Some(i) => Some(Match(0, i + 8))
    case None =>
      match FirstIndex(s, ACK)
      case None => None
      case Some(a) =>
        var p := s[..a + 1];
        if IsHexReply(p) then Some(Match(1, a + 1))
        else if IsDecimalReply(p) then Some(Match(2, a + 1))
        else if IsPvfReply(p) then Some(Match(3, a + 1))
        else Some(Match(4, a + 1))
  }

  /** What expect() ends with: a match, a timeout with all text read, or EOFError. */
  datatype Expected = Matched(pattern: nat, text: string, rest: string) | Timeout(text: string) | EofError

  function Concat(parts: seq<string>): string
  {
    if |parts| == 0 then "" else parts[0] + Concat(parts[1..])
  }

  /**
   * expect(): look at the buffered text, and while nothing matches take in the next piece;
   * when the pieces run out, a closed connection with nothing buffered is EOFError, anything
   * else hands back (and empties) the buffer.
   */
  function Expect(cooked: string, parts: seq<string>, eof: bool): Expected
    decreases |parts|
  {
    match Classify(cooked)
    case Some(m) => Matched(m.pattern, cooked[..m.end], cooked[m.end..])
    case None =>
      if |parts| == 0 then (if eof && cooked == "" then EofError else Timeout(cooked))
      else Expect(cooked + parts[0], parts[1..], eof)
  }

  /** expect() neither loses nor invents text: the reply and what stays buffered are what arrived. */
  lemma {:induction false} ExpectKeepsText(cooked: string, parts: seq<string>, eof: bool)
    ensures match Expect(cooked, parts, eof)
      case Matched(_, text, rest) =>
        cooked <= text + rest && text + rest <= cooked + Concat(parts)
      case Timeout(text) => text == cooked + Concat(parts)
      case EofError => eof && cooked + Concat(parts) == ""
    decreases |parts|
  {
    if Classify(cooked).None? && |parts| > 0 {
      ExpectKeepsText(cooked + parts[0], parts[1..], eof);
      assert cooked + Concat(parts) == cooked + parts[0] + Concat(parts[1..]);
    }
  }

  /** An error report inside a prefix of s is one of s, and the other way round. */
  lemma ErrorAtPrefix(s: string, i: nat, e: nat)
    requires i + 8 <= e <= |s|
    ensures ErrorAt(s[..e], i) <==> ErrorAt(s, i)
  {
    var t := s[..e];
    assert t[i] == s[i] && t[i + 7] == s[i + 7];
    assert t[i + 1..i + 4] == s[i + 1..i + 4];
    assert t[i + 4..i + 7] == s[i + 4..i + 7];
  }

  /** The text one look of expect() matches ends in a full error report, or in its first and only ACK. */
  lemma ClassifyShape(s: string)
    ensures match Classify(s)
      case Some(m) =>
        (m.pattern == 0 ==> m.end >= 8 && ErrorAt(s[..m.end], m.end - 8)) &&
        (m.pattern != 0 ==> s[m.end - 1] == ACK && ACK !in s[..m.end][..m.end - 1])
      case None => true
  {
    match FirstErrorFrom(s, 0)
    case Some(i) =>
      ErrorAtPrefix(s, i, i + 8);
    case None =>
      match FirstIndex(s, ACK)
      case None =>
      case Some(a) =>
        assert s[..a + 1][..a] == s[..a];
  }

  /**
   * The reply an expect() matches ends where the pattern does: a reply to pattern 0 ends in a
   * complete error report, a reply to any other pattern ends in its first and only ACK.
   */
  lemma {:induction false} ExpectReplyShape(cooked: string, parts: seq<string>, eof: bool)
    ensures match Expect(cooked, parts, eof)
      case Matched(i, text, _) =>
        (i == 0 ==> |text| >= 8 && ErrorAt(text, |text| - 8)) &&
        (i != 0 ==> |text| > 0 && text[|text| - 1] == ACK && ACK !in text[..|text| - 1])
      case _ => true
    decreases |parts|
  {
    match Classify(cooked)
    case Some(m) =>
      ClassifyShape(cooked);
      var text := cooked[..m.end];
      assert Expect(cooked, parts, eof) == Matched(m.pattern, text, cooked[m.end..]);
      assert |text| == m.end && text[m.end - 1] == cooked[m.end - 1];
    case None =>
      if |parts| > 0 {
        ExpectReplyShape(cooked + parts[0], parts[1..], eof);
      }
  }

  /** Once an ACK has arrived, expect() always finds a match; a timeout means no ACK came. */
  lemma {:induction false} AckEndsExpect(cooked: string, parts: seq<string>, eof: bool)
    requires ACK in cooked + Concat(parts)
    ensures Expect(cooked, parts, eof).Matched?
    decreases |parts|
  {
    if Classify(cooked).None? {
      assert |parts| > 0;
      assert cooked + Concat(parts) == (cooked + parts[0]) + Concat(parts[1..]);
      AckEndsExpect(cooked + parts[0], parts[1..], eof);
    }
  }

  /** A controller's "$<hex>\r\x06" answer to a query of a hexadecimal I-variable falls to pattern 1. */
  lemma HexValueReply(n: nat)
    ensures var s := "$" + HexDigits(n, true) + "\r" + [ACK];
            Classify(s) == Some(Match(1, |s|))
  {
    var d := HexDigits(n, true);
    HexDigitsChars(n, true);
    assert forall j :: 0 <= j < |d| ==> IsUpperAlnum(d[j]) by {
      forall j | 0 <= j < |d| ensures IsUpperAlnum(d[j]) {
        assert IsCasedHexDigit(d[j], true);
      }
    }
    UpperAlnumReply(d);
  }

  /** "$", upper-case letters and digits, CR and ACK: pattern 1, over the whole text. */
  lemma UpperAlnumReply(d: string)
    requires |d| > 0 && AllUpperAlnum(d)
    ensures var s := "$" + d + "\r" + [ACK];
            Classify(s) == Some(Match(1, |s|))
  {
    var body := "$" + d + "\r";
    var s := body + [ACK];
    assert forall j :: 0 <= j < |s| ==> s[j] != BEL && (j < |s| - 1 ==> s[j] != ACK) by {
      forall j | 0 <= j < |s| ensures s[j] != BEL && (j < |s| - 1 ==> s[j] != ACK) {
        if 1 <= j < |s| - 2 {
          assert s[j] == d[j - 1];
        }
      }
    }
    NoErrorWithoutBel(s, 0);
    FirstAckAtEnd(s);
    assert s[..|s|] == s;
    assert s[1..|s| - 2] == d;
  }

  lemma FirstAckAtEnd(s: string)
    requires |s| > 0 && s[|s| - 1] == ACK && forall j :: 0 <= j < |s| - 1 ==> s[j] != ACK
    ensures FirstIndex(s, ACK) == Some(|s| - 1)
  {
    assert s[|s| - 1] in s;
    assert forall k :: 0 <= k < |s| - 1 ==> s[..|s| - 1][k] == s[k];
  }

  lemma {:induction false} NoErrorWithoutBel(s: string, i: nat)
    requires forall j :: 0 <= j < |s| ==> s[j] != BEL
    ensures FirstErrorFrom(s, i).None?
    decreases |s| - i
  {
    if i + 8 <= |s| {
      NoErrorWithoutBel(s, i + 1);
    }
  }
}
