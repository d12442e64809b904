/**
 * What PmacGather promises: the commands gatherConfig, gatherTrigger and collectData put
 * on the wire, the channels gatherConfig adds, the shape of the collected halves, and how
 * parseData deals words to WORD and LONGWORD channels.
 */
module GatherFacts {
  import opened Py
  import opened RemoteSpec
  import opened GatherSpec

  // ---------------------------------------------------------------- what goes on the wire

  lemma {:induction false} ReadsAppend(read: Reader, ws: seq<string>, vs: seq<string>, x: seq<string>, y: seq<string>)
    requires Reads(read, ws, x) && Reads(read, vs, y)
    ensures Reads(read, ws + vs, x + y)
    decreases |x|
  {
    if x != [] {
      ReadsAppend(read, ws[1..], vs, x[1..], y);
      assert (ws + vs)[1..] == ws[1..] + vs && (x + y)[1..] == x[1..] + y;
    } else {
      assert ws + vs == vs && x + y == y;
    }
  }

  /** Command i of those read is the one the controller reads from write i. */
  lemma {:induction false} ReadsAt(read: Reader, ws: seq<string>, cmds: seq<string>, i: nat)
    requires Reads(read, ws, cmds) && i < |cmds|
    ensures read(ws[i]) == Some(cmds[i])
    decreases i
  {
    if i > 0 {
      ReadsAt(read, ws[1..], cmds[1..], i - 1);
    }
  }

  lemma {:induction false} WroteThen(read: Reader, a: State, b: State, c: State, x: seq<string>, y: seq<string>)
    requires Wrote(read, a, b, x) && Wrote(read, b, c, y)
    ensures Wrote(read, a, c, x + y)
  {
    assert c.sent[|a.sent|..] == b.sent[|a.sent|..] + c.sent[|b.sent|..];
    ReadsAppend(read, b.sent[|a.sent|..], c.sent[|b.sent|..], x, y);
  }

  /** The commands that point the channels' I-variables at their addresses. */
  function Assignments(cs: seq<Channel>): seq<string>
  {
    seq(|cs|, i requires 0 <= i < |cs| => Assignment(cs[i]))
  }

  lemma {:induction false} AssignmentsCons(ch: Channel, cs: seq<Channel>)
    ensures Assignments([ch] + cs) == [Assignment(ch)] + Assignments(cs)
  {
  }

  /** The channels of the axes from k on, up to the first axis whose motor has no base address. */
  function AxisChannels(tables: Tables, axes: seq<int>, k: nat): (r: seq<Channel>)
    requires k <= |axes|
    ensures |r| <= |axes| - k
    decreases |axes| - k
  {
    if k == |axes| then []
    else match NewChannel(tables, k, axes[k])
      case None => []
      case Some(ch) => [ch] + AxisChannels(tables, axes, k + 1)
  }

  /** Entry i of AxisChannels is the channel of axis k + i. */
  lemma {:induction false} AxisChannelsAt(tables: Tables, axes: seq<int>, k: nat, i: nat)
    requires k <= |axes| && i < |AxisChannels(tables, axes, k)|
    ensures NewChannel(tables, k + i, axes[k + i]) == Some(AxisChannels(tables, axes, k)[i])
    decreases i
  {
    var ch := NewChannel(tables, k, axes[k]);
    assert ch.Some? && AxisChannels(tables, axes, k) == [ch.value] + AxisChannels(tables, axes, k + 1);
    if i > 0 {
      AxisChannelsAt(tables, axes, k + 1, i - 1);
    }
  }

  /**
   * The channel loop adds the channels of the axes in list order, and stops only where a
   * motor has no base address or a command is too long.
   */
  lemma {:induction false} SetupChannels(send: Send, tables: Tables, st: State, axes: seq<int>, k: nat)
    requires k <= |axes|
    ensures var s := SetupFrom(send, tables, st, axes, k);
            s.added <= AxisChannels(tables, axes, k) &&
            (s.raised.None? <==> |s.added| == |axes| - k)
    decreases |axes| - k
  {
    if k < |axes| {
      match NewChannel(tables, k, axes[k])
      case None =>
      case Some(ch) =>
        var x := send(st, Assignment(ch));
        if x.res.Ok? {
          SetupChannels(send, tables, x.st, axes, k + 1);
        }
    }
  }

  /** One round of the channel loop: the channel of axis k is added and the loop goes on from the next axis. */
  lemma {:induction false} SetupStep(send: Send, tables: Tables, st: State, axes: seq<int>, k: nat, earlier: seq<Channel>, ch: Channel)
    requires k < |axes| && NewChannel(tables, k, axes[k]) == Some(ch) && send(st, Assignment(ch)).res.Ok?
    ensures AddedAfter(earlier, SetupFrom(send, tables, st, axes, k)) ==
            AddedAfter(earlier + [ch], SetupFrom(send, tables, send(st, Assignment(ch)).st, axes, k + 1))
  {
    var rest := SetupFrom(send, tables, send(st, Assignment(ch)).st, axes, k + 1);
    assert earlier + ([ch] + rest.added) == earlier + [ch] + rest.added;
  }

  /**
   * The channel loop writes exactly the assignments of the channels it added (on an
   * interface with its connection object; nothing without one).
   */
  lemma {:induction false} SetupWrites(read: Reader, send: Send, tables: Tables, st: State, axes: seq<int>, k: nat)
    requires Sender(read, send) && k <= |axes| && st.permits > 0
    ensures var s := SetupFrom(send, tables, st, axes, k);
            s.st.permits == st.permits && s.st.hasSocket == st.hasSocket &&
            Wrote(read, st, s.st, OnWire(st, Assignments(s.added)))
    decreases |axes| - k
  {
    if k < |axes| {
      match NewChannel(tables, k, axes[k])
      case None =>
      case Some(ch) =>
        var x := send(st, Assignment(ch));
        assert SendsOne(read, st, Assignment(ch), x);
        if x.res.Ok? {
          var rest := SetupFrom(send, tables, x.st, axes, k + 1);
          SetupWrites(read, send, tables, x.st, axes, k + 1);
          WroteThen(read, st, x.st, rest.st, OnWire(st, [Assignment(ch)]), OnWire(st, Assignments(rest.added)));
          AssignmentsCons(ch, rest.added);
        }
    }
  }

  /**
   * gatherConfig keeps the sample count and time and the channels it had, and adds a prefix
   * of the axes' channels in list order, channel i with I-variable "i50%02d" % (i + 1); when
   * it completes, it has added one channel per axis and counted their words.
   */
  lemma {:induction false} ConfigChannels(send: Send, tables: Tables, g: Gatherer, axes: seq<int>, samples: int, sampleTime: int)
    requires tables.word > 0
    ensures var c := GatherConfig(send, tables, g, axes, samples, sampleTime);
            var added := c.g.channels[|g.channels|..];
            g.channels <= c.g.channels && |added| <= |axes| &&
            (forall i :: 0 <= i < |added| ==> NewChannel(tables, i, axes[i]) == Some(added[i]) && added[i].ivar == IVar(i + 1)) &&
            (c.res == Ok(Configured) ==> |added| == |axes| && c.g.noOfWords == TotalWidth(added) / tables.word)
  {
    var c := GatherConfig(send, tables, g, axes, samples, sampleTime);
    if |axes| > 0 {
      var m := send(g.pmac, MaskCommand(Pow2(|axes|) - 1));
      if m.res.Ok? {
        var t := send(m.st, SampleTimeCommand(sampleTime));
        if t.res.Ok? {
          var s := SetupFrom(send, tables, t.st, axes, 0);
          SetupChannels(send, tables, t.st, axes, 0);
          assert c.g.channels == g.channels + s.added;
          assert c.g.channels[|g.channels|..] == s.added;
          forall i | 0 <= i < |s.added|
            ensures NewChannel(tables, i, axes[i]) == Some(s.added[i])
          {
            AxisChannelsAt(tables, axes, 0, i);
          }
        }
      }
    }
  }

  /**
   * A command sent with a free permit that returns was written (on an interface with its
   * connection object), and the permits and the connection object are as before.
   */
  lemma {:induction false} SentOne(read: Reader, send: Send, st: State, command: string)
    requires Sender(read, send) && st.permits > 0
    ensures var o := send(st, command);
            o.st.permits == st.permits && o.st.hasSocket == st.hasSocket &&
            (o.res.Ok? ==> Wrote(read, st, o.st, OnWire(st, [command])))
  {
    assert SendsOne(read, st, command, send(st, command));
  }

  /** Four stretches of writes one after the other make one stretch. */
  lemma {:induction false} WroteFour(read: Reader, a: State, b: State, c: State, d: State, e: State,
                                     x: string, y: string, zs: seq<string>, w: string)
    requires Wrote(read, a, b, [x]) && Wrote(read, b, c, [y]) && Wrote(read, c, d, zs) && Wrote(read, d, e, [w])
    ensures Wrote(read, a, e, [x, y] + zs + [w])
  {
    WroteThen(read, a, b, c, [x], [y]);
    assert [x] + [y] == [x, y];
    WroteThen(read, a, c, d, [x, y], zs);
    WroteThen(read, a, d, e, [x, y] + zs, [w]);
  }

  /**
   * When gatherConfig completes, the controller has read, in this order: the mask with one
   * bit per axis, the sample time, each channel's address, and the gather buffer's size
   * (given the connection object; without one nothing reaches the wire).
   */
  lemma {:induction false} ConfigWrites(read: Reader, send: Send, tables: Tables, g: Gatherer, axes: seq<int>, samples: int, sampleTime: int)
    requires Sender(read, send) && g.pmac.permits > 0 && tables.word > 0
    ensures var c := GatherConfig(send, tables, g, axes, samples, sampleTime);
            c.res == Ok(Configured) ==>
              Wrote(read, g.pmac, c.g.pmac, OnWire(g.pmac,
                [MaskCommand(Pow2(|axes|) - 1), SampleTimeCommand(sampleTime)] +
                Assignments(c.g.channels[|g.channels|..]) +
                [DefineCommand(c.g.noOfWords, samples)]))
  {
    var c := GatherConfig(send, tables, g, axes, samples, sampleTime);
    if c.res == Ok(Configured) {
      var mask := MaskCommand(Pow2(|axes|) - 1);
      var time := SampleTimeCommand(sampleTime);
      var m := send(g.pmac, mask);
      SentOne(read, send, g.pmac, mask);
      var t := send(m.st, time);
      SentOne(read, send, m.st, time);
      var s := SetupFrom(send, tables, t.st, axes, 0);
      SetupWrites(read, send, tables, t.st, axes, 0);
      var define := DefineCommand(TotalWidth(s.added) / tables.word, samples);
      var d := send(s.st, define);
      SentOne(read, send, s.st, define);
      if g.pmac.hasSocket {
        WroteFour(read, g.pmac, m.st, t.st, s.st, d.st, mask, time, Assignments(s.added), define);
      } else {
        WroteThen(read, g.pmac, m.st, t.st, [], []);
        WroteThen(read, g.pmac, t.st, s.st, [], []);
        WroteThen(read, g.pmac, s.st, d.st, [], []);
      }
      assert c.g.channels[|g.channels|..] == s.added;
    }
  }

  /** Adding axis a's bit to the mask of a axes gives the mask of a + 1 axes. */
  lemma {:induction false} MaskGrows(a: nat)
    ensures SetBit(Pow2(a) - 1, a) == Pow2(a + 1) - 1
  {
    LowMaskBits(a, a);
  }

  /** The I-variables of channels 0 to 99 are "i50" and two digits, so no two channels share one. */
  lemma {:induction false} IVarDigits(i: int)
    requires 0 <= i < 100
    ensures IVar(i) == "i50" + [DigitChar(i / 10), DigitChar(i % 10)]
  {
    if i >= 10 {
      assert DecDigits(i) == DecDigits(i / 10) + [DigitChar(i % 10)];
    }
  }

  lemma {:induction false} IVarDistinct(i: int, j: int)
    requires 0 <= i < 100 && 0 <= j < 100 && i != j
    ensures IVar(i) != IVar(j)
  {
    IVarDigits(i);
    IVarDigits(j);
    assert IVar(i)[3] != IVar(j)[3] || IVar(i)[4] != IVar(j)[4];
  }

  // ---------------------------------------------------------------- gatherTrigger and collectData

  /**
   * gatherTrigger writes "gather" and nothing else when it returns, and nothing when the
   * exception it lets escape is raised; with the connection object in place it returns.
   */
  lemma {:induction false} TriggerWrites(read: Reader, send: Send, st: State)
    requires Sender(read, send) && st.permits > 0
    ensures var o := GatherTrigger(send, st);
            Wrote(read, st, o.0, if o.1.None? then OnWire(st, ["gather"]) else []) &&
            (st.hasSocket ==> o.1.None?)
  {
    assert SendsOne(read, st, "gather", send(st, "gather"));
  }

  /**
   * collectData writes "list gather" and returns: False exactly on a failure reply, otherwise
   * the halves; an exception escapes having written nothing, and with the connection object
   * in place none is raised.
   */
  lemma {:induction false} CollectWrites(read: Reader, send: Send, st: State)
    requires Sender(read, send) && st.permits > 0
    ensures var o := CollectData(send, st);
            var x := send(st, "list gather");
            Wrote(read, st, o.0, if x.res.Ok? then OnWire(st, ["list gather"]) else []) &&
            (st.hasSocket ==> x.res.Ok?) &&
            (x.res.Raised? ==> o.1 == Raised(x.res.exc)) &&
            (x.res.Ok? ==>
               o.1 == Ok(if x.res.value.success then Some(Halves(Words(DropLast(x.res.value.response)))) else None))
  {
    assert SendsOne(read, st, "list gather", send(st, "list gather"));
  }

  /**
   * The halves come in pairs, one pair per token: the stripped token from its seventh
   * character on, then its first six; the second of a pair followed by the first is the
   * stripped token again.
   */
  lemma {:induction false} HalvesShape(tokens: seq<string>)
    ensures |Halves(tokens)| == 2 * |tokens|
    ensures forall i :: 0 <= i < |tokens| ==>
              var t := Strip(tokens[i], Whitespace);
              Halves(tokens)[2 * i] == From6(t) && Halves(tokens)[2 * i + 1] == Upto6(t) &&
              Halves(tokens)[2 * i + 1] + Halves(tokens)[2 * i] == t
    decreases |tokens|
  {
    if tokens != [] {
      var init := tokens[..|tokens| - 1];
      HalvesShape(init);
      forall i | 0 <= i < |tokens|
        ensures var t := Strip(tokens[i], Whitespace);
                Halves(tokens)[2 * i] == From6(t) && Halves(tokens)[2 * i + 1] == Upto6(t) &&
                Halves(tokens)[2 * i + 1] + Halves(tokens)[2 * i] == Strip(tokens[i], Whitespace)
      {
        var t := Strip(tokens[i], Whitespace);
        if i < |init| {
          assert tokens[i] == init[i];
        }
        if |t| > 6 {
          assert t[..6] + t[6..] == t;
        }
      }
    }
  }

  // ---------------------------------------------------------------- parseData

  /** Once the walk has raised, it stays raised with the same exception. */
  lemma {:induction false} DealtStaysRaised(widths: seq<int>, odd: bool, word: int, longword: int, strings: seq<string>, i: nat, n: nat)
    requires i <= n <= |strings| && Dealt(widths, odd, word, longword, strings, i).Raised?
    ensures Dealt(widths, odd, word, longword, strings, n) == Dealt(widths, odd, word, longword, strings, i)
    decreases n
  {
    if n > i {
      DealtStaysRaised(widths, odd, word, longword, strings, i, n - 1);
    }
  }

  /** Without channels every string wraps: it is dropped when the number of words is odd, and raises IndexError otherwise. */
  lemma {:induction false} DealNoChannels(odd: bool, word: int, longword: int, strings: seq<string>, n: nat)
    requires n <= |strings|
    ensures var r := Dealt([], odd, word, longword, strings, n);
            (r.Raised? <==> !odd && n > 0) && (r.Raised? ==> r.exc == IndexError)
    decreases n
  {
    if n > 0 {
      DealNoChannels(odd, word, longword, strings, n - 1);
    }
  }

  /** With at least one channel the walk always has a channel to deal to. */
  lemma {:induction false} DealNeverRaises(widths: seq<int>, odd: bool, word: int, longword: int, strings: seq<string>, n: nat)
    requires n <= |strings| && |widths| > 0
    ensures Dealt(widths, odd, word, longword, strings, n).Ok?
    decreases n
  {
    if n > 0 {
      DealNeverRaises(widths, odd, word, longword, strings, n - 1);
    }
  }

  /** parseData raises IndexError exactly when it has no channel, a string to deal and an even number of words; then it changes nothing. */
  lemma {:induction false} ParseRaises(channels: seq<Channel>, noOfWords: int, tables: Tables, strings: seq<string>)
    ensures var p := ParseData(channels, noOfWords, tables, strings);
            (p.1.Raised? <==> |channels| == 0 && noOfWords % 2 == 0 && |strings| > 0) &&
            (p.1.Raised? ==> p == (channels, Raised(IndexError)))
  {
    if |channels| == 0 {
      assert Widths(channels) == [];
      DealNoChannels(noOfWords % 2 == 1, tables.word, tables.longword, strings, |strings|);
    } else {
      DealNeverRaises(Widths(channels), noOfWords % 2 == 1, tables.word, tables.longword, strings, |strings|);
    }
  }

  /** parseData changes only the channels' string data. */
  lemma {:induction false} ParseKeeps(channels: seq<Channel>, noOfWords: int, tables: Tables, strings: seq<string>)
    ensures var p := ParseData(channels, noOfWords, tables, strings);
            |p.0| == |channels| &&
            forall i :: 0 <= i < |channels| ==> p.0[i].(data := channels[i].data) == channels[i]
  {
  }

  /** A non-zero multiple of p is at least p away from zero. */
  lemma {:induction false} MultipleBounds(k: int, p: int)
    requires p > 0
    ensures k >= 1 ==> k * p >= p
    ensures k <= -1 ==> k * p <= -p
  {
    if k >= 1 {
      assert k * p == (k - 1) * p + p;
    } else if k <= -1 {
      assert k * p == (k + 1) * p - p;
    }
  }

  /** The step of a counter modulo p. */
  lemma {:induction false} ModNext(m: nat, p: nat)
    requires p > 0
    ensures (m + 1) % p == if m % p == p - 1 then 0 else m % p + 1
  {
    var q, r := m / p, m % p;
    var q', r' := (m + 1) / p, (m + 1) % p;
    assert (q - q') * p == r' - r - 1;
    MultipleBounds(q - q', p);
  }

  /** The strings at the positions i of s with i % p == j, in order. */
  function Column(s: seq<string>, p: nat, j: nat): seq<string>
    requires p > 0
  {
    if s == [] then []
    else Column(s[..|s| - 1], p, j) + (if (|s| - 1) % p == j then [s[|s| - 1]] else [])
  }

  predicate AllWord(widths: seq<int>, word: int)
  {
    forall i :: 0 <= i < |widths| ==> widths[i] == word
  }

  /** Array j holds column j of the strings s, for every j. */
  predicate Columns(arrays: seq<seq<string>>, s: seq<string>, p: nat)
    requires p > 0
  {
    forall j :: 0 <= j < |arrays| ==> arrays[j] == Column(s, p, j)
  }

  lemma {:induction false} ColumnNext(strings: seq<string>, m: nat, p: nat, j: nat)
    requires m < |strings| && p > 0
    ensures Column(strings[..m + 1], p, j) == Column(strings[..m], p, j) + (if m % p == j then [strings[m]] else [])
  {
    assert strings[..m + 1][..m] == strings[..m];
  }

  /** String m extends the column m % p and no other. */
  lemma {:induction false} ColumnsNext(arrays: seq<seq<string>>, strings: seq<string>, m: nat, p: nat)
    requires m < |strings| && p > 0 && Columns(arrays, strings[..m], p)
    ensures m % p < |arrays| ==> Columns(arrays[m % p := arrays[m % p] + [strings[m]]], strings[..m + 1], p)
    ensures m % p >= |arrays| ==> Columns(arrays, strings[..m + 1], p)
  {
    forall j | 0 <= j < |arrays| {
      ColumnNext(strings, m, p, j);
    }
  }

  /**
   * Where the walk over WORD channels only stands after n strings: nothing held back, the
   * channel after the last one dealt, and column j of the strings in array j.
   */
  predicate WordState(count: nat, odd: bool, strings: seq<string>, n: nat, d: Deal)
    requires n <= |strings| && count > 0
  {
    var p := if odd then count + 1 else count;
    d.carry == "" && |d.arrays| == count &&
    d.channel == (if odd then n % p else if n == 0 then 0 else (n - 1) % p + 1) &&
    Columns(d.arrays, strings[..n], p)
  }

  lemma {:induction false} WordStepOdd(widths: seq<int>, word: int, longword: int, strings: seq<string>, m: nat, d: Deal)
    requires m < |strings| && |widths| > 0 && AllWord(widths, word)
    requires WordState(|widths|, true, strings, m, d)
    ensures var r := DealOne(widths, true, word, longword, d, strings[m]);
            r.Ok? && WordState(|widths|, true, strings, m + 1, r.value)
  {
    var p := |widths| + 1;
    ModNext(m, p);
    ColumnsNext(d.arrays, strings, m, p);
  }

  lemma {:induction false} WordStepEven(widths: seq<int>, word: int, longword: int, strings: seq<string>, m: nat, d: Deal)
    requires m < |strings| && |widths| > 0 && AllWord(widths, word)
    requires WordState(|widths|, false, strings, m, d)
    ensures var r := DealOne(widths, false, word, longword, d, strings[m]);
            r.Ok? && WordState(|widths|, false, strings, m + 1, r.value)
  {
    var p := |widths|;
    if m > 0 {
      ModNext(m - 1, p);
    }
    assert (if d.channel >= p then 0 else d.channel) == m % p;
    ColumnsNext(d.arrays, strings, m, p);
  }

  /**
   * With WORD channels only, the strings are dealt round the channels in turn, string i to
   * channel i % p, where p is the number of channels, plus one for the dummy word dropped
   * after each row when the number of words is odd.
   */
  lemma {:induction false} WordColumns(widths: seq<int>, odd: bool, word: int, longword: int, strings: seq<string>, n: nat)
    requires n <= |strings| && |widths| > 0 && AllWord(widths, word)
    ensures var r := Dealt(widths, odd, word, longword, strings, n);
            r.Ok? && WordState(|widths|, odd, strings, n, r.value)
    decreases n
  {
    if n > 0 {
      WordColumns(widths, odd, word, longword, strings, n - 1);
      var d := Dealt(widths, odd, word, longword, strings, n - 1).value;
      if odd {
        WordStepOdd(widths, word, longword, strings, n - 1, d);
      } else {
        WordStepEven(widths, word, longword, strings, n - 1, d);
      }
    } else {
      assert strings[..0] == [];
    }
  }

  /**
   * parseData with WORD channels only: channel j gets the strings at the positions i with
   * i % p == j, where p is the number of channels, plus one when the number of words is odd.
   */
  lemma {:induction false} ParseWordColumns(channels: seq<Channel>, noOfWords: int, tables: Tables, strings: seq<string>)
    requires |channels| > 0 && forall i :: 0 <= i < |channels| ==> channels[i].width == tables.word
    ensures var p := |channels| + (if noOfWords % 2 == 1 then 1 else 0);
            var r := ParseData(channels, noOfWords, tables, strings);
            r.1 == Ok(()) && |r.0| == |channels| &&
            forall j :: 0 <= j < |channels| ==> r.0[j] == channels[j].(data := Column(strings, p, j))
  {
    WordColumns(Widths(channels), noOfWords % 2 == 1, tables.word, tables.longword, strings, |strings|);
    assert strings[..|strings|] == strings;
  }

  /** The strings taken two at a time, each pair as its second string followed by its first. */
  function Pairs(s: seq<string>): seq<string>
  {
    seq(|s| / 2, i requires 0 <= i < |s| / 2 => s[2 * i + 1] + s[2 * i])
  }

  /**
   * One LONGWORD channel and an even number of words: the strings are joined in pairs,
   * the second before the first, and an unpaired last string is held back.
   */
  lemma {:induction false} LongwordPairs(word: int, longword: int, strings: seq<string>, n: nat)
    requires n <= |strings| && longword != word
    requires forall i :: 0 <= i < |strings| ==> strings[i] != ""
    ensures var r := Dealt([longword], false, word, longword, strings, n);
            r.Ok? && r.value.arrays[0] == Pairs(strings[..n]) &&
            r.value.carry == (if n % 2 == 1 then strings[n - 1] else "") &&
            r.value.channel == (if n > 0 && n % 2 == 0 then 1 else 0)
    decreases n
  {
    if n > 0 {
      var m := n - 1;
      LongwordPairs(word, longword, strings, m);
      if m % 2 == 0 {
        assert Pairs(strings[..n]) == Pairs(strings[..m]);
      } else {
        assert Pairs(strings[..n]) == Pairs(strings[..m]) + [strings[m] + strings[m - 1]];
      }
    }
  }

  /** Each token of a reply, stripped. */
  function Stripped(tokens: seq<string>): seq<string>
  {
    seq(|tokens|, i requires 0 <= i < |tokens| => Strip(tokens[i], Whitespace))
  }

  /** Every half of tokens longer than six characters once stripped is non-empty. */
  lemma {:induction false} HalvesNonEmpty(tokens: seq<string>)
    requires forall i :: 0 <= i < |tokens| ==> |Strip(tokens[i], Whitespace)| > 6
    ensures forall k :: 0 <= k < |Halves(tokens)| ==> Halves(tokens)[k] != ""
  {
    var strings := Halves(tokens);
    HalvesShape(tokens);
    forall k | 0 <= k < |strings|
      ensures strings[k] != ""
    {
      var i := k / 2;
      var t := Strip(tokens[i], Whitespace);
      assert |t| > 6;
      if k == 2 * i {
        assert strings[k] == From6(t);
      } else {
        assert strings[k] == Upto6(t);
      }
    }
  }

  /** Joining the halves in pairs gives back the stripped tokens. */
  lemma {:induction false} HalvesPairs(tokens: seq<string>)
    ensures Pairs(Halves(tokens)) == Stripped(tokens)
  {
    HalvesShape(tokens);
    forall i | 0 <= i < |tokens|
      ensures Pairs(Halves(tokens))[i] == Stripped(tokens)[i]
    {
    }
  }

  /**
   * collectData followed by parseData on one LONGWORD channel gives back each token of the
   * reply, once every stripped token is longer than six characters.
   */
  lemma {:induction false} LongwordRoundTrip(ch: Channel, noOfWords: int, tables: Tables, tokens: seq<string>)
    requires ch.width == tables.longword && tables.longword != tables.word && noOfWords % 2 == 0
    requires forall i :: 0 <= i < |tokens| ==> |Strip(tokens[i], Whitespace)| > 6
    ensures ParseData([ch], noOfWords, tables, Halves(tokens)) == ([ch.(data := Stripped(tokens))], Ok(()))
  {
    var strings := Halves(tokens);
    HalvesNonEmpty(tokens);
    HalvesPairs(tokens);
    LongwordPairs(tables.word, tables.longword, strings, |strings|);
    assert strings[..|strings|] == strings;
    assert Widths([ch]) == [tables.longword];
    var d := Dealt([tables.longword], false, tables.word, tables.longword, strings, |strings|).value;
    assert WithData([ch], d.arrays) == [ch.(data := d.arrays[0])];
  }
}
