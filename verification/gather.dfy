/**
 * PmacGather as an object: it holds a RemotePmac and keeps the gathered channels, the
 * number of words per sample, the sample count and the sample time as fields that its
 * methods update in place. Each method is proved to do what the function of the same name
 * in GatherSpec says, with the interface's own sendCommand as the sender.
 */
module Gather {
  import opened Py
  import opened RemoteSpec
  import opened GatherSpec
  import GatherFacts
  import Remote

  /** The mask gatherConfig sets: bit a for each of the n axes, and so no bit at all without axes. */
  method AxisBits(n: nat) returns (bits: int)
    ensures bits == Pow2(n) - 1
    ensures bits == 0 <==> n == 0
  {
    bits := 0;
    var a := 0;
    while a < n
      invariant 0 <= a <= n && bits == Pow2(a) - 1
    {
      GatherFacts.MaskGrows(a);
      bits := SetBit(bits, a);
      a := a + 1;
    }
    if n > 0 {
      assert Pow2(n) == 2 * Pow2(n - 1);
    }
  }

  class PmacGather {
    const pmac: Remote.RemotePmac
    /** The gatherchannel tables the object works with. */
    const tables: Tables
    var channels: seq<Channel>
    var noOfWords: int
    var samples: int
    var sampleTime: int

    /** The attributes as one value, the interface's among them. */
    function Snap(): Gatherer
      reads this, pmac
    {
      Gatherer(pmac.Snap(), channels, noOfWords, samples, sampleTime)
    }

    /** __init__: no channels, and no words, samples or sample time yet. */
    constructor (pmac: Remote.RemotePmac, tables: Tables)
      ensures this.pmac == pmac && this.tables == tables
      ensures Snap() == Gatherer(pmac.Snap(), [], 0, 0, 0)
    {
      this.pmac := pmac;
      this.tables := tables;
      channels := [];
      noOfWords := 0;
      samples := 0;
      sampleTime := 0;
    }

    /** self.pmac.sendCommand(command), as the sender the specification functions are given. */
    method Send(command: string) returns (r: Result<Reply>)
      requires pmac.permits > 0
      modifies pmac
      ensures Out(pmac.Snap(), r) == Transmit(pmac.link)(old(pmac.Snap()), command)
    {
      r := pmac.SendCommand(command, true);
    }

    /**
     * gatherConfig: set the mask of one bit per axis and the sample time, point one channel
     * at each axis's demand position, then size the gather buffer.
     */
    method GatherConfig(axes: seq<int>, samples: int, sampleTime: int) returns (r: Result<Outcome>)
      requires pmac.permits > 0 && tables.word > 0
      modifies this, pmac
      ensures Config(Snap(), r) == GatherSpec.GatherConfig(Transmit(pmac.link), tables, old(Snap()), axes, samples, sampleTime)
    {
      ghost var send := Transmit(pmac.link);
      this.samples := samples;
      this.sampleTime := sampleTime;
      var bits := AxisBits(|axes|);
      if bits == 0 {
        return Ok(Declined);
      }
      var m := Send(MaskCommand(bits));
      if m.Raised? {
        return Raised(m.exc);
      }
      var t := Send(SampleTimeCommand(sampleTime));
      if t.Raised? {
        return Raised(t.exc);
      }
      r := AddChannels(axes);
    }

    /** The channel loop of gatherConfig and the buffer size after it. */
    method AddChannels(axes: seq<int>) returns (r: Result<Outcome>)
      requires pmac.permits > 0 && tables.word > 0
      modifies this, pmac
      ensures Config(Snap(), r) == GatherSpec.AddChannels(Transmit(pmac.link), tables, old(Snap()), axes)
    {
      ghost var send := Transmit(pmac.link);
      ghost var st0 := pmac.Snap();
      ghost var added: seq<Channel> := [];
      var totalWidth := 0;
      var index := 0;
      while index < |axes|
        invariant 0 <= index <= |axes| && pmac.permits > 0
        invariant channels == old(channels) + added && totalWidth == TotalWidth(added)
        invariant samples == old(samples) && sampleTime == old(sampleTime) && noOfWords == old(noOfWords)
        invariant SetupFrom(send, tables, st0, axes, 0) == AddedAfter(added, SetupFrom(send, tables, pmac.Snap(), axes, index))
      {
        // the I-variable, the address of the axis's demand position and its width
        var channel := NewChannel(tables, index, axes[index]);
        if channel.None? {
          return Raised(IndexError);
        }
        var ch := channel.value;
        ghost var before := pmac.Snap();
        var x := Send(Assignment(ch));
        if x.Raised? {
          assert SetupFrom(send, tables, before, axes, index) == Setup(pmac.Snap(), [], Some(x.exc));
          return Raised(x.exc);
        }
        GatherFacts.SetupStep(send, tables, before, axes, index, added, ch);
        assert (added + [ch])[..|added|] == added;
        assert old(channels) + (added + [ch]) == channels + [ch];
        channels := channels + [ch];
        added := added + [ch];
        totalWidth := totalWidth + ch.width;
        index := index + 1;
      }
      assert SetupFrom(send, tables, st0, axes, 0) == Setup(pmac.Snap(), added, None);
      r := DefineBuffer(totalWidth / tables.word);
    }

    /** Record the number of words, and size the gather buffer: an odd number of words is read as one more. */
    method DefineBuffer(words: int) returns (r: Result<Outcome>)
      requires pmac.permits > 0
      modifies this, pmac
      ensures Config(Snap(), r) == GatherSpec.DefineBuffer(Transmit(pmac.link), old(Snap()), words)
    {
      noOfWords := words;
      var readWords := noOfWords + noOfWords % 2;
      var d := Send("define gather " + Dec(47 + readWords / 2 * samples));
      if d.Raised? {
        return Raised(d.exc);
      }
      return Ok(Configured);
    }

    /** gatherTrigger: send "gather"; an exception escapes; the wait for the samples is not modelled. */
    method GatherTrigger() returns (raised: Option<Exception>)
      requires pmac.permits > 0
      modifies pmac
      ensures (pmac.Snap(), raised) == GatherSpec.GatherTrigger(Transmit(pmac.link), old(pmac.Snap()))
      ensures Snap() == old(Snap()).(pmac := pmac.Snap())
    {
      var x := Send("gather");
      raised := if x.Raised? then Some(x.exc) else None;
    }

    /**
     * collectData: send "list gather" and split every word of the reply, but its last
     * character, into the part from the seventh character on and the first six characters.
     */
    method CollectData() returns (r: Result<Option<seq<string>>>)
      requires pmac.permits > 0
      modifies pmac
      ensures Snap() == old(Snap()).(pmac := pmac.Snap())
      ensures (pmac.Snap(), r) == GatherSpec.CollectData(Transmit(pmac.link), old(pmac.Snap()))
    {
      var x := Send("list gather");
      if x.Raised? {
        return Raised(x.exc);
      }
      if !x.value.success {
        return Ok(None);
      }
      var tokens := Words(DropLast(x.value.response));
      var strings: seq<string> := [];
      var i := 0;
      while i < |tokens|
        invariant 0 <= i <= |tokens| && strings == Halves(tokens[..i])
      {
        var t := Strip(tokens[i], Whitespace);
        assert tokens[..i + 1][..i] == tokens[..i];
        strings := strings + [From6(t), Upto6(t)];
        i := i + 1;
      }
      assert tokens[..i] == tokens;
      return Ok(Some(strings));
    }

    /**
     * parseData: deal the strings to the channels, then give every channel its array of
     * strings. Converting the strings to numbers is not modelled.
     */
    method ParseData(strings: seq<string>) returns (r: Result<()>)
      modifies this
      ensures var p := GatherSpec.ParseData(old(channels), noOfWords, tables, strings);
              Snap() == old(Snap()).(channels := p.0) && r == p.1
    {
      var dealt := DealStrings(strings);
      if dealt.Raised? {
        return Raised(dealt.exc);
      }
      var arrays := dealt.value;
      ghost var d := Dealt(Widths(channels), noOfWords % 2 == 1, tables.word, tables.longword, strings, |strings|);
      assert d.Ok? && d.value.arrays == arrays && |arrays| == |Widths(channels)| == |channels|;
      var updated := channels;
      var k := 0;
      while k < |arrays|
        invariant 0 <= k <= |arrays| && |updated| == |arrays|
        invariant forall j :: 0 <= j < k ==> updated[j] == channels[j].(data := arrays[j])
        invariant forall j :: k <= j < |arrays| ==> updated[j] == channels[j]
      {
        updated := updated[k := updated[k].(data := arrays[k])];
        k := k + 1;
      }
      assert updated == WithData(channels, arrays);
      channels := updated;
      return Ok(());
    }

    /**
     * The walk of parseData through the strings: past the last channel go back to the
     * first, dropping the string when the number of words is odd; a WORD channel takes the
     * string; a LONGWORD channel holds the first half back and takes the second half
     * followed by it.
     */
    method DealStrings(strings: seq<string>) returns (r: Result<seq<seq<string>>>)
      ensures var d := Dealt(Widths(channels), noOfWords % 2 == 1, tables.word, tables.longword, strings, |strings|);
              r == if d.Raised? then Raised(d.exc) else Ok(d.value.arrays)
    {
      ghost var widths := Widths(channels);
      ghost var odd := noOfWords % 2 == 1;
      var count := |channels|;
      var arrays: seq<seq<string>> := seq(count, _ => []);
      var channel := 0;
      var carry := "";
      var i := 0;
      while i < |strings|
        invariant 0 <= i <= |strings|
        invariant Dealt(widths, odd, tables.word, tables.longword, strings, i) == Ok(Deal(channel, carry, arrays))
      {
        var s := strings[i];
        i := i + 1;
        if channel >= count {
          channel := 0;
          if noOfWords % 2 == 1 {
            continue;
          }
        }
        if channel >= count {
          GatherFacts.DealtStaysRaised(widths, odd, tables.word, tables.longword, strings, i, |strings|);
          return Raised(IndexError);
        }
        if channels[channel].width == tables.word {
          arrays := arrays[channel := arrays[channel] + [s]];
          channel := channel + 1;
          continue;
        }
        if channels[channel].width == tables.longword {
          if carry == "" {
            carry := s;
          } else {
            arrays := arrays[channel := arrays[channel] + [s + carry]];
            carry := "";
            channel := channel + 1;
          }
        }
      }
      return Ok(arrays);
    }
  }
}
