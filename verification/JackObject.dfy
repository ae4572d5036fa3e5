/** The JACK client of src/reacjack.c: the packet step of copyData and the read-and-decode part of process. */
module JackObject {
  import opened Audio
  import opened Packet
  import opened LossCounter
  import opened Frontends
  import Decoder
  import C = CaptureRuns

  /** Every port buffer among the first `limit` is silent. */
  ghost predicate Silent(ports: seq<array?<real>>, limit: nat, nframes: nat)
    requires limit <= |ports| && Decoder.Buffers(ports, nframes)
    reads set i | 0 <= i < |ports| && ports[i] != null :: ports[i]
  {
    forall c, f | 0 <= c < limit && ports[c] != null && 0 <= f < nframes :: ports[c][f] == 0.0
  }

  /** The ports hold the frames that were played last. */
  ghost predicate Heard(ports: seq<array?<real>>, channels: nat, nframes: nat, before: Matrix, played: Matrix)
    requires channels <= |ports| && Decoder.Buffers(ports, nframes)
    reads set i | 0 <= i < |ports| && ports[i] != null :: ports[i]
  {
    && |played| == |before| + nframes
    && forall c, f | 0 <= c < channels && 0 <= f < nframes ::
         && ports[c] != null && |played[|before| + f]| == channels
         && ports[c][f] == ToFloat(played[|before| + f][c])
  }

  ghost predicate AllThere(ports: seq<array?<real>>, channels: nat)
    requires channels <= |ports|
  {
    forall c | 0 <= c < channels :: ports[c] != null
  }

  method ZeroBuffer(buf: array<real>, nframes: nat)
    requires nframes <= buf.Length
    modifies buf
    ensures forall f | 0 <= f < nframes :: buf[f] == 0.0
    ensures forall f | nframes <= f < buf.Length :: buf[f] == old(buf[f])
  {
    for f := 0 to nframes
      invariant forall i | 0 <= i < f :: buf[i] == 0.0
      invariant forall i | f <= i < buf.Length :: buf[i] == old(buf[i])
    {
      buf[f] := 0.0;
    }
  }

  /** How many ports silence_outputs reaches: no channel count, or too large a one, means all of them. */
  function Reached(channels: nat): nat { if 0 < channels <= MAX_CHANNELS then channels else MAX_CHANNELS }

  /** silence_outputs: a port without a buffer is skipped, and the ports past the channel count keep what they hold. */
  method SilenceOutputs(nframes: nat, channels: nat, ports: seq<array?<real>>)
    requires |ports| == MAX_CHANNELS && Decoder.Buffers(ports, nframes)
    modifies set i | 0 <= i < |ports| && ports[i] != null :: ports[i]
    ensures Silent(ports, Reached(channels), nframes)
    ensures forall c, f | Reached(channels) <= c < |ports| && ports[c] != null && 0 <= f < ports[c].Length ::
              ports[c][f] == old(if ports[c] != null && f < ports[c].Length then ports[c][f] else 0.0)
    ensures forall c, f | 0 <= c < |ports| && ports[c] != null && nframes <= f < ports[c].Length ::
              ports[c][f] == old(if ports[c] != null && f < ports[c].Length then ports[c][f] else 0.0)
  {
    var limit := channels;
    if limit == 0 || limit > MAX_CHANNELS {
      limit := MAX_CHANNELS;
    }
    for i := 0 to limit
      invariant Silent(ports, i, nframes)
      invariant forall c, f | 0 <= c < |ports| && ports[c] != null && 0 <= f < ports[c].Length
                              && (i <= c || nframes <= f) ::
                  ports[c][f] == old(if ports[c] != null && f < ports[c].Length then ports[c][f] else 0.0)
    {
      if ports[i] != null {
        ZeroBuffer(ports[i], nframes);
      }
    }
  }

  /** What a run leaves behind. */
  datatype Trace = Trace(lostBlocks: nat, noted: seq<nat>, shortAt: nat, shortFrames: nat, written: seq<Byte>,
                         played: Matrix)

  const NO_TRACE := Trace(0, [], 0, 0, [], [])

  class JackClient {
    const room: nat
    const processBytes: nat
    var channels: nat
    var dataSize: nat
    var fifo: seq<Byte>
    var received: nat
    var nonReac: nat
    var malformed: nat
    var netUnderrun: nat
    var jackUnderrun: nat
    var tracker: Tracker
    ghost var trace: Trace

    ghost function State(): Jack
      reads this
    {
      Jack(channels, dataSize, fifo, received, nonReac, malformed, netUnderrun, jackUnderrun, trace.lostBlocks, tracker,
           trace.noted, trace.shortAt, trace.shortFrames, trace.written, trace.played)
    }

    constructor (room: nat, processBytes: nat)
      ensures State() == NEW_JACK && this.room == room && this.processBytes == processBytes
    {
      this.room, this.processBytes := room, processBytes;
      channels, dataSize, fifo, received, nonReac, malformed, netUnderrun, jackUnderrun := 0, 0, [], 0, 0, 0, 0, 0;
      tracker, trace := FRESH, NO_TRACE;
    }

    /** What the main thread does once, two seconds after it started the capture thread. */
    method Reset()
      modifies this
      ensures State() == AfterReset(old(State()))
      ensures channels == old(channels) && dataSize == old(dataSize) && nonReac == old(nonReac) && fifo == []
      ensures received == malformed == netUnderrun == jackUnderrun == tracker.lost == 0 && !tracker.have
    {
      fifo, received, malformed, netUnderrun, jackUnderrun := [], 0, 0, 0, 0;
      tracker := tracker.(have := false, lost := 0);
      trace := NO_TRACE;
    }

    /** All or nothing. */
    method WritePayload(payload: seq<Byte>) returns (ok: bool)
      modifies `fifo, `trace, `netUnderrun
      ensures ok <==> payload != [] && |old(fifo)| + |payload| <= room
      ensures ok ==>
                && fifo == old(fifo) + payload && netUnderrun == old(netUnderrun)
                && trace == old(trace).(written := old(trace).written + payload)
      ensures !ok ==>
                && fifo == old(fifo) && trace == old(trace)
                && netUnderrun == old(netUnderrun) + if payload == [] then 0 else 1
    {
      if payload == [] {
        return false;
      }
      if room - |fifo| < |payload| {
        netUnderrun := netUnderrun + 1;
        return false;
      }
      fifo := fifo + payload;
      trace := trace.(written := trace.written + payload);
      return true;
    }

    method CapturePacket(frame: seq<Byte>)
      modifies this
      ensures State() == JackStep(old(State()), frame, room)
      ensures var c := C.ReacChannels(frame); var taken := c != 0 && (old(dataSize) == 0 || old(dataSize) == 36 * c);
              var fits := |old(fifo)| + 36 * c <= room;
              && fifo == (if taken && fits then old(fifo) + C.PayloadOf(frame) else old(fifo))
              && netUnderrun == old(netUnderrun) + (if taken && !fits then 1 else 0)
    {
      C.JackByBytes(State(), frame, room);
      var parse := ParsePacket(frame);
      if parse == Rejected(NotReac) {
        nonReac := nonReac + 1;
        return;
      }
      if parse.Rejected? {
        malformed := malformed + 1;
        return;
      }
      AcceptedExactly(frame);
      Accept(parse.view);
    }

    method Accept(v: View)
      requires v.payload != []
      modifies this
      ensures State() == JackAccept(old(State()), v, room)
    {
      if dataSize == 0 {
        dataSize := |v.payload|;
        channels := v.channels;
      } else if dataSize != |v.payload| {
        malformed := malformed + 1;
        return;
      }
      received := received + 1;
      tracker := Note(tracker, v.counter);
      trace := trace.(noted := trace.noted + [v.counter]);
      var _ := WritePayload(v.payload);
    }

    /**
      One period. Either the block was there and the ports hold its decoded
      samples, or they are silent; the state moves as JackProcess says.
     */
    method Process(nframes: nat, ports: seq<array?<real>>)
      requires JackInv(State()) && |ports| == MAX_CHANNELS && Decoder.Buffers(ports, nframes)
      modifies this, set i | 0 <= i < |ports| && ports[i] != null :: ports[i]
      ensures JackInv(State()) && channels == old(channels) <= MAX_CHANNELS
      ensures State() == JackProcess(old(State()), nframes, processBytes, AllThere(ports, channels))
      ensures trace.played == old(trace).played && nframes > 0 ==>
                Silent(ports, if channels == 0 then MAX_CHANNELS else channels, nframes)
      ensures trace.played != old(trace).played ==>
                Heard(ports, channels, nframes, old(trace).played, trace.played)
      ensures var size := channels * nframes * 3;
              var there := channels != 0 && size <= processBytes && size <= |old(fifo)|;
              && fifo == (if there then old(fifo)[size..] else old(fifo))
              && |trace.played| == |old(trace).played| + (if there && AllThere(ports, channels) then nframes else 0)
              && jackUnderrun == old(jackUnderrun) + (if channels != 0 && !there then 1 else 0)
    {
      PlaysExactlyWhen(State(), nframes, processBytes, AllThere(ports, channels));
      JackProcessKeeps(State(), nframes, processBytes, AllThere(ports, channels));
      Period(nframes, ports);
    }

    method Period(nframes: nat, ports: seq<array?<real>>)
      requires Configured(channels) && (channels == 0 <==> dataSize == 0)
      requires |ports| == MAX_CHANNELS && Decoder.Buffers(ports, nframes)
      modifies this, set i | 0 <= i < |ports| && ports[i] != null :: ports[i]
      ensures channels == old(channels)
      ensures State() == JackProcess(old(State()), nframes, processBytes, AllThere(ports, channels))
      ensures trace.played == old(trace).played && nframes > 0 ==>
                Silent(ports, if channels == 0 then MAX_CHANNELS else channels, nframes)
      ensures trace.played != old(trace).played ==>
                Heard(ports, channels, nframes, old(trace).played, trace.played)
    {
      if channels == 0 || dataSize == 0 {
        SilenceOutputs(nframes, MAX_CHANNELS, ports);
        return;
      }
      var size := PayloadBytes(channels, nframes);
      PayloadBytesSlot(channels, nframes);
      if size > processBytes {
        Underrun(nframes, ports);
        return;
      }
      if |fifo| < size {
        ShortRead(nframes, ports);
        return;
      }
      PlayFront(size, nframes, ports);
    }

    /** Too few bytes: the count of received packets restarts from the frames there are. */
    method ShortRead(nframes: nat, ports: seq<array?<real>>)
      requires Supported(channels) && |ports| == MAX_CHANNELS && Decoder.Buffers(ports, nframes)
      modifies `jackUnderrun, `received, `trace, set i | 0 <= i < |ports| && ports[i] != null :: ports[i]
      ensures var found := BufferedFrames(|fifo|, BYTES_PER_SAMPLE * channels);
              State() == old(State()).(jackUnderrun := old(jackUnderrun) + 1, received := found,
                                       shortFrames := found, shortAt := |old(trace).noted|)
      ensures trace.played == old(trace).played && Silent(ports, channels, nframes)
    {
      received := BufferedFrames(|fifo|, BYTES_PER_SAMPLE * channels);
      trace := trace.(shortFrames := received, shortAt := |trace.noted|);
      Underrun(nframes, ports);
    }

    /** The block is there: it leaves the FIFO, and is played if every port has a buffer. */
    method PlayFront(size: nat, nframes: nat, ports: seq<array?<real>>)
      requires Supported(channels) && size == Slot(nframes, BYTES_PER_SAMPLE * channels, 0) && size <= |fifo|
      requires |ports| == MAX_CHANNELS && Decoder.Buffers(ports, nframes)
      modifies `fifo, `trace, set i | 0 <= i < |ports| && ports[i] != null :: ports[i]
      ensures var s := old(State());
              State() == if AllThere(ports, channels)
                         then s.(fifo := s.fifo[size..], played := s.played + DecodeFrames(s.fifo[..size], s.channels))
                         else s.(fifo := s.fifo[size..], lostBlocks := s.lostBlocks + 1)
      ensures trace.played == old(trace).played && nframes > 0 ==> Silent(ports, channels, nframes)
      ensures trace.played != old(trace).played ==>
                Heard(ports, channels, nframes, old(trace).played, trace.played)
    {
      var block := fifo[..size];
      fifo := fifo[size..];
      Play(block, nframes, ports);
    }

    method Underrun(nframes: nat, ports: seq<array?<real>>)
      requires Supported(channels) && |ports| == MAX_CHANNELS && Decoder.Buffers(ports, nframes)
      modifies `jackUnderrun, set i | 0 <= i < |ports| && ports[i] != null :: ports[i]
      ensures jackUnderrun == old(jackUnderrun) + 1 && Silent(ports, channels, nframes)
    {
      jackUnderrun := jackUnderrun + 1;
      SilenceOutputs(nframes, channels, ports);
    }

    /** Decode the block into the port buffers, or play silence when one of them is missing. */
    method Play(block: seq<Byte>, nframes: nat, ports: seq<array?<real>>)
      requires Supported(channels) && |block| == Slot(nframes, BYTES_PER_SAMPLE * channels, 0)
      requires |ports| == MAX_CHANNELS && Decoder.Buffers(ports, nframes)
      modifies `trace, set i | 0 <= i < |ports| && ports[i] != null :: ports[i]
      ensures trace == if AllThere(ports, channels)
                       then old(trace).(played := old(trace).played + DecodeFrames(block, channels))
                       else old(trace).(lostBlocks := old(trace).lostBlocks + 1)
      ensures trace.played == old(trace).played && nframes > 0 ==> Silent(ports, channels, nframes)
      ensures trace.played != old(trace).played ==>
                Heard(ports, channels, nframes, old(trace).played, trace.played)
    {
      var status := Decoder.DecodeToChannels(block, channels, nframes, ports);
      if status != Ok {
        SilenceOutputs(nframes, channels, ports);
        trace := trace.(lostBlocks := trace.lostBlocks + 1);
      } else {
        trace := trace.(played := trace.played + DecodeFrames(block, channels));
      }
    }
  }
}
