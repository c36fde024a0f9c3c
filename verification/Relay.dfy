/** The egress relay: bytes copied between two connections over a stream of frames, in both directions. */
module Relay {
  import opened Common

  type Bytes = seq<Byte>

  /** A frame of the relay proper, after the one that announced the connection id. */
  datatype Frame = Frame(data: Bytes, close: bool)

  function DataOf(frames: seq<Frame>): Bytes {
    if frames == [] then [] else frames[0].data + DataOf(frames[1..])
  }

  /** The loop that reads a connection and sends frames. */
  datatype Reader = Reading | Sending(data: Bytes, eof: bool) | Closing | Stopped

  /** The loop that receives frames and writes a connection. */
  datatype Writer = Receiving | Writing(data: Bytes, close: bool) | Exited(onClose: bool)

  /** One direction of a relay: what its reader has read and its writer has written so far, and the frames between. */
  datatype Pump = Pump(read: Bytes, reader: Reader, channel: seq<Frame>, writer: Writer, written: Bytes)

  const IDLE := Pump([], Reading, [], Receiving, [])

  datatype Event =
    | Read(data: Bytes, eof: bool)  // a read returns data, an error or end of file, or both
    | Send(ok: bool)                // sending the data just read
    | SendClose(ok: bool)
    | Receive
    | ReceiveError
    | Write(n: nat)                 // a write takes all the data, or fails after `n` bytes

  predicate Enabled(p: Pump, e: Event) {
    match e
    case Read(_, _) => p.reader.Reading?
    case Send(_) => p.reader.Sending?
    case SendClose(_) => p.reader.Closing?
    case Receive => p.writer.Receiving? && p.channel != []
    case ReceiveError => p.writer.Receiving?
    case Write(n) => p.writer.Writing? && n <= |p.writer.data|
  }

  function AfterData(eof: bool): Reader { if eof then Closing else Reading }

  function Next(p: Pump, e: Event): Pump {
    if !Enabled(p, e) then p else
    match e
    case Read(data, eof) =>
      p.(read := p.read + data, reader := if data != [] then Sending(data, eof) else AfterData(eof))
    case Send(ok) =>
      if ok then p.(channel := p.channel + [Frame(p.reader.data, false)], reader := AfterData(p.reader.eof))
      else p.(reader := Stopped)
    case SendClose(ok) =>
      p.(channel := if ok then p.channel + [Frame([], true)] else p.channel, reader := Stopped)
    case Receive =>
      var f := p.channel[0];
      p.(channel := p.channel[1..],
         writer := if f.data != [] then Writing(f.data, f.close) else if f.close then Exited(true) else Receiving)
    case ReceiveError => p.(writer := Exited(false))
    case Write(n) =>
      if n == |p.writer.data|
      then p.(written := p.written + p.writer.data, writer := if p.writer.close then Exited(true) else Receiving)
      else p.(written := p.written + p.writer.data[..n], writer := Exited(false))
  }

  function After(events: seq<Event>): Pump {
    if events == [] then IDLE else Next(After(events[..|events| - 1]), events[|events| - 1])
  }

  // ----- The invariant -----

  /** Received or in transit, but not yet written. */
  function Pending(p: Pump): Bytes { (if p.writer.Writing? then p.writer.data else []) + DataOf(p.channel) }

  /** A close frame is or was the last thing sent. */
  predicate CloseSent(p: Pump) {
    || (exists i :: 0 <= i < |p.channel| && p.channel[i].close)
    || (p.writer.Writing? && p.writer.close)
    || p.writer == Exited(true)
  }

  predicate CloseIsLast(p: Pump) {
    && (forall i | 0 <= i < |p.channel| - 1 :: !p.channel[i].close)
    && ((p.writer.Writing? && p.writer.close) || p.writer == Exited(true) ==> p.channel == [])
  }

  predicate Invariant(p: Pump) {
    && CloseIsLast(p)
    && (CloseSent(p) ==> p.reader.Stopped?)
    && (p.writer == Exited(false) ==> p.written <= p.read)
    && (p.writer != Exited(false) ==>
          match p.reader
          case Sending(data, _) => p.written + Pending(p) + data == p.read
          case Stopped =>
            p.written + Pending(p) <= p.read && (CloseSent(p) ==> p.written + Pending(p) == p.read)
          case _ => p.written + Pending(p) == p.read)
  }

  lemma {:induction false} DataOfSnoc(frames: seq<Frame>, f: Frame)
    ensures DataOf([]) == [] && DataOf(frames + [f]) == DataOf(frames) + f.data
  {
    if frames == [] {
      assert [f][1..] == [];
    } else {
      assert (frames + [f])[1..] == frames[1..] + [f];
      DataOfSnoc(frames[1..], f);
    }
  }

  lemma {:induction false} InvariantHolds(events: seq<Event>)
    ensures Invariant(After(events))
  {
    if events != [] {
      InvariantHolds(events[..|events| - 1]);
      InvariantKept(After(events[..|events| - 1]), events[|events| - 1]);
    }
  }

  lemma InvariantKept(p: Pump, e: Event)
    requires Invariant(p)
    ensures Invariant(Next(p, e))
  {
    if Enabled(p, e) {
      match e
      case Read(_, _) =>
      case Send(ok) => if ok { SendKeeps(p, Frame(p.reader.data, false)); }
      case SendClose(ok) => if ok { SendKeeps(p, Frame([], true)); }
      case Receive => ReceiveKeeps(p);
      case ReceiveError =>
      case Write(n) => WriteKeeps(p, n);
    }
  }

  lemma SendKeeps(p: Pump, f: Frame)
    requires Invariant(p)
    requires (f == Frame([], true) && p.reader.Closing?) || (p.reader.Sending? && f == Frame(p.reader.data, false))
    ensures var reader := if f.close then Stopped else AfterData(p.reader.eof);
            Invariant(p.(channel := p.channel + [f], reader := reader))
  {
    DataOfSnoc(p.channel, f);
    assert !CloseSent(p);
    var channel := p.channel + [f];
    assert forall i | 0 <= i < |p.channel| :: channel[i] == p.channel[i];
  }

  lemma ReceiveKeeps(p: Pump)
    requires Invariant(p) && Enabled(p, Receive)
    ensures Invariant(Next(p, Receive))
  {
    var p' := Next(p, Receive);
    assert forall i | 0 <= i < |p'.channel| :: p'.channel[i] == p.channel[i + 1];
    assert Pending(p') == Pending(p);
    if p.channel[0].close {
      assert p'.channel == [];
    } else {
      assert CloseSent(p') <==> CloseSent(p);
    }
  }

  lemma WriteKeeps(p: Pump, n: nat)
    requires Invariant(p) && Enabled(p, Write(n))
    ensures Invariant(Next(p, Write(n)))
  {
    var p', data := Next(p, Write(n)), p.writer.data;
    assert p.written + Pending(p) == p.written + data + DataOf(p.channel);
    if n == |data| {
      assert p'.written + Pending(p') == p.written + Pending(p);
    } else {
      assert p'.written <= p.written + Pending(p);
    }
  }

  // ----- Both directions together -----

  /** `down` carries the target's bytes to the client, `up` the client's bytes to the target. */
  datatype Relay = Relay(down: Pump, up: Pump)

  datatype Step = Down(e: Event) | Up(e: Event)

  function RelayAfter(steps: seq<Step>): Relay {
    if steps == [] then Relay(IDLE, IDLE)
    else
      var r := RelayAfter(steps[..|steps| - 1]);
      match steps[|steps| - 1]
      case Down(e) => r.(down := Next(r.down, e))
      case Up(e) => r.(up := Next(r.up, e))
  }

  lemma {:induction false} RelayInvariant(steps: seq<Step>)
    ensures Invariant(RelayAfter(steps).down) && Invariant(RelayAfter(steps).up)
  {
    if steps != [] {
      var r := RelayAfter(steps[..|steps| - 1]);
      RelayInvariant(steps[..|steps| - 1]);
      match steps[|steps| - 1]
      case Down(e) => InvariantKept(r.down, e);
      case Up(e) => InvariantKept(r.up, e);
    }
  }

  /** In every reachable state each side has been written a prefix of what the other side was read from,
      whatever fails and wherever: nothing is reordered, duplicated or invented. */
  lemma RelayIsPrefixSafe(steps: seq<Step>)
    ensures RelayAfter(steps).down.written <= RelayAfter(steps).down.read
    ensures RelayAfter(steps).up.written <= RelayAfter(steps).up.read
  {
    RelayInvariant(steps);
    PrefixSafe(RelayAfter(steps).down);
    PrefixSafe(RelayAfter(steps).up);
  }

  lemma PrefixSafe(p: Pump)
    requires Invariant(p)
    ensures p.written <= p.read
  {
    assert p.writer != Exited(false) ==> p.written <= p.written + Pending(p) <= p.read;
  }

  /** A loop that exits because it received a close frame has written everything its peer ever read. */
  lemma CloseIsComplete(steps: seq<Step>)
    ensures var down, up := RelayAfter(steps).down, RelayAfter(steps).up;
            && (down.writer == Exited(true) ==> down.written == down.read)
            && (up.writer == Exited(true) ==> up.written == up.read)
  {
    RelayInvariant(steps);
  }

  // ----- When nothing fails -----

  /** Event `e` is none of the failures. */
  predicate Faultless(p: Pump, e: Event) {
    match e
    case Read(_, _) => true
    case Send(ok) => ok
    case SendClose(ok) => ok
    case Receive => true
    case ReceiveError => false
    case Write(n) => p.writer.Writing? ==> n == |p.writer.data|
  }

  predicate AllFaultless(events: seq<Event>) {
    events == []
    || (AllFaultless(events[..|events| - 1]) && Faultless(After(events[..|events| - 1]), events[|events| - 1]))
  }

  /** Nothing is left to do but what a failure would do. */
  ghost predicate AtRest(p: Pump) { forall e | Faultless(p, e) :: !Enabled(p, e) }

  lemma {:induction false} FaultlessWaits(events: seq<Event>)
    requires AllFaultless(events)
    ensures var p := After(events); p.writer != Exited(false) && (p.reader.Stopped? ==> CloseSent(p))
  {
    if events != [] {
      var before := events[..|events| - 1];
      FaultlessWaits(before);
      InvariantHolds(before);
      FaultlessStep(After(before), events[|events| - 1]);
    }
  }

  lemma FaultlessStep(p: Pump, e: Event)
    requires Invariant(p) && Faultless(p, e) && p.writer != Exited(false) && (p.reader.Stopped? ==> CloseSent(p))
    ensures var p' := Next(p, e); p'.writer != Exited(false) && (p'.reader.Stopped? ==> CloseSent(p'))
  {
    var p' := Next(p, e);
    if Enabled(p, e) {
      if e.SendClose? { assert p'.channel[|p.channel|].close; }
      if e.Receive? && p.reader.Stopped? {
        var i :| (0 <= i < |p.channel| && p.channel[i].close) || i == -1;
        if i > 0 { assert p'.channel[i - 1].close; }
      }
    }
  }

  /** A run without failures comes to rest only when all is done: the reader has closed, the writer has exited on the
      close, and everything read was written. */
  lemma FaultlessIsComplete(events: seq<Event>)
    requires AllFaultless(events) && AtRest(After(events))
    ensures var p := After(events); p.reader.Stopped? && p.writer == Exited(true) && p.written == p.read
  {
    var p := After(events);
    FaultlessWaits(events);
    InvariantHolds(events);
    assert !Enabled(p, Read([], false)) && !Enabled(p, Send(true)) && !Enabled(p, SendClose(true));
    assert !Enabled(p, Receive);
    var e := Write(if p.writer.Writing? then |p.writer.data| else 0);
    assert Faultless(p, e) && !Enabled(p, e);
  }

  /** The reading loop sends what it reads, reads on after data, and closes after the end of file or an error. */
  lemma ReaderSteps(p: Pump, data: Bytes, eof: bool)
    requires p.reader.Reading?
    ensures var p1 := Next(p, Read(data, eof));
            && p1.read == p.read + data && p1.channel == p.channel && p1.writer == p.writer && p1.written == p.written
            && (data == [] ==> p1.reader == if eof then Closing else Reading)
            && (data != [] ==>
                  var p2 := Next(p1, Send(true));
                  && p2.channel == p.channel + [Frame(data, false)]
                  && p2.reader == if eof then Closing else Reading)
  {
  }

  // ----- The two loops themselves -----

  datatype ReadResult = ReadResult(data: Bytes, eof: bool)

  function Total(results: seq<ReadResult>): Bytes {
    if results == [] then [] else Total(results[..|results| - 1]) + results[|results| - 1].data
  }

  lemma TotalSnoc(results: seq<ReadResult>, r: ReadResult)
    ensures Total([]) == [] && Total(results + [r]) == Total(results) + r.data
  {
    assert (results + [r])[..|results|] == results;
  }

  /** The pieces of data read, in order; a read without data gives none. */
  function Chunks(results: seq<ReadResult>): seq<Bytes> {
    if results == [] then []
    else
      var n := |results| - 1;
      Chunks(results[..n]) + if results[n].data != [] then [results[n].data] else []
  }

  lemma ChunksSnoc(results: seq<ReadResult>, r: ReadResult)
    ensures Chunks([]) == []
    ensures Chunks(results + [r]) == if r.data != [] then Chunks(results) + [r.data] else Chunks(results)
  {
    assert (results + [r])[..|results|] == results;
  }

  /** One data frame for each piece. */
  function DataFrames(chunks: seq<Bytes>): (frames: seq<Frame>)
    ensures |frames| == |chunks| && forall i | 0 <= i < |chunks| :: frames[i] == Frame(chunks[i], false)
  {
    seq(|chunks|, i requires 0 <= i < |chunks| => Frame(chunks[i], false))
  }

  predicate NoClose(frames: seq<Frame>) { forall f | f in frames :: !f.close }

  const CLOSE := Frame([], true)

  /** Frames without a close, or with a single one, at the end, sent after all of `data`. */
  predicate ClosedOnlyAfterAll(frames: seq<Frame>, data: Bytes) {
    NoClose(frames)
    || (frames != [] && frames[|frames| - 1] == CLOSE && NoClose(frames[..|frames| - 1]) && DataOf(frames) == data)
  }

  lemma CloseAfterAll(frames: seq<Frame>)
    requires NoClose(frames)
    ensures ClosedOnlyAfterAll(frames + [CLOSE], DataOf(frames)) && DataOf(frames + [CLOSE]) == DataOf(frames)
    ensures !NoClose(frames + [CLOSE])
  {
    DataOfSnoc(frames, CLOSE);
    assert (frames + [CLOSE])[..|frames|] == frames;
    assert CLOSE in frames + [CLOSE];
  }

  /** After `made` reads, `frames` carry a first part of what was read, and all of it once they close; while
      sends still succeed the loop goes on to its last read, or to the end of file, which closes. */
  predicate Copied(results: seq<ReadResult>, made: nat, frames: seq<Frame>, sending: bool)
    requires made <= |results|
  {
    && DataOf(frames) <= Total(results[..made])
    && ClosedOnlyAfterAll(frames, Total(results[..made]))
    && (!NoClose(frames) ==> made > 0 && results[made - 1].eof)
    && (NoClose(frames) && sending ==> made == |results| && DataOf(frames) == Total(results))
  }

  /** How the reading loop ends after `made` reads: it sent one frame per piece of data, in order, and either the last
      read was an end of file, which it closes on if that send succeeds; or sending the last piece failed; or there
      is nothing more to read. */
  predicate CopyEnd(results: seq<ReadResult>, sends: nat, made: nat, frames: seq<Frame>)
    requires made <= |results|
  {
    var chunks := Chunks(results[..made]);
    || (made > 0 && results[made - 1].eof && |chunks| <= sends
        && frames == DataFrames(chunks) + (if |chunks| < sends then [CLOSE] else []))
    || (made > 0 && results[made - 1].data != [] && |chunks| == sends + 1 && frames == DataFrames(chunks[..sends]))
    || (made == |results| && (made > 0 ==> !results[made - 1].eof) && |chunks| <= sends && frames == DataFrames(chunks))
  }

  predicate SentAll(results: seq<ReadResult>, made: nat, frames: seq<Frame>)
    requires made <= |results|
  {
    frames == DataFrames(Chunks(results[..made]))
  }

  /** Connection to stream: the loop run on the results its reads will give, with the first `sends` sends
      succeeding.  Returns how many reads it made, up to the first end of file, and the frames it sent. */
  method CopyToStream(results: seq<ReadResult>, sends: nat) returns (made: nat, frames: seq<Frame>)
    ensures made <= |results|
    ensures forall m | 0 <= m < made - 1 :: !results[m].eof
    ensures CopyEnd(results, sends, made, frames)
  {
    made, frames := 0, [];
    while made < |results|
      invariant made <= |results| && |frames| <= sends
      invariant forall m | 0 <= m < made :: !results[m].eof
      invariant SentAll(results, made, frames)
    {
      var r := results[made];
      ReadOn(results, made, frames);
      made := made + 1;
      if r.data != [] {
        if |frames| == sends {
          EndsUnsent(results, sends, made, frames);
          return;
        }
        frames := frames + [Frame(r.data, false)];
      }
      if r.eof {
        EndsAtEof(results, sends, made, frames);
        if |frames| < sends { frames := frames + [CLOSE]; }
        return;
      }
    }
  }

  lemma ReadOn(results: seq<ReadResult>, made: nat, frames: seq<Frame>)
    requires made < |results| && SentAll(results, made, frames)
    ensures var data := results[made].data;
            SentAll(results, made + 1, if data != [] then frames + [Frame(data, false)] else frames)
  {
    var before := results[..made];
    assert results[..made + 1] == before + [results[made]];
    ChunksSnoc(before, results[made]);
    DataFramesSnoc(Chunks(before), results[made].data);
  }

  lemma EndsUnsent(results: seq<ReadResult>, sends: nat, made: nat, frames: seq<Frame>)
    requires 0 < made <= |results| && results[made - 1].data != []
    requires SentAll(results, made - 1, frames) && |frames| == sends
    ensures CopyEnd(results, sends, made, frames)
  {
    var before := results[..made - 1];
    assert results[..made] == before + [results[made - 1]];
    ChunksSnoc(before, results[made - 1]);
    assert Chunks(results[..made])[..sends] == Chunks(before);
  }

  lemma EndsAtEof(results: seq<ReadResult>, sends: nat, made: nat, frames: seq<Frame>)
    requires 0 < made <= |results| && results[made - 1].eof && SentAll(results, made, frames) && |frames| <= sends
    ensures CopyEnd(results, sends, made, if |frames| < sends then frames + [CLOSE] else frames)
  {
    assert frames + [] == frames;
  }

  /** What the loop sent, in terms of what it read: a first part of it, piece by piece, all of it once it closes, and
      all of it if sends still succeed.  It closes on an end of file, if it still can, and on nothing else. */
  lemma CopyIsFaithful(results: seq<ReadResult>, sends: nat, made: nat, frames: seq<Frame>)
    requires made <= |results| && CopyEnd(results, sends, made, frames)
    ensures |frames| <= sends && Copied(results, made, frames, |frames| < sends)
    ensures forall i | 0 <= i < |frames| && !frames[i].close ::
              i < |Chunks(results[..made])| && frames[i].data == Chunks(results[..made])[i]
    ensures |frames| < sends ==>
              if made > 0 && results[made - 1].eof
              then |frames| == |Chunks(results[..made])| + 1 && frames[|frames| - 1] == Frame([], true)
              else |frames| == |Chunks(results[..made])| && made == |results| && forall f | f in frames :: !f.close
  {
    var chunks := Chunks(results[..made]);
    DataOfChunks(results[..made]);
    assert made == |results| ==> results[..made] == results;
    if |chunks| == sends + 1 {
      DataOfFirstChunks(chunks, sends);
    } else if |chunks| < sends && made > 0 && results[made - 1].eof {
      CloseAfterAll(DataFrames(chunks));
    } else {
      assert DataFrames(chunks) + [] == DataFrames(chunks);
    }
  }

  lemma DataFramesSnoc(chunks: seq<Bytes>, data: Bytes)
    ensures DataFrames(chunks + [data]) == DataFrames(chunks) + [Frame(data, false)]
  {
  }

  lemma {:induction false} DataOfChunks(results: seq<ReadResult>)
    ensures DataOf(DataFrames(Chunks(results))) == Total(results)
  {
    if results != [] {
      var before, r := results[..|results| - 1], results[|results| - 1];
      DataOfChunks(before);
      assert results == before + [r];
      TotalSnoc(before, r);
      ChunksSnoc(before, r);
      DataFramesSnoc(Chunks(before), r.data);
      DataOfSnoc(DataFrames(Chunks(before)), Frame(r.data, false));
    } else {
      assert DataFrames([]) == [];
    }
  }

  lemma DataOfFirstChunks(chunks: seq<Bytes>, n: nat)
    requires n <= |chunks|
    ensures DataOf(DataFrames(chunks[..n])) <= DataOf(DataFrames(chunks))
  {
    assert DataFrames(chunks)[..n] == DataFrames(chunks[..n]) && DataFrames(chunks)[..|chunks|] == DataFrames(chunks);
    DataOfPrefix(DataFrames(chunks), n, |chunks|);
  }

  lemma DataOfPrefix(frames: seq<Frame>, i: nat, j: nat)
    requires i <= j <= |frames|
    ensures DataOf(frames[..i]) <= DataOf(frames[..j])
  {
    DataOfSplit(frames[..j], i);
    assert frames[..j][..i] == frames[..i];
  }

  /** How the writing loop ends: at the first close, all data up to it written, that frame's own included; or at the
      end of the frames, all data written; or when the connection takes no more. */
  predicate WriteEnd(frames: seq<Frame>, room: nat, written: Bytes, onClose: bool) {
    && (forall n: nat | n < |frames| && frames[n].close && (forall m | 0 <= m < n :: !frames[m].close) ::
          written == Take(DataOf(frames[..n + 1]), room) && (onClose <==> |DataOf(frames[..n + 1])| <= room))
    && (NoClose(frames) ==> written == Take(DataOf(frames), room) && !onClose)
  }

  /** Stream to connection: the loop run on the frames that arrive before the stream ends or breaks, over a
      connection that takes `room` more bytes and then fails. */
  method CopyFromStream(frames: seq<Frame>, room: nat) returns (written: Bytes, onClose: bool)
    ensures WriteEnd(frames, room, written, onClose)
    ensures written <= DataOf(frames) && |written| <= room
  {
    written, onClose := [], false;
    var i := 0;
    assert frames[..0] == [];
    while i < |frames|
      invariant i <= |frames| && |written| <= room
      invariant forall m | 0 <= m < i :: !frames[m].close
      invariant written == DataOf(frames[..i])
    {
      var f := frames[i];
      assert frames[..i + 1] == frames[..i] + [f];
      DataOfSnoc(frames[..i], f);
      if |written| + |f.data| > room {
        written := written + f.data[..room - |written|];
        WriteFails(frames, room, i, written);
        return;
      }
      written := written + f.data;
      i := i + 1;
      if f.close {
        WriteCloses(frames, room, i, written);
        return written, true;
      }
    }
    assert frames[..i] == frames;
  }

  lemma WriteFails(frames: seq<Frame>, room: nat, i: nat, written: Bytes)
    requires i < |frames| && (forall m | 0 <= m < i :: !frames[m].close)
    requires |DataOf(frames[..i + 1])| > room && written == DataOf(frames[..i + 1])[..room]
    ensures WriteEnd(frames, room, written, false) && written <= DataOf(frames)
  {
    assert frames[..|frames|] == frames;
    DataOfPrefix(frames, i + 1, |frames|);
    forall n: nat | i <= n < |frames| && frames[n].close
      ensures DataOf(frames[..i + 1]) <= DataOf(frames[..n + 1])
    {
      DataOfPrefix(frames, i + 1, n + 1);
    }
  }

  lemma WriteCloses(frames: seq<Frame>, room: nat, i: nat, written: Bytes)
    requires 0 < i <= |frames| && frames[i - 1].close && (forall m | 0 <= m < i - 1 :: !frames[m].close)
    requires |written| <= room && written == DataOf(frames[..i])
    ensures WriteEnd(frames, room, written, true) && written <= DataOf(frames)
  {
    assert frames[..|frames|] == frames;
    DataOfPrefix(frames, i, |frames|);
    assert !NoClose(frames) by { assert frames[i - 1] in frames; }
    forall n: nat | n < |frames| && frames[n].close && (forall m | 0 <= m < n :: !frames[m].close)
      ensures frames[..n + 1] == frames[..i]
    {
      FirstCloseIsUnique(frames, n, i - 1);
    }
  }

  lemma FirstCloseIsUnique(frames: seq<Frame>, n: nat, k: nat)
    requires n < |frames| && frames[n].close && forall m | 0 <= m < n :: !frames[m].close
    requires k < |frames| && frames[k].close && forall m | 0 <= m < k :: !frames[m].close
    ensures n == k
  {
  }

  /** What the writing loop wrote and reported: up to the first close all data, if the connection takes it, and then
      it reports the close; if it takes less, exactly that much, and no close; and without a close likewise. */
  lemma WriteIsExact(frames: seq<Frame>, room: nat, written: Bytes, onClose: bool)
    requires WriteEnd(frames, room, written, onClose)
    ensures forall n: nat | n < |frames| && frames[n].close && (forall m | 0 <= m < n :: !frames[m].close) ::
              var data := DataOf(frames[..n + 1]);
              if |data| <= room then written == data && onClose
              else |written| == room && written <= data && !onClose
    ensures (forall f | f in frames :: !f.close) ==>
              !onClose && written <= DataOf(frames)
              && |written| == if |DataOf(frames)| <= room then |DataOf(frames)| else room
  {
  }

  lemma {:induction false} DataOfSplit(frames: seq<Frame>, i: nat)
    requires i <= |frames|
    ensures DataOf(frames) == DataOf(frames[..i]) + DataOf(frames[i..])
  {
    if i == 0 {
      assert frames[..0] == [] && frames[0..] == frames;
    } else {
      assert frames[..i][1..] == frames[1..][..i - 1] && frames[1..][i - 1..] == frames[i..];
      DataOfSplit(frames[1..], i - 1);
    }
  }
}
