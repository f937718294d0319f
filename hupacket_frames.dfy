/**
 * What the packet parser of HupSpec does with whole frames: the records of a
 * well-formed frame reach the handler exactly as they were sent, the echoed
 * header reproduces the request's header, and the places where the C code
 * writes outside `buffer` or `argv` are exhibited by concrete inputs.
 */
module HupFrames {
  import opened Options
  import opened CText
  import opened Crc
  import opened HupSpec
  import opened HupRecords

  // ---------------------------------------------------------------------------
  // Running the parser over pieces

  /** One more byte added to a trace. */
  function Step(t: Trace, ch: Byte, registry: seq<string>): (u: Trace)
    requires HupSpec.Valid(t.rx)
  {
    var o := Receive(t.rx, ch, registry);
    Trace(o.rx, t.calls + (if o.call.Some? then [o.call.value] else []), t.overrun || o.overrun)
  }

  /** Feeding `d + [ch]` feeds `d`, then `ch`. */
  lemma RunSnoc(r: Rx, d: seq<Byte>, ch: Byte, registry: seq<string>)
    requires HupSpec.Valid(r)
    ensures Run(r, d + [ch], registry) == Step(Run(r, d, registry), ch, registry)
  {
    assert (d + [ch])[..|d|] == d;
  }

  lemma SnocSplit(a: seq<Byte>, b: seq<Byte>)
    requires b != []
    ensures b == b[..|b| - 1] + [b[|b| - 1]]
    ensures a + b == (a + b[..|b| - 1]) + [b[|b| - 1]]
  {
  }

  /** Feeding `a` and then `b` is feeding `a + b`. */
  lemma {:induction false} RunAppend(r: Rx, a: seq<Byte>, b: seq<Byte>, registry: seq<string>)
    requires HupSpec.Valid(r)
    ensures var t1 := Run(r, a, registry);
            var t2 := Run(t1.rx, b, registry);
            Run(r, a + b, registry) == Trace(t2.rx, t1.calls + t2.calls, t1.overrun || t2.overrun)
    decreases |b|
  {
    var t1 := Run(r, a, registry);
    if b == [] {
      assert a + b == a;
    } else {
      var b' := b[..|b| - 1];
      var c := b[|b| - 1];
      RunAppend(r, a, b', registry);
      SnocSplit(a, b);
      RunSnoc(r, a + b', c, registry);
      RunSnoc(t1.rx, b', c, registry);
      var t2 := Run(t1.rx, b', registry);
      var o := Receive(t2.rx, c, registry);
      var extra := if o.call.Some? then [o.call.value] else [];
      assert t1.calls + t2.calls + extra == t1.calls + (t2.calls + extra);
    }
  }

  /** Two pieces that call no handler and do not overrun, fed one after the
      other. */
  lemma RunAppendQuiet(r: Rx, a: seq<Byte>, b: seq<Byte>, r1: Rx, r2: Rx, registry: seq<string>)
    requires HupSpec.Valid(r)
    requires Run(r, a, registry) == Trace(r1, [], false)
    requires Run(r1, b, registry) == Trace(r2, [], false)
    ensures Run(r, a + b, registry) == Trace(r2, [], false)
  {
    RunAppend(r, a, b, registry);
    assert Run(r, a, registry).calls + Run(r1, b, registry).calls == [];
  }

  /** A data byte inside a frame that still has room is stored. */
  lemma DataStep(r: Rx, c: Byte, registry: seq<string>)
    requires InFrame(r) && r.state < |r.buf| && DataByte(c)
    ensures Step(Trace(r, [], false), c, registry)
            == Trace(r.(buf := r.buf[r.state := c], state := r.state + 1), [], false)
  {
  }

  /** The handle once `data` is stored at its current offset. */
  function Stored(r: Rx, data: seq<Byte>): Rx
    requires 0 <= r.state && r.state + |data| <= |r.buf|
  {
    r.(buf := r.buf[..r.state] + data + r.buf[r.state + |data|..], state := r.state + |data|)
  }

  lemma WriteAfter(buf: seq<Byte>, s: nat, d: seq<Byte>, c: Byte)
    requires s + |d| < |buf|
    ensures (buf[..s] + d + buf[s + |d|..])[s + |d| := c] == buf[..s] + (d + [c]) + buf[s + |d| + 1..]
  {
  }

  /** Storing one more byte after `init`. */
  lemma StoreNext(r: Rx, init: seq<Byte>, c: Byte)
    requires 0 <= r.state && r.state + |init| < |r.buf|
    ensures var rI := Stored(r, init);
            Stored(r, init + [c]) == rI.(buf := rI.buf[rI.state := c], state := rI.state + 1)
  {
    WriteAfter(r.buf, r.state, init, c);
  }

  /** Data bytes inside a frame are stored one after the other while they fit;
      nothing else changes and no handler runs. */
  lemma {:induction false} FeedData(r: Rx, data: seq<Byte>, registry: seq<string>)
    requires InFrame(r) && r.state + |data| <= |r.buf|
    requires forall i | 0 <= i < |data| :: DataByte(data[i])
    ensures Run(r, data, registry) == Trace(Stored(r, data), [], false)
    decreases |data|
  {
    if data == [] {
      assert r.buf[..r.state] + data + r.buf[r.state..] == r.buf;
    } else {
      var init := data[..|data| - 1];
      var c := data[|data| - 1];
      SnocSplit([], data);
      assert data == init + [c];
      RunSnoc(r, init, c, registry);
      FeedData(r, init, registry);
      DataStep(Stored(r, init), c, registry);
      StoreNext(r, init, c);
    }
  }

  /** The handle once a record separator is stored: a new argument one past
      it. */
  function Marked(r: Rx): Rx
    requires 0 <= r.state < |r.buf|
  {
    r.(argv := r.argv + [r.state + 1], buf := r.buf[r.state := RECORD_MARK], state := r.state + 1)
  }

  /** One record separator inside a frame with room: a new argument one past
      it, the separator itself stored. */
  lemma MarkRun(r: Rx, registry: seq<string>)
    requires InFrame(r) && |r.argv| < ARGV_SIZE && r.state < |r.buf|
    ensures Run(r, [RECORD_MARK], registry) == Trace(Marked(r), [], false)
  {
    RunSnoc(r, [], RECORD_MARK, registry);
    assert [] + [RECORD_MARK] == [RECORD_MARK];
  }

  /** STX in the idle state opens a frame with one record starting at 0. */
  lemma StartRun(r: Rx, registry: seq<string>)
    requires Idle(r)
    ensures Run(r, [START_OF_PACKET], registry) == Trace(Rx(0, [0], false, None, None, r.buf, r.tx), [], false)
  {
    RunSnoc(r, [], START_OF_PACKET, registry);
    assert [] + [START_OF_PACKET] == [START_OF_PACKET];
  }

  /** A record separator followed by a record's data bytes, inside a frame
      with room for both: one more argument, and the bytes stored. */
  lemma RecordRun(r: Rx, rec: seq<Byte>, registry: seq<string>)
    requires InFrame(r) && |r.argv| < ARGV_SIZE && r.state + 1 + |rec| <= |r.buf|
    requires Plain(rec)
    ensures Run(r, [RECORD_MARK] + rec, registry) == Trace(Stored(Marked(r), rec), [], false)
  {
    MarkRun(r, registry);
    FeedData(Marked(r), rec, registry);
    RunAppendQuiet(r, [RECORD_MARK], rec, Marked(r), Stored(Marked(r), rec), registry);
  }

  lemma SpliceAfter(buf: seq<Byte>, s: nat, rec: seq<Byte>)
    requires s + 1 + |rec| <= |buf|
    ensures var b := buf[s := RECORD_MARK];
            b[..s + 1] + rec + b[s + 1 + |rec|..] == buf[..s] + ([RECORD_MARK] + rec) + buf[s + 1 + |rec|..]
  {
  }

  /** The joined bytes of `records` grow by a separator and the last record. */
  lemma JoinSnoc(b: seq<Byte>, records: seq<seq<Byte>>)
    requires |records| >= 2 && Span(records) <= |b|
    ensures var init := records[..|records| - 1];
            var last := records[|records| - 1];
            var s0 := Span(init);
            && [START_OF_PACKET] + JoinWith(records, RECORD_MARK)
               == [START_OF_PACKET] + JoinWith(init, RECORD_MARK) + ([RECORD_MARK] + last)
            && Splice(b, JoinWith(init, RECORD_MARK))[..s0] + ([RECORD_MARK] + last)
                 + Splice(b, JoinWith(init, RECORD_MARK))[s0 + 1 + |last|..]
               == Splice(b, JoinWith(records, RECORD_MARK))
  {
  }

  /** The records with one more at the end: their span, starts and joined
      bytes. */
  lemma SpanNext(records: seq<seq<Byte>>, init: seq<seq<Byte>>, last: seq<Byte>)
    requires |records| >= 2 && init == records[..|records| - 1] && last == records[|records| - 1]
    ensures Span(records) == Span(init) + 1 + |last|
    ensures Starts(records) == Starts(init) + [Span(init) + 1]
    ensures JoinWith(records, RECORD_MARK) == JoinWith(init, RECORD_MARK) + [RECORD_MARK] + last
  {
  }

  /** Writing `j` then a separator and `rec` over `b`, in two steps. */
  lemma SpliceNext(b: seq<Byte>, j: seq<Byte>, s: nat, rec: seq<Byte>)
    requires s == |j| && s + 1 + |rec| <= |b|
    ensures var x := Splice(b, j)[s := RECORD_MARK];
            Splice(b, j + [RECORD_MARK] + rec) == x[..s + 1] + rec + x[s + 1 + |rec|..]
  {
  }

  /** One more record fed: the handle grows by it. */
  lemma FedNext(b: seq<Byte>, records: seq<seq<Byte>>, init: seq<seq<Byte>>, last: seq<Byte>, tx: string)
    requires |records| >= 2 && Span(records) <= |b|
    requires init == records[..|records| - 1] && last == records[|records| - 1]
    ensures Span(init) + 1 + |last| <= |b|
    ensures Fed(b, records, tx) == Stored(Marked(Fed(b, init, tx)), last)
  {
    SpanNext(records, init, last);
    SpliceNext(b, JoinWith(init, RECORD_MARK), Span(init), last);
  }

  lemma AllPlainInit(records: seq<seq<Byte>>)
    requires |records| >= 1 && AllPlain(records)
    ensures AllPlain(records[..|records| - 1]) && Plain(records[|records| - 1])
  {
    var init := records[..|records| - 1];
    forall i | 0 <= i < |init| ensures Plain(init[i]) {
      assert init[i] == records[i];
    }
  }

  /** One record fed: the handle holds it at the front of the buffer. */
  lemma FedOne(b: seq<Byte>, records: seq<seq<Byte>>, tx: string)
    requires |records| == 1 && Span(records) <= |b|
    ensures Fed(b, records, tx) == Stored(Rx(0, [0], false, None, None, b, tx), records[0])
  {
    var rec := records[0];
    assert b[..0] + rec + b[|rec|..] == Splice(b, rec);
  }

  /** After STX and the records joined by RS, the records sit at the front of
      the buffer and `argv` holds their start offsets. */
  lemma {:induction false} FeedRecords(r0: Rx, records: seq<seq<Byte>>, registry: seq<string>)
    requires Idle(r0) && 1 <= |records| <= ARGV_SIZE && AllPlain(records)
    requires Span(records) <= |r0.buf|
    ensures Run(r0, [START_OF_PACKET] + JoinWith(records, RECORD_MARK), registry)
            == Trace(Fed(r0.buf, records, r0.tx), [], false)
    decreases |records|
  {
    var n := |records|;
    var last := records[n - 1];
    AllPlainInit(records);
    if n == 1 {
      var r1 := Rx(0, [0], false, None, None, r0.buf, r0.tx);
      StartRun(r0, registry);
      FeedData(r1, last, registry);
      RunAppend(r0, [START_OF_PACKET], last, registry);
      FedOne(r0.buf, records, r0.tx);
    } else {
      var init := records[..n - 1];
      FeedRecords(r0, init, registry);
      FedNext(r0.buf, records, init, last, r0.tx);
      RecordRun(Fed(r0.buf, init, r0.tx), last, registry);
      JoinSnoc(r0.buf, records);
      RunAppend(r0, [START_OF_PACKET] + JoinWith(init, RECORD_MARK), [RECORD_MARK] + last, registry);
    }
  }

  // ---------------------------------------------------------------------------
  // Whole frames

  /** A frame without a CRC: STX, the records separated by RS, ETX. */
  function Frame(records: seq<seq<Byte>>): seq<Byte>
    requires |records| >= 1
  {
    [START_OF_PACKET] + JoinWith(records, RECORD_MARK) + [END_OF_PACKET]
  }

  /** The calls a trace records for an optional call. */
  function Calls(c: Option<Call>): seq<Call> {
    if c.Some? then [c.value] else []
  }

  /** ETX inside a frame with room for its NUL: process_data on the handle
      with that NUL stored. */
  lemma EndStep(r: Rx, registry: seq<string>)
    requires InFrame(r) && r.state < |r.buf|
    ensures var o := Dispatch(r.(buf := r.buf[r.state := NUL]), registry);
            Run(r, [END_OF_PACKET], registry) == Trace(o.rx, Calls(o.call), o.overrun)
  {
    RunSnoc(r, [], END_OF_PACKET, registry);
    assert [] + [END_OF_PACKET] == [END_OF_PACKET];
  }

  /** ETX after the records of a frame without a CRC mark. */
  lemma EndRun(b: seq<Byte>, records: seq<seq<Byte>>, q: Request, tx: string, registry: seq<string>)
    requires 1 <= |records| <= ARGV_SIZE && AllPlain(records) && Span(records) < |b|
    requires WellFormed(q) && records[0] == Head(q)
    ensures var r := Fed(b, records, tx);
            var t := Run(r, [END_OF_PACKET], registry);
            && InFrame(r)
            && t.calls == Calls(Expected(registry, q, records, true))
            && !t.overrun && Idle(t.rx)
            && t.rx.tx == (if FirstMatch(registry, q.name).Some? then Head(q) else tx)
  {
    var r := Fed(b, records, tx);
    DeliverRequest(b, records, q, tx, registry, true);
    assert r.(buf := r.buf[r.state := NUL]) == AtEnd(b, records, tx);
    EndStep(r, registry);
  }

  /** A frame of plain records whose first record is a header `q`, sent to an
      idle handle: exactly the call the sender expects, nothing written
      outside the buffers, the handle idle again and, when a command was
      called, the request's header echoed in the reply buffer. */
  lemma FrameRoundTrip(r0: Rx, records: seq<seq<Byte>>, q: Request, registry: seq<string>)
    requires Idle(r0) && 1 <= |records| <= ARGV_SIZE && AllPlain(records) && Span(records) < |r0.buf|
    requires WellFormed(q) && records[0] == Head(q)
    ensures var t := Run(r0, Frame(records), registry);
            && t.calls == Calls(Expected(registry, q, records, true))
            && !t.overrun && Idle(t.rx)
            && t.rx.tx == (if FirstMatch(registry, q.name).Some? then Head(q) else r0.tx)
  {
    var body := [START_OF_PACKET] + JoinWith(records, RECORD_MARK);
    FeedRecords(r0, records, registry);
    EndRun(r0.buf, records, q, r0.tx, registry);
    RunAppend(r0, body, [END_OF_PACKET], registry);
  }
}
