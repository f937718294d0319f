/**
 * One byte of process_hupacket (lib/hu/hupacket.c), case by case, and the
 * inputs on which the C code writes outside `buffer`, `argv` or `tx_buffer`.
 * The model never writes there; it raises `overrun` instead, and the lemmas
 * below show the frames that raise it.
 */
module HupSteps {
  import opened Options
  import opened CText
  import opened Crc
  import opened HupSpec
  import opened HupRecords
  import opened HupFrames

  // ---------------------------------------------------------------------------
  // Byte by byte

  /** While idle, every byte but STX is discarded. */
  lemma IdleDiscards(r: Rx, ch: Byte, registry: seq<string>)
    requires Idle(r) && ch != START_OF_PACKET
    ensures Receive(r, ch, registry) == Outcome(r, None, false)
  {
  }

  /** STX while idle opens a frame: one record, starting at offset 0. */
  lemma IdleStarts(r: Rx, registry: seq<string>)
    requires Idle(r)
    ensures Receive(r, START_OF_PACKET, registry) == Outcome(r.(state := 0, argv := [0]), None, false)
  {
  }

  /** Inside a frame STX is ordinary data: it does not restart the frame. */
  lemma StartIsDataInFrame(r: Rx, registry: seq<string>)
    requires InFrame(r) && r.state < |r.buf|
    ensures Receive(r, START_OF_PACKET, registry)
            == Outcome(r.(buf := r.buf[r.state := START_OF_PACKET], state := r.state + 1), None, false)
  {
  }

  /** A data byte is stored while there is room ... */
  lemma DataStored(r: Rx, ch: Byte, registry: seq<string>)
    requires InFrame(r) && DataByte(ch) && r.state < |r.buf|
    ensures Receive(r, ch, registry) == Outcome(r.(buf := r.buf[r.state := ch], state := r.state + 1), None, false)
  {
  }

  /** ... and with the buffer full the frame is dropped without a write. */
  lemma FullDrops(r: Rx, ch: Byte, registry: seq<string>)
    requires InFrame(r) && DataByte(ch) && r.state == |r.buf|
    ensures Receive(r, ch, registry) == Outcome(Reset(r), None, false)
  {
  }

  /** RS starts a new argument one past itself and is stored. */
  lemma RecordMarkStep(r: Rx, registry: seq<string>)
    requires InFrame(r) && |r.argv| < ARGV_SIZE && r.state < |r.buf|
    ensures Receive(r, RECORD_MARK, registry)
            == Outcome(r.(argv := r.argv + [r.state + 1], buf := r.buf[r.state := RECORD_MARK], state := r.state + 1), None, false)
  {
  }

  /** EOT starts the CRC argument at the current offset, sets the CRC flag
      and is not stored. */
  lemma CrcMarkStep(r: Rx, registry: seq<string>)
    requires InFrame(r) && |r.argv| < ARGV_SIZE
    ensures Receive(r, CRC_MARK, registry)
            == Outcome(r.(argv := r.argv + [r.state], crc16 := true), None, false)
  {
  }

  /** Without a CRC mark the CRC check passes. */
  lemma NoCrcMarkMatches(r: Rx)
    requires InFrame(r) && !r.crc16
    ensures CrcMatched(r)
  {
  }

  /** ETX always ends the frame: the handle is idle afterwards, and `tx` is
      untouched when no handler was called. */
  lemma EndIdles(r: Rx, registry: seq<string>)
    requires InFrame(r)
    ensures var o := Receive(r, END_OF_PACKET, registry);
            Idle(o.rx) && (o.call.None? ==> o.rx.tx == r.tx)
  {
  }

  /** A name no registry entry has calls nothing. */
  lemma UnknownNameCallsNothing(r: Rx, registry: seq<string>, matched: bool)
    requires InFrame(r)
    requires var h := SplitHeader(Terminated(r.buf, r.argv, |r.argv|), r.argv[0]);
             FirstMatch(registry, CStr(h.buf, h.name)).None?
    ensures var o := Deliver(r, registry, matched);
            o.call.None? && o.rx.tx == r.tx && Idle(o.rx)
  {
  }

  // ---------------------------------------------------------------------------
  // Frames on which the C code writes outside its arrays

  /** ETX with the buffer full: the C code stores its NUL at
      `buffer[CONFIG_HU_PACKET_SIZE]`, one past the end. */
  lemma EndAtCapacityOverruns(r: Rx, registry: seq<string>)
    requires InFrame(r) && r.state == |r.buf|
    ensures Run(r, [END_OF_PACKET], registry).overrun
  {
    RunSnoc(r, [], END_OF_PACKET, registry);
    assert [] + [END_OF_PACKET] == [END_OF_PACKET];
  }

  /** A frame whose data fills the buffer exactly reaches that state. */
  lemma FullFrameOverruns(r0: Rx, data: seq<Byte>, registry: seq<string>)
    requires Idle(r0) && |data| == |r0.buf|
    requires forall i | 0 <= i < |data| :: DataByte(data[i])
    ensures Run(r0, [START_OF_PACKET] + data + [END_OF_PACKET], registry).overrun
  {
    var r1 := Rx(0, [0], false, None, None, r0.buf, r0.tx);
    StartRun(r0, registry);
    FeedData(r1, data, registry);
    RunAppend(r0, [START_OF_PACKET], data, registry);
    var full := Stored(r1, data);
    EndAtCapacityOverruns(full, registry);
    RunAppend(r0, [START_OF_PACKET] + data, [END_OF_PACKET], registry);
  }

  /** A separator with all 64 `argv` entries in use: the C code writes
      `argv[64]`. */
  lemma MarkWithArgvFullOverruns(r: Rx, registry: seq<string>)
    requires InFrame(r) && |r.argv| == ARGV_SIZE
    ensures Run(r, [RECORD_MARK], registry).overrun
    ensures Run(r, [CRC_MARK], registry).overrun
  {
    RunSnoc(r, [], RECORD_MARK, registry);
    assert [] + [RECORD_MARK] == [RECORD_MARK];
    RunSnoc(r, [], CRC_MARK, registry);
    assert [] + [CRC_MARK] == [CRC_MARK];
  }

  /** A 65th record reaches that state: 64 records are accepted, the next
      separator overruns `argv`. */
  lemma SixtyFifthRecordOverruns(r0: Rx, records: seq<seq<Byte>>, registry: seq<string>)
    requires Idle(r0) && |records| == ARGV_SIZE && AllPlain(records) && Span(records) < |r0.buf|
    ensures Run(r0, [START_OF_PACKET] + JoinWith(records, RECORD_MARK) + [RECORD_MARK], registry).overrun
  {
    FeedRecords(r0, records, registry);
    var rA := Fed(r0.buf, records, r0.tx);
    MarkWithArgvFullOverruns(rA, registry);
    RunAppend(r0, [START_OF_PACKET] + JoinWith(records, RECORD_MARK), [RECORD_MARK], registry);
  }

  /** process_data writes `buffer[-1]` when a record other than the first
      starts at offset 0. */
  lemma DeliverOverruns(r: Rx, registry: seq<string>, matched: bool)
    requires InFrame(r) && TerminateOverruns(r.argv)
    ensures Deliver(r, registry, matched).overrun
  {
  }

  /** That happens for STX EOT ETX: the CRC argument starts at offset 0. */
  lemma EmptyCrcFrameOverruns(r0: Rx, registry: seq<string>)
    requires Idle(r0) && |r0.buf| > 0
    ensures Run(r0, [START_OF_PACKET, CRC_MARK, END_OF_PACKET], registry).overrun
  {
    var r1 := Rx(0, [0], false, None, None, r0.buf, r0.tx);
    var r2 := r1.(argv := [0, 0], crc16 := true);
    StartRun(r0, registry);
    RunSnoc(r0, [START_OF_PACKET], CRC_MARK, registry);
    CrcMarkStep(r1, registry);
    assert Run(r0, [START_OF_PACKET, CRC_MARK], registry) == Trace(r2, [], false) by {
      assert [START_OF_PACKET] + [CRC_MARK] == [START_OF_PACKET, CRC_MARK];
    }
    RunSnoc(r0, [START_OF_PACKET, CRC_MARK], END_OF_PACKET, registry);
    assert [START_OF_PACKET, CRC_MARK] + [END_OF_PACKET] == [START_OF_PACKET, CRC_MARK, END_OF_PACKET];
    assert TerminateOverruns(r2.argv) by {
      assert r2.argv[1] == 0;
    }
    DeliverOverruns(r2.(buf := r2.buf[0 := NUL]), registry, CrcMatched(r2.(buf := r2.buf[0 := NUL])));
  }

  /** The CRC process_data computes runs over the whole buffer, the trailer's
      hex digits included: changing any one of those digits changes the
      computed CRC, not only the received one. */
  lemma CrcCoversTrailer(r: Rx, k: nat, c: Byte)
    requires InFrame(r) && r.crc16 && r.argv[|r.argv| - 1] <= k < r.state && c != r.buf[k]
    ensures AsUint16(Crc16(PRESET_VALUE, r.buf[..r.state]))
            != AsUint16(Crc16(PRESET_VALUE, r.buf[k := c][..r.state]))
  {
    assert r.buf[k := c][..r.state] == r.buf[..r.state][k := c];
    CrcDetectsByteError(PRESET_VALUE, r.buf[..r.state], k, c);
  }

  /** strcat into `tx_buffer` has no bound: a NUL-free string is appended
      whole, however long `tx` already is. */
  lemma AppendUnbounded(tx: seq<char>, s: seq<char>)
    requires NUL !in s
    ensures AppendStr(tx, s, 0) == tx + s
    ensures |AppendStr(tx, s, 0)| == |tx| + |s|
    ensures |tx| + |s| >= RECV_BUFFER_SIZE ==> |AppendStr(tx, s, 0)| + 1 > RECV_BUFFER_SIZE
  {
    CStrIs(s, 0, |s|);
  }

  /** One such append: 40 bytes after 1500 leave a string whose NUL does
      not fit in the 1530 bytes of `tx_buffer`. */
  lemma AppendOverrunsTx()
    ensures var r := AppendStr(seq(1500, _ => 'a'), seq(40, _ => 'b'), 0);
            |r| == 1540 && |r| + 1 > RECV_BUFFER_SIZE
  {
    AppendUnbounded(seq(1500, _ => 'a'), seq(40, _ => 'b'));
  }

  /** The terminating loop on the buffer 'a' 'b' '0' NUL with `argv` [0, 2]. */
  lemma ClobberedTerminate(buf: seq<Byte>)
    requires |buf| > 3
    ensures Terminated(buf, [0, 2], 2) == buf[1 := NUL]
  {
    assert [0, 2][1] == 2;
  }

  /** The strings and the header split on 'a' NUL '0' NUL. */
  lemma ClobberedStrings(c: seq<Byte>)
    requires |c| > 3 && c[0] == 'a' && c[1] == NUL && c[2] == '0' && c[3] == NUL
    ensures && SplitHeader(c, 0) == Header(c, None, 0, None)
            && CStr(c, 0) == "a" && CStr(c, 2) == "0"
            && Args(c, [0, 2]) == ["a", "0"]
            && TxHeader(c, None, 0, None) == "a"
  {
    StrChrMisses(c, 0, ID_MARK, 1);
    StrChrMisses(c, 0, SEQUENCE_MARK, 1);
    assert c[0..1] == "a" && c[2..3] == "0";
    CStrIs(c, 0, 1);
    CStrIs(c, 2, 3);
    ArgsAre(c, [0, 2], ["a", "0"]);
  }

  /** The terminating loop and the header split on the buffer 'a' 'b' '0' NUL
      with `argv` [0, 2]. */
  lemma ClobberedBuffer(buf: seq<Byte>)
    requires |buf| > 3 && buf[..4] == ['a', 'b', '0', NUL]
    ensures var c := buf[1 := NUL];
            && Terminated(buf, [0, 2], 2) == c
            && SplitHeader(c, 0) == Header(c, None, 0, None)
            && CStr(c, 0) == "a" && CStr(c, 2) == "0"
            && Args(c, [0, 2]) == ["a", "0"]
            && TxHeader(c, None, 0, None) == "a"
  {
    var c := buf[1 := NUL];
    assert buf[0] == buf[..4][0] && buf[2] == buf[..4][2] && buf[3] == buf[..4][3];
    ClobberedTerminate(buf);
    ClobberedStrings(c);
  }

  /** EOT right after a record: the loop of process_data stores its NUL over
      the record's last byte. At ETX of the frame "ab" EOT "0" the buffer
      starts with 'a' 'b' '0' NUL and `argv` is [0, 2]: the handler is looked
      up, and called, with "a" instead of "ab". */
  lemma ClobberedRecord(r: Rx, registry: seq<string>, matched: bool)
    requires |r.buf| > 3 && r.buf[..4] == ['a', 'b', '0', NUL]
    requires r.state == 3 && r.argv == [0, 2] && r.id.None? && r.sequence.None?
    ensures InFrame(r)
    ensures Deliver(r, registry, matched).call
            == match FirstMatch(registry, "a")
               case None => None
               case Some(j) => Some(Call(j, matched, ["a", "0"], None, None, "a"))
  {
    assert r.argv[0] == 0 && r.argv[1] == 2;
    assert InFrame(r);
    ClobberedBuffer(r.buf);
    var c := r.buf[1 := NUL];
    assert r.argv[0 := 0] == [0, 2];
    DeliverIs(r, registry, matched, c, Header(c, None, 0, None));
  }

  /** The bytes STX 'a' 'b' EOT '0' from idle. */
  lemma ClobberPrefix(r0: Rx, registry: seq<string>)
    requires Idle(r0) && |r0.buf| > 3
    ensures var b := r0.buf[0 := 'a'][1 := 'b'][2 := '0'];
            Run(r0, [START_OF_PACKET, 'a', 'b', CRC_MARK, '0'], registry)
            == Trace(Rx(3, [0, 2], true, None, None, b, r0.tx), [], false)
  {
    var r1 := Rx(0, [0], false, None, None, r0.buf, r0.tx);
    var r2 := r1.(buf := r0.buf[0 := 'a'], state := 1);
    var r3 := r2.(buf := r2.buf[1 := 'b'], state := 2);
    var r4 := r3.(argv := [0, 2], crc16 := true);
    StartRun(r0, registry);
    Snoc5();
    RunSnoc(r0, [START_OF_PACKET], 'a', registry);
    DataStored(r1, 'a', registry);
    RunSnoc(r0, [START_OF_PACKET, 'a'], 'b', registry);
    DataStored(r2, 'b', registry);
    RunSnoc(r0, [START_OF_PACKET, 'a', 'b'], CRC_MARK, registry);
    CrcMarkStep(r3, registry);
    RunSnoc(r0, [START_OF_PACKET, 'a', 'b', CRC_MARK], '0', registry);
    DataStored(r4, '0', registry);
  }

  lemma Snoc5()
    ensures [START_OF_PACKET] + ['a'] == [START_OF_PACKET, 'a']
    ensures [START_OF_PACKET, 'a'] + ['b'] == [START_OF_PACKET, 'a', 'b']
    ensures [START_OF_PACKET, 'a', 'b'] + [CRC_MARK] == [START_OF_PACKET, 'a', 'b', CRC_MARK]
    ensures [START_OF_PACKET, 'a', 'b', CRC_MARK] + ['0'] == [START_OF_PACKET, 'a', 'b', CRC_MARK, '0']
    ensures [START_OF_PACKET, 'a', 'b', CRC_MARK, '0'] + [END_OF_PACKET]
            == [START_OF_PACKET, 'a', 'b', CRC_MARK, '0', END_OF_PACKET]
  {
  }

  lemma ClobberWrites(b: seq<Byte>)
    requires |b| > 3
    ensures b[0 := 'a'][1 := 'b'][2 := '0'][3 := NUL][..4] == ['a', 'b', '0', NUL]
  {
  }

  /** The whole frame STX "ab" EOT "0" ETX from idle: at most one call, made
      exactly when a command is named "a", and with arguments "a" and "0". */
  lemma CrcMarkClobbersLastByte(r0: Rx, registry: seq<string>)
    requires Idle(r0) && |r0.buf| > 3
    ensures var t := Run(r0, [START_OF_PACKET, 'a', 'b', CRC_MARK, '0', END_OF_PACKET], registry);
            && |t.calls| <= 1
            && (t.calls == [] <==> FirstMatch(registry, "a").None?)
            && (t.calls != [] ==> t.calls[0].args == ["a", "0"])
  {
    var rE := Rx(3, [0, 2], true, None, None, r0.buf[0 := 'a'][1 := 'b'][2 := '0'][3 := NUL], r0.tx);
    ClobberFrame(r0, registry);
    ClobberWrites(r0.buf);
    ClobberedRecord(rE, registry, CrcMatched(rE));
  }

  /** The same frame ends in one dispatch of the handle whose buffer holds
      'a' 'b' '0' NUL. */
  lemma ClobberFrame(r0: Rx, registry: seq<string>)
    requires Idle(r0) && |r0.buf| > 3
    ensures var rE := Rx(3, [0, 2], true, None, None, r0.buf[0 := 'a'][1 := 'b'][2 := '0'][3 := NUL], r0.tx);
            && InFrame(rE)
            && Run(r0, [START_OF_PACKET, 'a', 'b', CRC_MARK, '0', END_OF_PACKET], registry).calls
               == Calls(Dispatch(rE, registry).call)
  {
    var front: seq<Byte> := [START_OF_PACKET, 'a', 'b', CRC_MARK, '0'];
    var b := r0.buf[0 := 'a'][1 := 'b'][2 := '0'];
    var r := Rx(3, [0, 2], true, None, None, b, r0.tx);
    ClobberPrefix(r0, registry);
    EndStep(r, registry);
    RunAppend(r0, front, [END_OF_PACKET], registry);
    Snoc5();
  }
}
