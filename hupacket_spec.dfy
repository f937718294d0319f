/**
 * The packet parser of lib/hu/hupacket.c as functions over a snapshot of the
 * handle. A frame is
 *
 *   STX record (RS record)* [EOT crc-hex] ETX
 *
 * received one byte at a time into one buffer; `argv` holds the offsets at
 * which the records start. At ETX the records are NUL-terminated in place, the
 * header `[id '@'] name [':' sequence]` of the first record is split, and the
 * first command of the registry with that name is dispatched.
 *
 * Where the C code writes outside `buffer` or `argv`, the model does not write
 * and raises `overrun` instead; the lemmas in HupFrames show when that happens.
 */
module HupSpec {
  import opened Options
  import opened CText
  import opened Crc

  const STATE_NONE: int := -1

  const START_OF_PACKET: Byte := '\U{02}'
  const END_OF_PACKET: Byte := '\U{03}'
  const CRC_MARK: Byte := '\U{04}'
  const RECORD_MARK: Byte := '\U{1e}'

  const ID_MARK: Byte := '@'
  const SEQUENCE_MARK: Byte := ':'

  /** Entries of `argv`. */
  const ARGV_SIZE: nat := 64
  /** `CONFIG_HU_PACKET_SIZE`, the size of `buffer` and of `tx_buffer`. */
  const RECV_BUFFER_SIZE: nat := 1530

  /** The handle's fields that the parser reads and writes. `argv` lists the
      first `argc` entries; `id` and `sequence` are offsets into `buf` or NULL;
      `tx` is the C string held in `tx_buffer`. */
  datatype Rx = Rx(state: int, argv: seq<int>, crc16: bool, id: Option<nat>, sequence: Option<nat>,
                   buf: seq<Byte>, tx: seq<char>)

  /** Waiting for a start of packet: what `reset_hupacket` leaves. */
  predicate Idle(r: Rx) {
    r.state == STATE_NONE && r.argv == [] && !r.crc16 && r.id == None && r.sequence == None
  }

  /** Inside a frame: `state` bytes received, at least the first record
      started, every record starting inside the received part. */
  predicate InFrame(r: Rx) {
    && 0 <= r.state <= |r.buf|
    && 1 <= |r.argv| <= ARGV_SIZE
    && r.argv[0] == 0
    && (forall i | 0 <= i < |r.argv| :: 0 <= r.argv[i] <= r.state)
    && r.id == None && r.sequence == None
  }

  predicate Valid(r: Rx) {
    Idle(r) || InFrame(r)
  }

  /** What a handler is called with: the index of the registry entry, the
      `crc` flag, and what it can read from the handle at that moment. */
  datatype Call = Call(command: nat, crcMatched: bool, args: seq<string>,
                       id: Option<string>, sequence: Option<string>, tx: string)

  /** The handle after one byte, the handler call that byte caused, and whether
      the C code wrote outside `buffer` or `argv` on the way. */
  datatype Outcome = Outcome(rx: Rx, call: Option<Call>, overrun: bool)

  // ---------------------------------------------------------------------------
  // One byte (the body of the loop of process_hupacket)

  /** `reset_hupacket`: the buffer and `tx` are left as they are. */
  function Reset(r: Rx): (r': Rx)
    ensures Idle(r') && r'.buf == r.buf && r'.tx == r.tx
  {
    r.(state := STATE_NONE, argv := [], crc16 := false, id := None, sequence := None)
  }

  /** `h->argv[h->argc ++] = &h->buffer[offset]`. With all 64 entries in use
      the C code writes past `argv`; the model drops the entry. */
  function Push(r: Rx, offset: int): (r': Rx)
  {
    if |r.argv| < ARGV_SIZE then r.(argv := r.argv + [offset]) else r
  }

  /** The default branch: store the byte while there is room, otherwise drop
      the frame. */
  function Store(r: Rx, ch: Byte): (r': Rx)
    ensures r'.tx == r.tx
  {
    if 0 <= r.state < |r.buf| then r.(buf := r.buf[r.state := ch], state := r.state + 1) else Reset(r)
  }

  /** One byte of `process_hupacket`. */
  function Receive(r: Rx, ch: Byte, registry: seq<string>): (o: Outcome)
    requires Valid(r)
    ensures Valid(o.rx) && |o.rx.buf| == |r.buf|
    ensures o.call.Some? ==> ch == END_OF_PACKET && Idle(o.rx)
  {
    if r.state == STATE_NONE then
      if ch != START_OF_PACKET then Outcome(r, None, false)
      else Outcome(Push(r.(state := 0), 0), None, false)
    else if ch == CRC_MARK then
      Outcome(Push(r, r.state).(crc16 := true), None, |r.argv| == ARGV_SIZE)
    else if ch == END_OF_PACKET then
      var r1 := if r.state < |r.buf| then r.(buf := r.buf[r.state := NUL]) else r;
      var o := Dispatch(r1, registry);
      o.(overrun := o.overrun || r.state == |r.buf|)
    else if ch == RECORD_MARK then
      Outcome(Store(Push(r, r.state + 1), ch), None, |r.argv| == ARGV_SIZE)
    else
      Outcome(Store(r, ch), None, false)
  }

  // ---------------------------------------------------------------------------
  // End of frame (process_data)

  /** The CRC check: true without a CRC mark; otherwise the CRC of everything
      received must equal the hexadecimal number in the last record, both read
      as `uint16_t`. */
  function CrcMatched(r: Rx): bool
    requires InFrame(r)
  {
    !r.crc16 || AsUint16(Crc16(PRESET_VALUE, r.buf[..r.state])) == StrToUL(CStr(r.buf, r.argv[|r.argv| - 1]), 16) % 0x1_0000
  }

  /** The buffer after the loop of process_data has run for i = 1 .. n-1: a NUL
      just before every record but the first. */
  function Terminated(buf: seq<Byte>, argv: seq<int>, n: nat): (b: seq<Byte>)
    requires n <= |argv|
    requires forall i | 0 <= i < |argv| :: 0 <= argv[i] <= |buf|
    ensures |b| == |buf|
  {
    if n <= 1 then buf
    else
      var b := Terminated(buf, argv, n - 1);
      if argv[n - 1] > 0 then b[argv[n - 1] - 1 := NUL] else b
  }

  /** The loop of process_data writes `buffer[-1]` when a record other than the
      first starts at offset 0. */
  predicate TerminateOverruns(argv: seq<int>) {
    exists i | 1 <= i < |argv| :: argv[i] == 0
  }

  /** `seperate_header`: cut the string at `start` at its first `ch`; the new
      string starts one past it. */
  function SeparateHeader(buf: seq<Byte>, start: nat, ch: Byte): (res: (seq<Byte>, Option<nat>))
    requires start <= |buf| && ch != NUL
    ensures |res.0| == |buf|
    ensures res.1.None? ==> res.0 == buf && ch !in CStr(buf, start)
    ensures res.1.Some? ==> start < res.1.value <= |buf| && buf[res.1.value - 1] == ch
                            && res.0 == buf[res.1.value - 1 := NUL]
  {
    match StrChr(buf, start, ch)
    case None => (buf, None)
    case Some(k) => (buf[k := NUL], Some(k + 1))
  }

  /** The header split: `id` set when the first record holds an '@', the name
      moved past it, and `sequence` set when the rest holds a ':'. */
  datatype Header = Header(buf: seq<Byte>, id: Option<nat>, name: nat, sequence: Option<nat>)

  function SplitHeader(buf: seq<Byte>, start: nat): (h: Header)
    requires start <= |buf|
    ensures |h.buf| == |buf| && h.name <= |buf|
    ensures h.id.Some? ==> h.id.value == start
    ensures h.sequence.Some? ==> h.sequence.value <= |buf|
  {
    var (b1, afterId) := SeparateHeader(buf, start, ID_MARK);
    var name := if afterId.Some? then afterId.value else start;
    var (b2, sequence) := SeparateHeader(b1, name, SEQUENCE_MARK);
    Header(b2, if afterId.Some? then Some(start) else None, name, sequence)
  }

  /** The index of the first registry entry whose name equals `name`, as the
      walk of `STRUCT_SECTION_FOREACH` with `strcmp` finds it. */
  function FirstMatch(registry: seq<string>, name: string): (j: Option<nat>)
    ensures j.Some? ==> j.value < |registry| && CStr(registry[j.value], 0) == name
    ensures j.Some? ==> forall k | 0 <= k < j.value :: CStr(registry[k], 0) != name
    ensures j.None? ==> forall k | 0 <= k < |registry| :: CStr(registry[k], 0) != name
    decreases |registry|
  {
    if registry == [] then None
    else if CStr(registry[0], 0) == name then Some(0)
    else match FirstMatch(registry[1..], name)
      case None => None
      case Some(k) => Some(k + 1)
  }

  /** What `hupacket_reset_txbuffer` leaves in `tx_buffer`. */
  function TxHeader(buf: seq<Byte>, id: Option<nat>, name: nat, sequence: Option<nat>): string
    requires name <= |buf|
    requires id.Some? ==> id.value <= |buf|
    requires sequence.Some? ==> sequence.value <= |buf|
  {
    (if id.Some? then CStr(buf, id.value) + [ID_MARK] else [])
    + CStr(buf, name)
    + (if sequence.Some? then [SEQUENCE_MARK] + CStr(buf, sequence.value) else [])
  }

  /** The strings the `argv` entries point at. */
  function Args(buf: seq<Byte>, argv: seq<int>): (args: seq<string>)
    requires forall i | 0 <= i < |argv| :: 0 <= argv[i] <= |buf|
    ensures |args| == |argv|
    ensures forall i | 0 <= i < |argv| :: args[i] == CStr(buf, argv[i])
  {
    seq(|argv|, i requires 0 <= i < |argv| => CStr(buf, argv[i]))
  }

  function OptionalString(buf: seq<Byte>, p: Option<nat>): Option<string>
    requires p.Some? ==> p.value <= |buf|
  {
    if p.Some? then Some(CStr(buf, p.value)) else None
  }

  /** `process_data`, given the handle just after ETX was stored. */
  function Dispatch(r: Rx, registry: seq<string>): (o: Outcome)
    requires InFrame(r)
    ensures Idle(o.rx) && |o.rx.buf| == |r.buf|
    ensures o.call.None? ==> o.rx.tx == r.tx
  {
    Deliver(r, registry, CrcMatched(r))
  }

  /** What `process_data` does after the CRC check, whose outcome is `matched`:
      terminate the records, split the header, call the first command whose
      name matches, reset. */
  function Deliver(r: Rx, registry: seq<string>, matched: bool): (o: Outcome)
    requires InFrame(r)
    ensures Idle(o.rx) && |o.rx.buf| == |r.buf|
    ensures o.call.None? ==> o.rx.tx == r.tx
  {
    var b1 := Terminated(r.buf, r.argv, |r.argv|);
    var h := SplitHeader(b1, r.argv[0]);
    match FirstMatch(registry, CStr(h.buf, h.name))
    case None =>
      Outcome(Reset(r.(buf := h.buf)), None, TerminateOverruns(r.argv))
    case Some(j) =>
      var tx := TxHeader(h.buf, h.id, h.name, h.sequence);
      var call := Call(j, matched, Args(h.buf, r.argv[0 := h.name]),
                       OptionalString(h.buf, h.id), OptionalString(h.buf, h.sequence), tx);
      Outcome(Reset(r.(buf := h.buf, tx := tx)), Some(call), TerminateOverruns(r.argv))
  }

  // ---------------------------------------------------------------------------
  // A whole call of process_hupacket

  /** The handle after `data`, the handler calls in order, and whether any
      byte overran. */
  datatype Trace = Trace(rx: Rx, calls: seq<Call>, overrun: bool)

  function Run(r: Rx, data: seq<Byte>, registry: seq<string>): (t: Trace)
    requires Valid(r)
    ensures Valid(t.rx) && |t.rx.buf| == |r.buf|
    decreases |data|
  {
    if data == [] then Trace(r, [], false)
    else
      var t := Run(r, data[..|data| - 1], registry);
      var o := Receive(t.rx, data[|data| - 1], registry);
      Trace(o.rx, t.calls + (if o.call.Some? then [o.call.value] else []), t.overrun || o.overrun)
  }

  // ---------------------------------------------------------------------------
  // The response builders

  /** `hupacket_append_str` of the string at offset `at` of `s`: strcat, which
      copies up to the source's NUL. */
  function AppendStr(tx: seq<char>, s: seq<char>, at: nat): seq<char>
    requires at <= |s|
  {
    tx + CStr(s, at)
  }

  /** `hupacket_append_char`: NUL appends nothing. */
  function AppendChar(tx: seq<char>, ch: char): seq<char> {
    if ch != NUL then tx + [ch] else tx
  }

  /** `hupacket_append_int`: the decimal digits from itoa. */
  function AppendInt(tx: seq<char>, val: int): seq<char>
    requires IsInt32(val)
  {
    tx + IToA(val, 10)
  }

  /** `hupacket_append_hex`: the hexadecimal digits from itoa. */
  function AppendHex(tx: seq<char>, val: int): seq<char>
    requires IsInt32(val)
  {
    tx + IToA(val, 16)
  }
}
