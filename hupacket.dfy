/**
 * `struct hup_handle` and the functions of lib/hu/hupacket.c that update it in
 * place. Each method is proved against the functions of HupSpec: its new state
 * is the spec function of its old state.
 *
 * `send` and `user_data` are opaque to this code (it only stores them) and
 * are not fields here. The append functions take the buffer to append to as a
 * parameter; every caller of the core passes `h->tx_buffer`, which is `tx`.
 */
module HupPacket {
  import opened Options
  import opened CText
  import opened Crc
  import opened HupSpec

  /** A result with FirstMatch's three properties is FirstMatch's result. */
  lemma {:induction false} FirstMatchIs(registry: seq<string>, name: string, j: Option<nat>)
    requires j.Some? ==> j.value < |registry| && CStr(registry[j.value], 0) == name
    requires forall k | 0 <= k < (if j.Some? then j.value else |registry|) :: CStr(registry[k], 0) != name
    ensures j == FirstMatch(registry, name)
    decreases |registry|
  {
    if registry != [] && CStr(registry[0], 0) != name {
      var j' := if j.Some? then Some(j.value - 1) else None;
      forall k | 0 <= k < (if j'.Some? then j'.value else |registry| - 1)
        ensures CStr(registry[1..][k], 0) != name
      {
        assert registry[1..][k] == registry[k + 1];
      }
      FirstMatchIs(registry[1..], name, j');
    }
  }

  lemma MarkThen(x: string, c: char, w: string)
    ensures x + [c] + w == x + ([c] + w)
  {
  }

  /** Offsets into a buffer of `n` bytes stay so when the first is moved
      within it. */
  lemma NameWithin(argv: seq<int>, n: nat, name: nat, moved: seq<int>)
    requires 1 <= |argv| && name <= n && forall i | 0 <= i < |argv| :: 0 <= argv[i] <= n
    requires moved == argv[0 := name]
    ensures forall i | 0 <= i < |moved| :: 0 <= moved[i] <= n
  {
  }

  /** Deliver, given the terminated buffer, the header split and the command
      found. */
  lemma DeliverParts(r: Rx, registry: seq<string>, matched: bool, b1: seq<Byte>, h: Header, j: Option<nat>)
    requires InFrame(r)
    requires b1 == Terminated(r.buf, r.argv, |r.argv|) && h == SplitHeader(b1, r.argv[0])
    requires j == FirstMatch(registry, CStr(h.buf, h.name))
    ensures var o := Deliver(r, registry, matched);
            && o.overrun == TerminateOverruns(r.argv)
            && (j.None? ==> o.call.None? && o.rx == Reset(r.(buf := h.buf)))
            && (j.Some? ==>
                  var tx := TxHeader(h.buf, h.id, h.name, h.sequence);
                  && o.rx == Reset(r.(buf := h.buf, tx := tx))
                  && o.call == Some(Call(j.value, matched, Args(h.buf, r.argv[0 := h.name]),
                                         OptionalString(h.buf, h.id), OptionalString(h.buf, h.sequence), tx)))
  {
  }

  class Handle {
    const buffer: array<Byte>
    var state: int
    var argv: seq<int>
    var crc16: bool
    var id: Option<nat>
    var sequence: Option<nat>
    /** The C string in `tx_buffer`. */
    var tx: seq<char>
    /** Set once the C code would have written outside `buffer` or `argv`. */
    ghost var overran: bool

    function State(): Rx
      reads this, buffer
    {
      Rx(state, argv, crc16, id, sequence, buffer[..], tx)
    }

    ghost predicate Valid()
      reads this, buffer
    {
      buffer.Length == RECV_BUFFER_SIZE && HupSpec.Valid(State())
    }

    /** `init_hupacket`: the whole handle zeroed, then reset. */
    constructor Init()
      ensures Valid() && Idle(State())
      ensures buffer[..] == seq(RECV_BUFFER_SIZE, _ => NUL) && tx == []
      ensures !overran
    {
      buffer := new Byte[RECV_BUFFER_SIZE](_ => NUL);
      state := 0;
      argv := [];
      crc16 := false;
      id := None;
      sequence := None;
      tx := [];
      overran := false;
      new;
      Reset();
    }

    /** `reset_hupacket`. */
    method Reset()
      modifies this
      ensures State() == HupSpec.Reset(old(State()))
      ensures overran == old(overran)
    {
      state := STATE_NONE;
      argv := [];
      crc16 := false;
      id := None;
      sequence := None;
    }

    /** `h->argv[h->argc ++] = &h->buffer[offset]`. */
    method PushArg(offset: int)
      requires |argv| <= ARGV_SIZE
      modifies this
      ensures State() == Push(old(State()), offset)
      ensures overran == (old(overran) || |old(argv)| == ARGV_SIZE)
    {
      if |argv| < ARGV_SIZE {
        argv := argv + [offset];
      } else {
        overran := true;
      }
    }

    /** `process_hupacket`: feed every byte of `data` to the parser. */
    method ProcessPacket(data: seq<Byte>, registry: seq<string>) returns (calls: seq<Call>)
      requires Valid()
      modifies this, buffer
      ensures Valid()
      ensures State() == Run(old(State()), data, registry).rx
      ensures calls == Run(old(State()), data, registry).calls
      ensures overran == (old(overran) || Run(old(State()), data, registry).overrun)
    {
      calls := [];
      var i := 0;
      while i < |data|
        invariant 0 <= i <= |data|
        invariant Valid()
        invariant State() == Run(old(State()), data[..i], registry).rx
        invariant calls == Run(old(State()), data[..i], registry).calls
        invariant overran == (old(overran) || Run(old(State()), data[..i], registry).overrun)
      {
        assert data[..i + 1][..i] == data[..i];
        var call := ProcessByte(data[i], registry);
        if call.Some? {
          calls := calls + [call.value];
        }
        i := i + 1;
      }
      assert data[..i] == data;
    }

    /** The body of the loop of `process_hupacket`, for one byte `ch`. */
    method ProcessByte(ch: Byte, registry: seq<string>) returns (call: Option<Call>)
      requires Valid()
      modifies this, buffer
      ensures Valid()
      ensures State() == Receive(old(State()), ch, registry).rx
      ensures call == Receive(old(State()), ch, registry).call
      ensures overran == (old(overran) || Receive(old(State()), ch, registry).overrun)
    {
      call := None;
      if state == STATE_NONE {
        if ch != START_OF_PACKET {
          return;
        }
        state := state + 1;
        PushArg(state);
      } else if ch == CRC_MARK {
        PushArg(state);
        crc16 := true;
      } else if ch == END_OF_PACKET {
        if state < buffer.Length {
          buffer[state] := NUL;
        } else {
          overran := true;
        }
        call := ProcessData(registry);
      } else {
        if ch == RECORD_MARK {
          PushArg(state + 1);
        }
        if state < buffer.Length {
          buffer[state] := ch;
          state := state + 1;
        } else {
          Reset();
        }
      }
    }

    /** `process_data`: check the CRC, terminate the records, split the
        header, call the first matching command, reset. */
    method ProcessData(registry: seq<string>) returns (call: Option<Call>)
      requires buffer.Length == RECV_BUFFER_SIZE && InFrame(State())
      modifies this, buffer
      ensures Valid()
      ensures State() == Dispatch(old(State()), registry).rx
      ensures call == Dispatch(old(State()), registry).call
      ensures overran == (old(overran) || Dispatch(old(State()), registry).overrun)
    {
      var crcMatched := CrcMatched(State());
      call := DeliverRecords(registry, crcMatched);
    }

    /** The rest of `process_data` once the CRC has been compared. */
    method DeliverRecords(registry: seq<string>, crcMatched: bool) returns (call: Option<Call>)
      requires buffer.Length == RECV_BUFFER_SIZE && InFrame(State())
      modifies this, buffer
      ensures Valid()
      ensures State() == Deliver(old(State()), registry, crcMatched).rx
      ensures call == Deliver(old(State()), registry, crcMatched).call
      ensures overran == (old(overran) || Deliver(old(State()), registry, crcMatched).overrun)
    {
      ghost var r := State();
      ghost var b1 := Terminated(buffer[..], argv, |argv|);
      ghost var h := SplitHeader(b1, argv[0]);
      DeliverParts(r, registry, crcMatched, b1, h, FirstMatch(registry, CStr(h.buf, h.name)));
      TerminateRecords();
      ghost var a := argv;
      SeparateHeaders();
      assert buffer[..] == h.buf;
      var j := FindCommand(registry);
      call := None;
      if j.Some? {
        NameWithin(a, buffer.Length, h.name, argv);
        ResetTxBuffer();
        call := Some(Call(j.value, crcMatched, Args(buffer[..], argv),
                          OptionalString(buffer[..], id), OptionalString(buffer[..], sequence), tx));
      }
      Reset();
    }

    /** The loop of `process_data` that ends every record but the last with a
        NUL, writing over the byte before the next record's start. */
    method TerminateRecords()
      requires InFrame(State())
      modifies this, buffer
      ensures state == old(state) && argv == old(argv) && crc16 == old(crc16)
      ensures id == old(id) && sequence == old(sequence) && tx == old(tx)
      ensures buffer[..] == Terminated(old(buffer[..]), argv, |argv|)
      ensures overran == (old(overran) || TerminateOverruns(argv))
    {
      var i := 1;
      while i < |argv|
        invariant 1 <= i <= |argv|
        invariant forall k | 0 <= k < |argv| :: 0 <= argv[k] <= state <= buffer.Length
        invariant buffer[..] == Terminated(old(buffer[..]), argv, i)
        invariant overran == (old(overran) || exists k | 1 <= k < i :: argv[k] == 0)
        invariant state == old(state) && argv == old(argv) && crc16 == old(crc16)
        invariant id == old(id) && sequence == old(sequence) && tx == old(tx)
      {
        if argv[i] > 0 {
          buffer[argv[i] - 1] := NUL;
        } else {
          overran := true;
        }
        i := i + 1;
      }
    }

    /** The two `seperate_header` calls of `process_data`: an '@' in the first
        record makes its front the id and moves the name past it; a ':' after
        the name starts the sequence. */
    method SeparateHeaders()
      requires InFrame(State())
      modifies this, buffer
      ensures var h := SplitHeader(old(buffer[..]), old(argv[0]));
              && buffer[..] == h.buf && argv == old(argv)[0 := h.name]
              && id == h.id && sequence == h.sequence
      ensures state == old(state) && crc16 == old(crc16) && tx == old(tx) && overran == old(overran)
    {
      var afterId := SeparateHeader(ID_MARK);
      if afterId.Some? {
        id := Some(argv[0]);
        argv := argv[0 := afterId.value];
      }
      var afterName := SeparateHeader(SEQUENCE_MARK);
      if afterName.Some? {
        sequence := afterName;
      }
    }

    /** The walk over the command section with `strcmp` against the name. */
    method FindCommand(registry: seq<string>) returns (j: Option<nat>)
      requires |argv| >= 1 && 0 <= argv[0] <= buffer.Length
      ensures j == FirstMatch(registry, CStr(buffer[..], argv[0]))
    {
      var name := CStr(buffer[..], argv[0]);
      var k := 0;
      while k < |registry| && CStr(registry[k], 0) != name
        invariant 0 <= k <= |registry|
        invariant forall m | 0 <= m < k :: CStr(registry[m], 0) != name
      {
        k := k + 1;
      }
      j := if k < |registry| then Some(k) else None;
      FirstMatchIs(registry, name, j);
    }

    /** `seperate_header` on `argv[0]`: when the string holds `ch`, a NUL
        replaces it and the offset just past it is returned (the C code stores
        that offset through its `dst` argument). */
    method SeparateHeader(ch: Byte) returns (after: Option<nat>)
      requires |argv| >= 1 && 0 <= argv[0] <= buffer.Length && ch != NUL
      modifies buffer
      ensures (buffer[..], after) == HupSpec.SeparateHeader(old(buffer[..]), argv[0], ch)
    {
      var found := StrChr(buffer[..], argv[0], ch);
      after := None;
      if found.Some? {
        buffer[found.value] := NUL;
        after := Some(found.value + 1);
      }
    }

    /** `hupacket_reset_txbuffer`: echo the request header. */
    method ResetTxBuffer()
      requires |argv| >= 1 && 0 <= argv[0] <= buffer.Length
      requires id.Some? ==> 0 <= id.value <= buffer.Length
      requires sequence.Some? ==> 0 <= sequence.value <= buffer.Length
      modifies this
      ensures state == old(state) && argv == old(argv) && crc16 == old(crc16)
      ensures id == old(id) && sequence == old(sequence) && overran == old(overran)
      ensures tx == TxHeader(old(buffer[..]), id, argv[0], sequence)
    {
      var b := buffer[..];
      ghost var front := if id.Some? then CStr(b, id.value) + [ID_MARK] else [];
      ghost var name := CStr(b, argv[0]);
      ghost var back := if sequence.Some? then [SEQUENCE_MARK] + CStr(b, sequence.value) else [];
      assert TxHeader(b, id, argv[0], sequence) == front + name + back;
      tx := [];
      if id.Some? {
        AppendStr(b, id.value);
        AppendChar(ID_MARK);
      }
      assert tx == front;
      AppendStr(b, argv[0]);
      assert tx == front + name;
      if sequence.Some? {
        AppendChar(SEQUENCE_MARK);
        AppendStr(b, sequence.value);
        MarkThen(front + name, SEQUENCE_MARK, CStr(b, sequence.value));
      }
      assert tx == front + name + back;
    }

    /** `hupacket_append_str`. */
    method AppendStr(s: seq<char>, at: nat)
      requires at <= |s|
      modifies this
      ensures tx == HupSpec.AppendStr(old(tx), s, at)
      ensures state == old(state) && argv == old(argv) && crc16 == old(crc16)
      ensures id == old(id) && sequence == old(sequence) && overran == old(overran)
    {
      tx := tx + CStr(s, at);
    }

    /** `hupacket_append_char`. */
    method AppendChar(ch: char)
      modifies this
      ensures tx == HupSpec.AppendChar(old(tx), ch)
      ensures state == old(state) && argv == old(argv) && crc16 == old(crc16)
      ensures id == old(id) && sequence == old(sequence) && overran == old(overran)
    {
      if ch != NUL {
        CStrIs([ch, NUL], 0, 1);
        AppendStr([ch, NUL], 0);
      }
    }

    /** `hupacket_append_int`. */
    method AppendInt(val: int)
      requires IsInt32(val)
      modifies this
      ensures tx == HupSpec.AppendInt(old(tx), val)
      ensures state == old(state) && argv == old(argv) && crc16 == old(crc16)
      ensures id == old(id) && sequence == old(sequence) && overran == old(overran)
    {
      var digits := IToA(val, 10) + [NUL];
      CStrIs(digits, 0, |digits| - 1);
      AppendStr(digits, 0);
    }

    /** `hupacket_append_hex`. */
    method AppendHex(val: int)
      requires IsInt32(val)
      modifies this
      ensures tx == HupSpec.AppendHex(old(tx), val)
      ensures state == old(state) && argv == old(argv) && crc16 == old(crc16)
      ensures id == old(id) && sequence == old(sequence) && overran == old(overran)
    {
      var digits := IToA(val, 16) + [NUL];
      CStrIs(digits, 0, |digits| - 1);
      AppendStr(digits, 0);
    }

    /** `hupacket_record_str`. */
    method RecordStr(s: seq<char>, at: nat)
      requires at <= |s|
      modifies this
      ensures tx == HupSpec.AppendStr(HupSpec.AppendChar(old(tx), RECORD_MARK), s, at)
      ensures state == old(state) && argv == old(argv) && crc16 == old(crc16)
      ensures id == old(id) && sequence == old(sequence) && overran == old(overran)
    {
      AppendChar(RECORD_MARK);
      AppendStr(s, at);
    }

    /** `hupacket_record_int`. */
    method RecordInt(val: int)
      requires IsInt32(val)
      modifies this
      ensures tx == HupSpec.AppendInt(HupSpec.AppendChar(old(tx), RECORD_MARK), val)
      ensures state == old(state) && argv == old(argv) && crc16 == old(crc16)
      ensures id == old(id) && sequence == old(sequence) && overran == old(overran)
    {
      AppendChar(RECORD_MARK);
      AppendInt(val);
    }

    /** `hupacket_record_hex`. */
    method RecordHex(val: int)
      requires IsInt32(val)
      modifies this
      ensures tx == HupSpec.AppendHex(HupSpec.AppendChar(old(tx), RECORD_MARK), val)
      ensures state == old(state) && argv == old(argv) && crc16 == old(crc16)
      ensures id == old(id) && sequence == old(sequence) && overran == old(overran)
    {
      AppendChar(RECORD_MARK);
      AppendHex(val);
    }
  }
}
