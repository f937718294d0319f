/**
 * The records of a frame as the sender lays them out, and what process_data
 * of lib/hu/hupacket.c makes of them once they are in the buffer: the
 * separators become NULs, every `argv` entry reads back its record, and the
 * header `[id '@'] name [':' sequence]` splits into its three strings.
 */
module HupRecords {
  import opened Options
  import opened CText
  import opened HupSpec

  // ---------------------------------------------------------------------------
  // Records joined by a separator

  /** A byte the parser stores as data inside a frame. */
  predicate DataByte(c: Byte) {
    c != CRC_MARK && c != END_OF_PACKET && c != RECORD_MARK
  }

  /** A record that travels unchanged: data bytes only, and no NUL, which would
      end the C string early. */
  predicate Plain(rec: seq<Byte>) {
    forall i | 0 <= i < |rec| :: DataByte(rec[i]) && rec[i] != NUL
  }

  predicate AllPlain(records: seq<seq<Byte>>) {
    forall i | 0 <= i < |records| :: Plain(records[i])
  }

  /** The length of the records joined by one-byte separators. */
  function Span(records: seq<seq<Byte>>): nat
    requires |records| >= 1
    decreases |records|
  {
    if |records| == 1 then |records[0]| else Span(records[..|records| - 1]) + 1 + |records[|records| - 1]|
  }

  /** The records joined by `sep`. */
  function JoinWith(records: seq<seq<Byte>>, sep: Byte): (j: seq<Byte>)
    requires |records| >= 1
    ensures |j| == Span(records)
    decreases |records|
  {
    if |records| == 1 then records[0]
    else JoinWith(records[..|records| - 1], sep) + [sep] + records[|records| - 1]
  }

  /** Where each record starts in the joined bytes. */
  function Starts(records: seq<seq<Byte>>): (s: seq<int>)
    requires |records| >= 1
    ensures |s| == |records| && s[0] == 0
    ensures forall i | 0 <= i < |s| :: 0 <= s[i] <= Span(records)
    decreases |records|
  {
    if |records| == 1 then [0] else Starts(records[..|records| - 1]) + [Span(records[..|records| - 1]) + 1]
  }

  /** `s` written over the front of `b`. */
  function Splice(b: seq<Byte>, s: seq<Byte>): (r: seq<Byte>)
    requires |s| <= |b|
    ensures |r| == |b| && r[..|s|] == s
  {
    s + b[|s|..]
  }

  // ---------------------------------------------------------------------------
  // Where the records are

  /** The first `k` records joined are a prefix of all of them joined, and a
      separator follows unless `k` is all of them. */
  lemma {:induction false} JoinPrefix(records: seq<seq<Byte>>, sep: Byte, k: nat)
    requires 1 <= k <= |records|
    ensures Span(records[..k]) <= Span(records)
    ensures JoinWith(records, sep)[..Span(records[..k])] == JoinWith(records[..k], sep)
    ensures k < |records| ==> Span(records[..k]) < Span(records) && JoinWith(records, sep)[Span(records[..k])] == sep
    decreases |records|
  {
    var n := |records|;
    if k == n {
      assert records[..k] == records;
    } else {
      var init := records[..n - 1];
      assert init[..k] == records[..k];
      JoinPrefix(init, sep, k);
    }
  }

  /** Record `k` starts one past the separator that ends the first `k`. */
  lemma {:induction false} StartsAt(records: seq<seq<Byte>>, k: nat)
    requires 1 <= k < |records|
    ensures Starts(records)[k] == Span(records[..k]) + 1
    decreases |records|
  {
    var n := |records|;
    var init := records[..n - 1];
    if k < n - 1 {
      assert init[..k] == records[..k];
      StartsAt(init, k);
    }
  }

  /** The joined records grow by a separator and one record. */
  lemma JoinNext(records: seq<seq<Byte>>, sep: Byte, p: nat, k: nat)
    requires 1 <= p && k == p + 1 && k <= |records|
    ensures Span(records[..k]) == Span(records[..p]) + 1 + |records[p]|
    ensures JoinWith(records[..k], sep) == JoinWith(records[..p], sep) + [sep] + records[p]
  {
    assert records[..k][..p] == records[..p];
  }

  /** Where record `i` ends in the joined bytes. */
  function End(records: seq<seq<Byte>>, i: nat): int
    requires i < |records|
  {
    Starts(records)[i] + |records[i]|
  }

  /** Record `p` ends where the first `k` records joined end. */
  lemma EndSpan(records: seq<seq<Byte>>, p: nat, k: nat)
    requires k == p + 1 && k <= |records|
    ensures End(records, p) == Span(records[..k])
  {
    if p == 0 {
      assert records[..k] == [records[0]];
    } else {
      StartsAt(records, p);
      JoinNext(records, RECORD_MARK, p, k);
    }
  }

  /** Record `i` sits at its start offset in the joined bytes, followed by a
      separator or by the end. */
  lemma RecordAt(records: seq<seq<Byte>>, sep: Byte, i: nat)
    requires i < |records|
    ensures var s := Starts(records)[i];
            var j := JoinWith(records, sep);
            && 0 <= s <= End(records, i) <= |j|
            && j[s..End(records, i)] == records[i]
            && (i + 1 < |records| <==> End(records, i) < |j|)
            && (End(records, i) < |j| ==> j[End(records, i)] == sep)
  {
    var k := i + 1;
    var j := JoinWith(records, sep);
    var p := JoinWith(records[..k], sep);
    JoinPrefix(records, sep, k);
    EndSpan(records, i, k);
    if i == 0 {
      assert records[..k] == [records[0]];
      Within(j, |p|, 0, |p|);
    } else {
      StartsAt(records, i);
      JoinNext(records, sep, i, k);
      var a := JoinWith(records[..i], sep);
      Within(j, |p|, Starts(records)[i], |p|);
      Back(a, sep, records[i]);
    }
    if k == |records| {
      assert records[..k] == records;
    }
  }

  // ---------------------------------------------------------------------------
  // The terminating loop of process_data

  /** One more round of the loop: the NUL lands just before record `p`. */
  lemma TerminateStep(x: seq<Byte>, argv: seq<int>, p: nat, k: nat, a: seq<Byte>, rec: seq<Byte>, e: nat)
    requires 1 <= p && k == p + 1 && k <= |argv| && forall i | 0 <= i < |argv| :: 0 <= argv[i] <= |x|
    requires argv[p] == |a| + 1 && e == argv[p] + |rec| && e <= |x|
    requires Terminated(x, argv, p) == a + x[|a|..]
    requires x[argv[p]..e] == rec
    ensures Terminated(x, argv, k) == a + [NUL] + rec + x[e..]
  {
    var t := Terminated(x, argv, p);
    assert Terminated(x, argv, k) == t[|a| := NUL];
    Splice3(x, a, argv[p], e);
  }

  lemma Splice3(x: seq<Byte>, a: seq<Byte>, s: nat, e: nat)
    requires s == |a| + 1 && s <= e <= |x|
    ensures (a + x[|a|..])[|a| := NUL] == a + [NUL] + x[s..e] + x[e..]
  {
  }

  lemma Halves(x: seq<Byte>, p: nat)
    requires p <= |x|
    ensures x == x[..p] + x[p..]
  {
  }

  lemma Front(a: seq<Byte>, b: seq<Byte>)
    ensures (a + b)[..|a|] == a && (a + b)[|a|..] == b
  {
  }

  lemma Back(a: seq<Byte>, sep: Byte, rec: seq<Byte>)
    ensures (a + [sep] + rec)[|a| + 1..] == rec
  {
  }

  lemma Within(x: seq<Byte>, p: nat, s: nat, e: nat)
    requires s <= e <= p <= |x|
    ensures x[..p][s..e] == x[s..e]
  {
  }

  lemma Inside(a: seq<Byte>, b: seq<Byte>, s: nat, e: nat)
    requires s <= e <= |a|
    ensures (a + b)[s..e] == a[s..e]
  {
  }

  /** Before the loop: the first record is in place. */
  lemma TerminateFirst(x: seq<Byte>, records: seq<seq<Byte>>)
    requires 1 <= |records| && Span(records) <= |x|
    requires x[..Span(records)] == JoinWith(records, RECORD_MARK)
    ensures var p := Span(records[..1]);
            p <= |x| && Terminated(x, Starts(records), 1) == JoinWith(records[..1], NUL) + x[p..]
  {
    JoinPrefix(records, RECORD_MARK, 1);
    var first := records[..1];
    assert JoinWith(first, NUL) == JoinWith(first, RECORD_MARK);
    Within(x, Span(records), 0, Span(first));
    Halves(x, Span(first));
  }

  /** After the loop has run for the first `k` records of a frame received
      with RS separators, those records are joined by NULs instead. */
  lemma {:induction false} TerminateJoin(x: seq<Byte>, records: seq<seq<Byte>>, k: nat)
    requires 1 <= k <= |records| && Span(records) <= |x|
    requires x[..Span(records)] == JoinWith(records, RECORD_MARK)
    ensures var p := Span(records[..k]);
            p <= |x| && Terminated(x, Starts(records), k) == JoinWith(records[..k], NUL) + x[p..]
  {
    if k == 1 {
      TerminateFirst(x, records);
    } else {
      var p := k - 1;
      TerminateJoin(x, records, p);
      StartsAt(records, p);
      JoinNext(records, NUL, p, k);
      RecordAt(records, RECORD_MARK, p);
      EndSpan(records, p, k);
      Within(x, Span(records), Starts(records)[p], End(records, p));
      TerminateStep(x, Starts(records), p, k, JoinWith(records[..p], NUL), records[p], End(records, p));
    }
  }

  /** All records of a frame received with RS separators, joined by NULs once
      the loop has run to the end. */
  lemma TerminateAll(x: seq<Byte>, records: seq<seq<Byte>>)
    requires 1 <= |records| && Span(records) <= |x|
    requires x[..Span(records)] == JoinWith(records, RECORD_MARK)
    ensures Terminated(x, Starts(records), |records|) == JoinWith(records, NUL) + x[Span(records)..]
  {
    TerminateJoin(x, records, |records|);
    assert records[..|records|] == records;
  }

  /** The bytes of `b` past offset `n`. */
  function After(b: seq<Byte>, n: nat): seq<Byte>
    requires n < |b|
  {
    b[n + 1..]
  }

  /** The buffer of a frame of `records` received over `b`, just after ETX:
      the records with their RS separators, then the NUL stored at ETX. */
  function Received(b: seq<Byte>, records: seq<seq<Byte>>): (x: seq<Byte>)
    requires 1 <= |records| && Span(records) < |b|
    ensures |x| == |b|
  {
    Splice(b, JoinWith(records, RECORD_MARK))[Span(records) := NUL]
  }

  /** What the buffer holds once the loop of process_data has run on a frame
      of `records`: the records joined by NULs, then the NUL stored at ETX. */
  function Cut(b: seq<Byte>, records: seq<seq<Byte>>): seq<Byte>
    requires 1 <= |records| && Span(records) < |b|
  {
    JoinWith(records, NUL) + ([NUL] + After(b, Span(records)))
  }

  /** `j` written over the front of `b`, then a NUL just past it. */
  lemma SpliceNul(b: seq<Byte>, j: seq<Byte>, n: nat)
    requires n == |j| < |b|
    ensures var x := Splice(b, j)[n := NUL];
            x[..n] == j && x[n..] == [NUL] + After(b, n)
  {
  }

  /** The buffer of a frame of `records` just after ETX, once the loop has
      run. */
  lemma TerminateFrame(b: seq<Byte>, records: seq<seq<Byte>>)
    requires 1 <= |records| && Span(records) < |b|
    ensures Terminated(Received(b, records), Starts(records), |records|) == Cut(b, records)
  {
    SpliceNul(b, JoinWith(records, RECORD_MARK), Span(records));
    TerminateAll(Received(b, records), records);
  }

  /** A record ended by a NUL, or by the end of the joined records, reads back
      as itself. */
  lemma ReadBetween(j: seq<Byte>, rest: seq<Byte>, s: nat, e: nat, rec: seq<Byte>)
    requires s <= e <= |j| && j[s..e] == rec && Plain(rec)
    requires e < |j| ==> j[e] == NUL
    ensures CStr(j + ([NUL] + rest), s) == rec
  {
    var b := j + ([NUL] + rest);
    Inside(j, [NUL] + rest, s, e);
    assert NUL !in b[s..e];
    if e < |j| {
      assert b[e] == j[e];
    }
    CStrIs(b, s, e);
  }

  /** With no NUL inside a record, each `argv` entry reads back its record. */
  lemma ReadRecord(records: seq<seq<Byte>>, rest: seq<Byte>, i: nat)
    requires i < |records| && AllPlain(records)
    ensures var s := Starts(records)[i];
            s <= Span(records) && CStr(JoinWith(records, NUL) + ([NUL] + rest), s) == records[i]
  {
    RecordAt(records, NUL, i);
    var s := Starts(records)[i];
    ReadBetween(JoinWith(records, NUL), rest, s, End(records, i), records[i]);
  }

  // ---------------------------------------------------------------------------
  // The header of the first record

  /** A request header as the sender writes it: `[id '@'] name [':' sequence]`. */
  datatype Request = Request(id: Option<seq<Byte>>, name: seq<Byte>, sequence: Option<seq<Byte>>)

  /** A header field that survives the split: a plain record holding neither
      header mark. */
  predicate Word(w: seq<Byte>) {
    Plain(w) && ID_MARK !in w && SEQUENCE_MARK !in w
  }

  predicate WellFormed(q: Request) {
    (q.id.Some? ==> Word(q.id.value)) && Word(q.name) && (q.sequence.Some? ==> Word(q.sequence.value))
  }

  /** The header bytes the sender puts in the first record. */
  function Head(q: Request): seq<Byte> {
    (if q.id.Some? then q.id.value + [ID_MARK] else [])
    + q.name
    + (if q.sequence.Some? then [SEQUENCE_MARK] + q.sequence.value else [])
  }

  /** The same bytes after the split: each mark replaced by a NUL. */
  function HeadCut(q: Request): seq<Byte> {
    (if q.id.Some? then q.id.value + [NUL] else [])
    + q.name
    + (if q.sequence.Some? then [NUL] + q.sequence.value else [])
  }

  /** Where the name starts. */
  function NameAt(q: Request): nat {
    if q.id.Some? then |q.id.value| + 1 else 0
  }

  /** Where the name ends. */
  function NameEnd(q: Request): nat {
    NameAt(q) + |q.name|
  }

  /** Where the sequence starts and ends, when there is one. */
  function SeqStart(q: Request): nat {
    NameEnd(q) + 1
  }

  function SeqEnd(q: Request): nat
    requires q.sequence.Some?
  {
    SeqStart(q) + |q.sequence.value|
  }

  function SequenceAt(q: Request): Option<nat> {
    if q.sequence.Some? then Some(SeqStart(q)) else None
  }

  lemma HeadLayout(q: Request)
    ensures |HeadCut(q)| == |Head(q)|
    ensures q.id.Some? ==> Head(q)[..|q.id.value|] == q.id.value && Head(q)[|q.id.value|] == ID_MARK
    ensures Head(q)[NameAt(q)..NameEnd(q)] == q.name
    ensures q.sequence.Some? ==> Head(q)[NameEnd(q)] == SEQUENCE_MARK
                                 && Head(q)[SeqStart(q)..] == q.sequence.value
    ensures q.id.None? ==> NameAt(q) == 0
    ensures q.sequence.None? ==> NameEnd(q) == |Head(q)|
    ensures q.sequence.Some? ==> SeqEnd(q) == |Head(q)|
  {
  }

  /** The first `seperate_header` call: the '@' of the header, if any. */
  lemma SplitId(q: Request, rest: seq<Byte>)
    requires WellFormed(q) && rest != [] && rest[0] == NUL
    ensures var b := Head(q) + rest;
            StrChr(b, 0, ID_MARK) == if q.id.Some? then Some(|q.id.value|) else None
  {
    var h := Head(q);
    var b := h + rest;
    HeadLayout(q);
    if q.id.Some? {
      var id := q.id.value;
      forall j | 0 <= j < |id| ensures b[j] != ID_MARK && b[j] != NUL {
        assert b[j] == id[j];
      }
      StrChrFinds(b, 0, ID_MARK, |id|);
    } else {
      forall j | 0 <= j < |h| ensures b[j] != ID_MARK {
        if j < |q.name| {
          assert b[j] == q.name[j];
        } else if j > |q.name| {
          assert b[j] == q.sequence.value[j - |q.name| - 1];
        }
      }
      StrChrMisses(b, 0, ID_MARK, |h|);
    }
  }

  /** The header after the first cut: the '@', if any, is a NUL. */
  function IdCut(q: Request): seq<Byte> {
    (if q.id.Some? then q.id.value + [NUL] else [])
    + q.name
    + (if q.sequence.Some? then [SEQUENCE_MARK] + q.sequence.value else [])
  }

  lemma CutId(q: Request, rest: seq<Byte>)
    requires q.id.Some?
    ensures (Head(q) + rest)[|q.id.value| := NUL] == IdCut(q) + rest
  {
  }

  /** The second `seperate_header` call, from the name: the ':' of the
      header, if any. */
  lemma SplitSequence(q: Request, rest: seq<Byte>)
    requires WellFormed(q) && rest != [] && rest[0] == NUL
    ensures |IdCut(q)| == |Head(q)|
    ensures StrChr(IdCut(q) + rest, NameAt(q), SEQUENCE_MARK)
            == if q.sequence.Some? then Some(NameEnd(q)) else None
  {
    var c := IdCut(q);
    var b := c + rest;
    var n := NameAt(q);
    var e := NameEnd(q);
    IdCutLayout(q);
    WordIn(c, rest, n, e, q.name);
    if q.sequence.Some? {
      assert b[e] == SEQUENCE_MARK;
      StrChrFinds(b, n, SEQUENCE_MARK, e);
    } else {
      StrChrMisses(b, n, SEQUENCE_MARK, e);
    }
  }

  /** Where the name sits after the first cut, and what follows it. */
  lemma IdCutLayout(q: Request)
    ensures |IdCut(q)| == |Head(q)| && NameEnd(q) <= |IdCut(q)|
    ensures IdCut(q)[NameAt(q)..NameEnd(q)] == q.name
    ensures q.sequence.Some? ==> NameEnd(q) < |IdCut(q)| && IdCut(q)[NameEnd(q)] == SEQUENCE_MARK
    ensures q.sequence.None? ==> NameEnd(q) == |IdCut(q)|
  {
  }

  /** No mark and no NUL inside a word. */
  lemma WordIn(c: seq<Byte>, rest: seq<Byte>, n: nat, e: nat, w: seq<Byte>)
    requires n <= e <= |c| && c[n..e] == w && Word(w)
    ensures forall j | n <= j < e :: (c + rest)[j] != SEQUENCE_MARK && (c + rest)[j] != NUL
  {
    forall j | n <= j < e ensures (c + rest)[j] != SEQUENCE_MARK && (c + rest)[j] != NUL {
      assert (c + rest)[j] == w[j - n];
    }
  }

  lemma CutSequence(q: Request, rest: seq<Byte>)
    requires q.sequence.Some?
    ensures (IdCut(q) + rest)[NameEnd(q) := NUL] == HeadCut(q) + rest
  {
  }

  /** The first `seperate_header` call on a header written by the sender. */
  lemma SeparateId(q: Request, rest: seq<Byte>)
    requires WellFormed(q) && rest != [] && rest[0] == NUL
    ensures SeparateHeader(Head(q) + rest, 0, ID_MARK)
            == (IdCut(q) + rest, if q.id.Some? then Some(NameAt(q)) else None)
  {
    SplitId(q, rest);
    if q.id.Some? {
      CutId(q, rest);
    } else {
      assert Head(q) == IdCut(q);
    }
  }

  /** The second `seperate_header` call, from the name. */
  lemma SeparateSequence(q: Request, rest: seq<Byte>)
    requires WellFormed(q) && rest != [] && rest[0] == NUL
    ensures NameAt(q) <= |IdCut(q) + rest|
    ensures SeparateHeader(IdCut(q) + rest, NameAt(q), SEQUENCE_MARK) == (HeadCut(q) + rest, SequenceAt(q))
  {
    SplitSequence(q, rest);
    if q.sequence.Some? {
      CutSequence(q, rest);
    } else {
      assert IdCut(q) == HeadCut(q);
    }
  }

  /** Both calls of `seperate_header` on a header written by the sender:
      the marks become NULs, `id` points at the start when there is one, the
      name follows, and `sequence` points past the ':' when there is one. */
  lemma SplitHead(q: Request, rest: seq<Byte>)
    requires WellFormed(q) && rest != [] && rest[0] == NUL
    ensures SplitHeader(Head(q) + rest, 0)
            == Header(HeadCut(q) + rest, if q.id.Some? then Some(0) else None, NameAt(q), SequenceAt(q))
  {
    SeparateId(q, rest);
    SeparateSequence(q, rest);
  }

  /** A field of the header, ended by a NUL at `e`, reads back as sent. */
  lemma FieldString(c: seq<Byte>, w: seq<Byte>, s: nat, e: nat)
    requires Plain(w) && e == s + |w| && e < |c| && c[s..e] == w && c[e] == NUL
    ensures CStr(c, s) == w
  {
    assert NUL !in w;
    CStrIs(c, s, e);
  }

  /** Where the three fields sit once the marks are NULs. */
  lemma CutLayout(q: Request, rest: seq<Byte>)
    requires rest != [] && rest[0] == NUL
    ensures var c := HeadCut(q) + rest;
            && NameEnd(q) < |c| && c[NameAt(q)..NameEnd(q)] == q.name && c[NameEnd(q)] == NUL
            && (q.id.Some? ==> |q.id.value| < |c| && c[0..|q.id.value|] == q.id.value && c[|q.id.value|] == NUL)
            && (q.sequence.Some? ==> SeqEnd(q) < |c| && c[SeqStart(q)..SeqEnd(q)] == q.sequence.value
                                     && c[SeqEnd(q)] == NUL)
  {
    var c := HeadCut(q) + rest;
    if q.sequence.Some? {
      assert c[SeqStart(q)..SeqEnd(q)] == q.sequence.value;
    }
  }

  /** What the handler reads after the split: the three strings as sent. */
  lemma HeadStrings(q: Request, rest: seq<Byte>)
    requires WellFormed(q) && rest != [] && rest[0] == NUL
    ensures var c := HeadCut(q) + rest;
            var id := if q.id.Some? then Some(0) else None;
            && NameAt(q) <= |c|
            && (SequenceAt(q).Some? ==> SequenceAt(q).value <= |c|)
            && CStr(c, NameAt(q)) == q.name
            && OptionalString(c, id) == q.id
            && OptionalString(c, SequenceAt(q)) == q.sequence
  {
    var c := HeadCut(q) + rest;
    CutLayout(q, rest);
    FieldString(c, q.name, NameAt(q), NameEnd(q));
    if q.id.Some? {
      FieldString(c, q.id.value, 0, |q.id.value|);
    }
    if q.sequence.Some? {
      FieldString(c, q.sequence.value, SeqStart(q), SeqEnd(q));
    }
  }

  /** The reply header that `hupacket_reset_txbuffer` writes is the request
      header exactly as the sender wrote it. */
  lemma EchoHead(q: Request, rest: seq<Byte>)
    requires WellFormed(q) && rest != [] && rest[0] == NUL
    ensures var c := HeadCut(q) + rest;
            TxHeader(c, if q.id.Some? then Some(0) else None, NameAt(q), SequenceAt(q)) == Head(q)
  {
    HeadStrings(q, rest);
  }

  // ---------------------------------------------------------------------------
  // A whole frame at ETX

  /** Records after the first start past it and its NUL. */
  lemma StartsAfterFirst(records: seq<seq<Byte>>, i: nat)
    requires 1 <= i < |records|
    ensures Starts(records)[i] > |records[0]|
  {
    StartsAt(records, i);
    JoinPrefix(records[..i], RECORD_MARK, 1);
    assert records[..i][..1] == [records[0]];
  }

  /** The terminated buffer begins with the first record and a NUL. */
  lemma FirstRecordFront(records: seq<seq<Byte>>, rest: seq<Byte>)
    requires |records| >= 1
    ensures var b := JoinWith(records, NUL) + ([NUL] + rest);
            var f := records[0];
            && |f| < |b| && b == f + b[|f|..] && b[|f|] == NUL
            && b[|f|..] != [] && b[|f|..][0] == NUL
  {
    var j := JoinWith(records, NUL);
    var b := j + ([NUL] + rest);
    var f := records[0];
    RecordAt(records, NUL, 0);
    Inside(j, [NUL] + rest, 0, |f|);
    if 1 < |records| {
      assert b[|f|] == j[|f|];
    }
    Halves(b, |f|);
  }

  lemma SuffixAgree(c: seq<Byte>, b: seq<Byte>, p: nat, i: nat)
    requires p <= i <= |c| == |b| && c[p..] == b[p..]
    ensures c[i..] == b[i..]
  {
    assert c[i..] == c[p..][i - p..];
    assert b[i..] == b[p..][i - p..];
  }

  /** Args is fixed by the string each entry points at. */
  lemma ArgsAre(c: seq<Byte>, argv: seq<int>, want: seq<string>)
    requires |argv| == |want|
    requires forall i | 0 <= i < |argv| :: 0 <= argv[i] <= |c| && CStr(c, argv[i]) == want[i]
    ensures Args(c, argv) == want
  {
  }

  /** Record `i` > 0 still reads back once the header is split. */
  lemma ArgAfterHead(records: seq<seq<Byte>>, q: Request, rest: seq<Byte>, i: nat)
    requires 1 <= i < |records| && AllPlain(records) && WellFormed(q) && records[0] == Head(q)
    ensures var b := JoinWith(records, NUL) + ([NUL] + rest);
            |Head(q)| < |b| &&
            var c := HeadCut(q) + b[|Head(q)|..];
            Starts(records)[i] <= |c| && CStr(c, Starts(records)[i]) == records[i]
  {
    var b := JoinWith(records, NUL) + ([NUL] + rest);
    var h := |Head(q)|;
    FirstRecordFront(records, rest);
    HeadLayout(q);
    var c := HeadCut(q) + b[h..];
    Front(HeadCut(q), b[h..]);
    StartsAfterFirst(records, i);
    ReadRecord(records, rest, i);
    SuffixAgree(c, b, h, Starts(records)[i]);
    CStrAgree(c, b, Starts(records)[i]);
  }

  lemma ConsTail(x: seq<Byte>, records: seq<seq<Byte>>, i: nat)
    requires 1 <= i < |records|
    ensures ([x] + records[1..])[i] == records[i]
  {
  }

  /** The strings `argv` points at once the header is split: the name, then
      every other record as sent. */
  lemma FrameArgs(records: seq<seq<Byte>>, q: Request, rest: seq<Byte>)
    requires 1 <= |records| && AllPlain(records) && WellFormed(q) && records[0] == Head(q)
    ensures var b := JoinWith(records, NUL) + ([NUL] + rest);
            |Head(q)| < |b| &&
            var c := HeadCut(q) + b[|Head(q)|..];
            var argv := Starts(records)[0 := NameAt(q)];
            && |c| == |b|
            && (forall i | 0 <= i < |argv| :: 0 <= argv[i] <= |c|)
            && Args(c, argv) == [q.name] + records[1..]
  {
    var b := JoinWith(records, NUL) + ([NUL] + rest);
    var h := |Head(q)|;
    FirstRecordFront(records, rest);
    HeadLayout(q);
    var tail := b[h..];
    var c := HeadCut(q) + tail;
    var argv := Starts(records)[0 := NameAt(q)];
    HeadStrings(q, tail);
    var want := [q.name] + records[1..];
    forall i | 1 <= i < |argv| ensures 0 <= argv[i] <= |c| && CStr(c, argv[i]) == want[i] {
      ArgAfterHead(records, q, rest, i);
      ConsTail(q.name, records, i);
    }
    ArgsAre(c, argv, want);
  }

  /** The handle after STX and `records` joined by RS arrived from idle: the
      records at the front of the buffer, `argv` at their starts. */
  function Fed(b: seq<Byte>, records: seq<seq<Byte>>, tx: string): Rx
    requires 1 <= |records| && Span(records) <= |b|
  {
    Rx(Span(records), Starts(records), false, None, None, Splice(b, JoinWith(records, RECORD_MARK)), tx)
  }

  /** The handle at ETX after a frame of `records` arrived from idle: the
      records at the front of the buffer, the NUL stored at ETX after them. */
  function AtEnd(b: seq<Byte>, records: seq<seq<Byte>>, tx: string): Rx
    requires 1 <= |records| && Span(records) < |b|
  {
    Rx(Span(records), Starts(records), false, None, None,
       Received(b, records), tx)
  }

  /** The call the sender of a frame with header `q` and `records` expects. */
  function Expected(registry: seq<string>, q: Request, records: seq<seq<Byte>>, matched: bool): Option<Call>
    requires 1 <= |records|
  {
    match FirstMatch(registry, q.name)
    case None => None
    case Some(j) => Some(Call(j, matched, [q.name] + records[1..], q.id, q.sequence, Head(q)))
  }

  lemma NoTerminateOverrun(records: seq<seq<Byte>>)
    requires 1 <= |records|
    ensures !TerminateOverruns(Starts(records))
  {
    forall i | 1 <= i < |records| ensures Starts(records)[i] != 0 {
      StartsAfterFirst(records, i);
    }
  }

  /** The split of the header, for a frame at ETX. */
  lemma HeaderAtEnd(b: seq<Byte>, records: seq<seq<Byte>>, q: Request, tx: string)
    requires 1 <= |records| <= ARGV_SIZE && AllPlain(records) && Span(records) < |b|
    requires WellFormed(q) && records[0] == Head(q)
    ensures InFrame(AtEnd(b, records, tx))
    ensures var r := AtEnd(b, records, tx);
            var c := Cut(b, records);
            && |Head(q)| < |c| && c[|Head(q)|] == NUL
            && Terminated(r.buf, r.argv, |r.argv|) == c
            && SplitHeader(c, 0) == Header(HeadCut(q) + c[|Head(q)|..], if q.id.Some? then Some(0) else None, NameAt(q), SequenceAt(q))
  {
    TerminateFrame(b, records);
    FirstRecordFront(records, After(b, Span(records)));
    SplitHead(q, Cut(b, records)[|Head(q)|..]);
  }

  /** Deliver, once the terminated buffer and the header split are known. */
  lemma DeliverIs(r: Rx, registry: seq<string>, matched: bool, c: seq<Byte>, h: Header)
    requires InFrame(r)
    requires Terminated(r.buf, r.argv, |r.argv|) == c && SplitHeader(c, r.argv[0]) == h
    ensures Deliver(r, registry, matched).call
            == match FirstMatch(registry, CStr(h.buf, h.name))
               case None => None
               case Some(j) =>
                 Some(Call(j, matched, Args(h.buf, r.argv[0 := h.name]), OptionalString(h.buf, h.id),
                           OptionalString(h.buf, h.sequence), TxHeader(h.buf, h.id, h.name, h.sequence)))
  {
  }

  /** The handler call of process_data on a frame of plain records whose first
      record is a header `q`. */
  lemma DeliverCall(b: seq<Byte>, records: seq<seq<Byte>>, q: Request, tx: string,
                    registry: seq<string>, matched: bool)
    requires 1 <= |records| <= ARGV_SIZE && AllPlain(records) && Span(records) < |b|
    requires WellFormed(q) && records[0] == Head(q)
    ensures InFrame(AtEnd(b, records, tx))
    ensures Deliver(AtEnd(b, records, tx), registry, matched).call == Expected(registry, q, records, matched)
  {
    HeaderAtEnd(b, records, q, tx);
    var rest := After(b, Span(records));
    var c := Cut(b, records);
    assert c == JoinWith(records, NUL) + ([NUL] + rest);
    var tail := c[|Head(q)|..];
    var hb := HeadCut(q) + tail;
    var id := if q.id.Some? then Some(0) else None;
    HeadStrings(q, tail);
    EchoHead(q, tail);
    FrameArgs(records, q, rest);
    var args := Args(hb, Starts(records)[0 := NameAt(q)]);
    assert args == [q.name] + records[1..];
    DeliverIs(AtEnd(b, records, tx), registry, matched, Cut(b, records),
              Header(hb, id, NameAt(q), SequenceAt(q)));
  }

  /** The handle after process_data on the same frame. */
  lemma DeliverState(b: seq<Byte>, records: seq<seq<Byte>>, q: Request, tx: string,
                     registry: seq<string>, matched: bool)
    requires 1 <= |records| <= ARGV_SIZE && AllPlain(records) && Span(records) < |b|
    requires WellFormed(q) && records[0] == Head(q)
    ensures InFrame(AtEnd(b, records, tx))
    ensures var o := Deliver(AtEnd(b, records, tx), registry, matched);
            !o.overrun && o.rx.tx == (if FirstMatch(registry, q.name).Some? then Head(q) else tx)
  {
    HeaderAtEnd(b, records, q, tx);
    var tail := Cut(b, records)[|Head(q)|..];
    HeadStrings(q, tail);
    EchoHead(q, tail);
    NoTerminateOverrun(records);
  }

  /** process_data on a frame of plain records whose first record is a
      header `q`: the first command named `q.name` is called with the name
      and the other records as its arguments, `q`'s id and sequence, and
      `q`'s header echoed in the reply buffer; nothing is written outside
      the buffer and the handle is idle again. */
  lemma DeliverRequest(b: seq<Byte>, records: seq<seq<Byte>>, q: Request, tx: string,
                       registry: seq<string>, matched: bool)
    requires 1 <= |records| <= ARGV_SIZE && AllPlain(records) && Span(records) < |b|
    requires WellFormed(q) && records[0] == Head(q)
    ensures InFrame(AtEnd(b, records, tx))
    ensures var o := Deliver(AtEnd(b, records, tx), registry, matched);
            && o.call == Expected(registry, q, records, matched)
            && !o.overrun && Idle(o.rx)
            && o.rx.tx == (if o.call.Some? then Head(q) else tx)
  {
    DeliverCall(b, records, q, tx, registry, matched);
    DeliverState(b, records, q, tx, registry, matched);
  }
}
