/**
 * The read loop of the monitor (read_message with print_message): every
 * read goes through the reassembler, and what it leads to is reported as a
 * dump, a decoded event, or nothing.
 */
module Monitor {
  import opened Bytes
  import opened HexDump
  import opened Decoder
  import opened Reassembly

  /** What is printed for one read. */
  datatype Report =
    | Silent                       // nothing read, or the message is not complete yet
    | BogusPacket(dump: seq<Row>)  // "Got bogus packet, dump:" and the whole fragment
    | Discarded(dump: seq<Row>)    // the fragment would overrun the message buffer
    | Decoded(event: Event)        // one of the seven event lines
    | RawDump(dump: seq<Row>)      // a completed message that is not decoded

  /** print_message for a completed message m. */
  function MessageReport(m: seq<byte>): (r: Report)
    ensures r.RawDump? || r.Decoded?
    ensures r.RawDump? ==> Decode(m).Unrecognized? && Flatten(r.dump) == m && |r.dump| == RowCount(|m|)
    ensures r.RawDump? ==> forall k :: 0 <= k < |r.dump| ==> r.dump[k].offset == 16 * k
    ensures r.Decoded? ==> !r.event.Unrecognized? && r.event == Decode(m)
  {
    FlattenDumpRows(m, 0);
    DumpRowsShape(m, 0);
    var e := Decode(m);
    if e.Unrecognized? then RawDump(DumpRows(m, 0)) else Decoded(e)
  }

  /** What one read prints: nothing, the whole fragment, or the completed message's report. */
  function ReportOf(o: Outcome): (r: Report)
    ensures r.Silent? <==> o.NoData? || o.Pending?
    ensures o.Bogus? ==> r.BogusPacket? && Flatten(r.dump) == o.fragment
    ensures o.Overflow? ==> r.Discarded? && Flatten(r.dump) == o.fragment
    ensures o.Complete? ==> r == MessageReport(o.message)
  {
    FlattenDumpRows(if o.Bogus? || o.Overflow? then o.fragment else [], 0);
    match o
    case NoData => Silent
    case Pending => Silent
    case Bogus(f) => BogusPacket(DumpRows(f, 0))
    case Overflow(f) => Discarded(DumpRows(f, 0))
    case Complete(m) => MessageReport(m)
  }

  /** print_message. */
  method PrintMessage(m: seq<byte>) returns (r: Report)
    ensures r == MessageReport(m)
  {
    var e := Decode(m);
    if e.Unrecognized? {
      var rows := PrintBuf(m, 0);
      r := RawDump(rows);
    } else {
      r := Decoded(e);
    }
  }

  /** What read_message prints for the outcome of one read. */
  method PrintOutcome(o: Outcome) returns (report: Report)
    ensures report == ReportOf(o)
  {
    match o {
      case NoData => report := Silent;
      case Pending => report := Silent;
      case Bogus(f) =>
        var rows := PrintBuf(f, 0);
        report := BogusPacket(rows);
      case Overflow(f) =>
        var rows := PrintBuf(f, 0);
        report := Discarded(rows);
      case Complete(m) =>
        report := PrintMessage(m);
    }
  }

  /** read_message: the reads frags, in order, against the reassembler r. */
  method ReadMessages(r: Reassembler, frags: seq<seq<byte>>) returns (reports: seq<Report>)
    requires r.Valid()
    modifies r, r.buf
    ensures r.Valid()
    ensures r.Contents() == Run(old(r.Contents()), frags).buffer
    ensures |reports| == |frags|
    ensures forall i :: 0 <= i < |frags| ==> reports[i] == ReportOf(Run(old(r.Contents()), frags).outcomes[i])
  {
    ghost var start := r.Contents();
    ghost var outs: seq<Outcome> := [];
    reports := [];
    var i := 0;
    while i < |frags|
      invariant 0 <= i <= |frags|
      invariant r.Valid()
      invariant r.Contents() == Run(start, frags[..i]).buffer
      invariant outs == Run(start, frags[..i]).outcomes
      invariant |reports| == i
      invariant forall j :: 0 <= j < i ==> reports[j] == ReportOf(outs[j])
    {
      ghost var step := Step(r.Contents(), frags[i]);
      assert Run(start, frags[..i + 1]) == Trace(step.next, outs + [step.outcome]) by {
        assert frags[..i + 1][..i] == frags[..i];
      }
      var o := r.HandleFragment(frags[i]);
      var report := PrintOutcome(o);
      reports := reports + [report];
      outs := outs + [o];
      i := i + 1;
    }
    assert frags[..i] == frags;
  }

  /** A bogus fragment is dumped in full, in rows of 16 labelled from offset 0. */
  lemma BogusDumpsWholeFragment(f: seq<byte>)
    ensures var rows := ReportOf(Bogus(f)).dump;
      && Flatten(rows) == f
      && |rows| == RowCount(|f|)
      && forall k :: 0 <= k < |rows| ==> rows[k].offset == 16 * k
  {
    FlattenDumpRows(f, 0);
    DumpRowsShape(f, 0);
  }

  /**
   * A completed message is dumped whole exactly when it is under 8 bytes,
   * has an unknown tag, or is too short for its tag's fields; otherwise its
   * event is reported.
   */
  lemma MessageReportCases(m: seq<byte>)
    ensures MessageReport(m).RawDump? <==>
      |m| < 8 || TypeOfTag(Tag(m)).None? || |m| < FieldsEnd(TypeOfTag(Tag(m)).value)
    ensures MessageReport(m).RawDump? ==> Flatten(MessageReport(m).dump) == m
    ensures !MessageReport(m).RawDump? ==> MessageReport(m) == Decoded(Decode(m))
  {
    DecodeUnrecognizedIff(m);
    FlattenDumpRows(m, 0);
  }

  /** The canonical message of an event is one the reassembler reports as complete. */
  lemma EncodedComplete(e: Event)
    requires WellFormed(e)
    ensures MessageComplete(Encode(e)) && |Encode(e)| <= Capacity
  {
  }

  /**
   * A completed message cut into accepted fragments, the last payload not
   * empty, prints nothing until the last fragment, and the buffer is then
   * empty again.
   */
  lemma SilentUntilLastFragment(msg: seq<byte>, fs: seq<seq<byte>>)
    requires MessageComplete(msg) && |msg| <= Capacity
    requires forall i :: 0 <= i < |fs| ==> Accepted(fs[i])
    requires Payloads(fs) == msg
    requires fs != [] && Payload(fs[|fs| - 1]) != []
    ensures Run([], fs).buffer == []
    ensures forall i :: 0 <= i < |fs| - 1 ==> ReportOf(Run([], fs).outcomes[i]) == Silent
  {
    ReassembleMessage(msg, fs);
  }

  /** ... and the last fragment prints the message's own report. */
  lemma LastFragmentReports(msg: seq<byte>, fs: seq<seq<byte>>)
    requires MessageComplete(msg) && |msg| <= Capacity
    requires forall i :: 0 <= i < |fs| ==> Accepted(fs[i])
    requires Payloads(fs) == msg
    requires fs != [] && Payload(fs[|fs| - 1]) != []
    ensures ReportOf(Run([], fs).outcomes[|fs| - 1]) == MessageReport(msg)
  {
    var last := Run([], fs).outcomes[|fs| - 1];
    assert last == Complete(msg) by {
      ReassembleMessage(msg, fs);
    }
  }

  /**
   * End to end: the canonical message of an event, cut into any accepted
   * fragments whose last payload is not empty, prints nothing until the
   * last fragment, which prints the event.
   */
  lemma EventSurvivesFragmentation(e: Event, fs: seq<seq<byte>>)
    requires WellFormed(e)
    requires forall i :: 0 <= i < |fs| ==> Accepted(fs[i])
    requires Payloads(fs) == Encode(e)
    requires fs != [] && Payload(fs[|fs| - 1]) != []
    ensures Run([], fs).buffer == []
    ensures forall i :: 0 <= i < |fs| - 1 ==> ReportOf(Run([], fs).outcomes[i]) == Silent
    ensures ReportOf(Run([], fs).outcomes[|fs| - 1]) == Decoded(e)
  {
    EncodedComplete(e);
    DecodeEncode(e);
    SilentUntilLastFragment(Encode(e), fs);
    LastFragmentReports(Encode(e), fs);
  }

  // ---- worked examples ----

  /** Tag 0x27004000 (bytes 00 40 00 27) with 5 at offset 8 is preset 5. */
  lemma PresetSelectedExample()
    ensures MessageReport([0x02, 0x00, 0x00, 0x00, 0x00, 0x40, 0x00, 0x27, 0x05, 0x00, 0x00, 0x00])
         == Decoded(PresetSelected(5))
  {
    var m: seq<byte> := [0x02, 0x00, 0x00, 0x00, 0x00, 0x40, 0x00, 0x27, 0x05, 0x00, 0x00, 0x00];
    assert Tag(m) == 0x27004000;
    assert U32Le(m, 8) == 5;
  }

  /** A 4-byte message is dumped as the single row "0000: 00 00 00 00". */
  lemma ShortMessageExample()
    ensures MessageComplete([0x00, 0x00, 0x00, 0x00])
    ensures MessageReport([0x00, 0x00, 0x00, 0x00]) == RawDump([Row(0, [0x00, 0x00, 0x00, 0x00])])
    ensures RowText(Row(0, [0x00, 0x00, 0x00, 0x00])) == "0000: 00 00 00 00\n"
  {
    assert Hex(0) == "0";
    assert PadHex(0, 2) == "00";
    assert PadHex(0, 4) == "0000";
  }

  /** A 20-byte dump has two rows, the second at offset 0x10 with 4 bytes. */
  lemma TwentyByteDumpExample(m: seq<byte>)
    requires |m| == 20
    ensures |DumpRows(m, 0)| == 2
    ensures DumpRows(m, 0)[1] == Row(16, m[16..])
  {
  }
}
