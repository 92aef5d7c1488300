/**
 * Reassembly of device messages from the fragments the hwdep channel
 * delivers (the body of read_message, reset_message and message_complete).
 *
 * A fragment is a 4-byte header whose first two bytes are the little-endian
 * payload length, then the payload. Payloads are appended to one message
 * buffer; the message is complete when the buffer holds exactly
 * (b0 + b1 * 256) * 4 + 4 bytes, b0 and b1 being its own first two bytes.
 */
module Reassembly {
  import opened Bytes

  /** The size of the message buffer (unsigned char msg[8192]). */
  const Capacity: nat := 8192
  /** Header bytes in front of every fragment's payload. */
  const FragmentHeader: nat := 4

  /** The size a message declares in its first two bytes: that many 32-bit words after the first word. */
  function ExpectedSize(m: seq<byte>): (n: nat)
    requires |m| >= 2
    ensures n >= 4 && n % 4 == 0
  {
    U16Le(m, 0) * 4 + 4
  }

  /**
   * message_complete: the buffer holds exactly the size it declares (never
   * so below 2 bytes). A completed message is at least 4 bytes long and a
   * whole number of 32-bit words.
   */
  predicate MessageComplete(m: seq<byte>): (b: bool)
    ensures b ==> |m| >= 4 && |m| % 4 == 0
  {
    |m| >= 2 && |m| == ExpectedSize(m)
  }

  /** A fragment is accepted exactly when its declared payload length is the number of bytes after the header. */
  predicate Accepted(frag: seq<byte>): (b: bool)
    ensures |frag| < FragmentHeader ==> !b
    ensures b ==> |Payload(frag)| == U16Le(frag, 0)
  {
    |frag| >= FragmentHeader && U16Le(frag, 0) == |frag| - FragmentHeader
  }

  /** The bytes after a fragment's header. */
  function Payload(frag: seq<byte>): (p: seq<byte>)
    ensures |frag| >= FragmentHeader ==> |p| == |frag| - FragmentHeader && frag == frag[..FragmentHeader] + p
    ensures |frag| < FragmentHeader ==> p == []
  {
    if |frag| >= FragmentHeader then frag[FragmentHeader..] else []
  }

  /** What one read does. */
  datatype Outcome =
    | NoData                          // the read returned no bytes
    | Bogus(fragment: seq<byte>)      // the length check failed; the message in progress is dropped
    | Overflow(fragment: seq<byte>)   // the payload does not fit the buffer; the message in progress is dropped
    | Pending                         // payload appended, message not complete yet
    | Complete(message: seq<byte>)    // payload appended and the message is complete

  datatype Transition = Transition(next: seq<byte>, outcome: Outcome)

  /** The effect of one read on the message buffer m. */
  function Step(m: seq<byte>, frag: seq<byte>): (r: Transition)
    ensures r.outcome.NoData? <==> frag == []
    ensures r.outcome.NoData? ==> r.next == m
    ensures r.outcome.Bogus? <==> frag != [] && !Accepted(frag)
    ensures r.outcome.Overflow? ==> Accepted(frag) && |m| + |Payload(frag)| > Capacity
    ensures r.outcome.Pending? ==> r.next == m + Payload(frag) && !MessageComplete(r.next) && |r.next| <= Capacity
    ensures r.outcome.Complete? ==>
      r.outcome.message == m + Payload(frag) && MessageComplete(r.outcome.message) && |r.outcome.message| <= Capacity
    ensures !r.outcome.NoData? && !r.outcome.Pending? ==> r.next == []
  {
    if frag == [] then Transition(m, NoData)
    else if !Accepted(frag) then Transition([], Bogus(frag))
    else
      var grown := m + Payload(frag);
      if |grown| > Capacity then Transition([], Overflow(frag))
      else if MessageComplete(grown) then Transition([], Complete(grown))
      else Transition(grown, Pending)
  }

  /** The state between two reads: within the buffer and not holding a completed message. */
  predicate Idle(m: seq<byte>)
  {
    |m| <= Capacity && !MessageComplete(m)
  }

  /** A fragment of 1 to 3 bytes, or one whose length word is not its payload size, is bogus and discards everything. */
  lemma StepBogus(m: seq<byte>, frag: seq<byte>)
    requires frag != []
    ensures Step(m, frag).outcome.Bogus? <==> !Accepted(frag)
    ensures 0 < |frag| < FragmentHeader ==> !Accepted(frag)
    ensures !Accepted(frag) ==> Step(m, frag) == Transition([], Bogus(frag))
  {
  }

  /**
   * An accepted fragment that fits appends exactly its payload: the buffer
   * grows by the declared length and its earlier bytes stay. It is handed on
   * and emptied when that completes it and kept otherwise.
   */
  lemma StepAppends(m: seq<byte>, frag: seq<byte>)
    requires Accepted(frag) && |m| + |frag| - FragmentHeader <= Capacity
    ensures var grown := m + frag[FragmentHeader..];
      && |grown| == |m| + U16Le(frag, 0)
      && grown[..|m|] == m
      && (MessageComplete(grown) ==> Step(m, frag) == Transition([], Complete(grown)))
      && (!MessageComplete(grown) ==> Step(m, frag) == Transition(grown, Pending))
  {
    assert (m + frag[FragmentHeader..])[..|m|] == m;
  }

  /** No read leaves a completed message in the buffer or lets it exceed its capacity. */
  lemma StepPreservesIdle(m: seq<byte>, frag: seq<byte>)
    requires Idle(m)
    ensures Idle(Step(m, frag).next)
  {
  }

  /**
   * Once the buffer holds more than it declares, no accepted fragment
   * completes it: the buffer only grows, until it overflows or a bogus
   * fragment resets it.
   */
  lemma OvershootIsSticky(m: seq<byte>, frag: seq<byte>)
    requires |m| >= 2 && |m| > ExpectedSize(m)
    requires Accepted(frag)
    ensures Step(m, frag).outcome.Pending? || Step(m, frag).outcome.Overflow?
    ensures var n := Step(m, frag).next; n == [] || (|n| >= 2 && |n| > ExpectedSize(n))
  {
    var grown := m + Payload(frag);
    assert grown[..2] == m[..2];
    assert U16Le(grown, 0) == U16Le(m, 0);
  }

  // ---- a sequence of reads ----

  datatype Trace = Trace(buffer: seq<byte>, outcomes: seq<Outcome>)

  /** The buffer after the reads fs, starting from m, and the outcome of each read. */
  function Run(m: seq<byte>, fs: seq<seq<byte>>): (t: Trace)
    ensures |t.outcomes| == |fs|
    decreases |fs|
  {
    if fs == [] then Trace(m, [])
    else
      var before := Run(m, fs[..|fs| - 1]);
      var s := Step(before.buffer, fs[|fs| - 1]);
      Trace(s.next, before.outcomes + [s.outcome])
  }

  lemma {:induction false} RunPreservesIdle(m: seq<byte>, fs: seq<seq<byte>>)
    requires Idle(m)
    ensures Idle(Run(m, fs).buffer)
    decreases |fs|
  {
    if fs != [] {
      RunPreservesIdle(m, fs[..|fs| - 1]);
      StepPreservesIdle(Run(m, fs[..|fs| - 1]).buffer, fs[|fs| - 1]);
    }
  }

  /** Reading xs then ys is reading xs, then reading ys from where xs left the buffer. */
  lemma {:induction false} RunConcat(m: seq<byte>, xs: seq<seq<byte>>, ys: seq<seq<byte>>)
    ensures var a := Run(m, xs); var b := Run(a.buffer, ys);
      Run(m, xs + ys) == Trace(b.buffer, a.outcomes + b.outcomes)
    decreases |ys|
  {
    if ys == [] {
      assert xs + ys == xs;
    } else {
      var ys' := ys[..|ys| - 1];
      assert (xs + ys)[..|xs + ys| - 1] == xs + ys';
      RunConcat(m, xs, ys');
    }
  }

  /** Feeding the same reads twice from an empty buffer, when they end with it empty, gives the same outcomes twice. */
  lemma RunTwice(fs: seq<seq<byte>>)
    requires Run([], fs).buffer == []
    ensures Run([], fs + fs).outcomes == Run([], fs).outcomes + Run([], fs).outcomes
    ensures Run([], fs + fs).buffer == []
  {
    RunConcat([], fs, fs);
  }

  /** The payloads of fs, one after the other. */
  function Payloads(fs: seq<seq<byte>>): seq<byte>
    decreases |fs|
  {
    if fs == [] then [] else Payloads(fs[..|fs| - 1]) + Payload(fs[|fs| - 1])
  }

  /** A message proper prefix of a completed message is not complete. */
  lemma PrefixNotComplete(msg: seq<byte>, p: seq<byte>)
    requires MessageComplete(msg)
    requires |p| < |msg| && p == msg[..|p|]
    ensures !MessageComplete(p)
  {
    if |p| >= 2 {
      assert p[0] == msg[0] && p[1] == msg[1];
    }
  }

  /**
   * Accepted fragments read from an empty buffer whose payloads make up a
   * proper prefix of a completed message are all Pending, and the buffer
   * ends up holding all their payloads in order.
   */
  lemma {:induction false} RunPrefixPending(msg: seq<byte>, fs: seq<seq<byte>>)
    requires MessageComplete(msg) && |msg| <= Capacity
    requires forall i :: 0 <= i < |fs| ==> Accepted(fs[i])
    requires |Payloads(fs)| < |msg| && Payloads(fs) == msg[..|Payloads(fs)|]
    ensures Run([], fs).buffer == Payloads(fs)
    ensures forall i :: 0 <= i < |fs| ==> Run([], fs).outcomes[i] == Pending
    decreases |fs|
  {
    if fs != [] {
      var fs' := fs[..|fs| - 1];
      var last := fs[|fs| - 1];
      var p' := Payloads(fs');
      var p := Payloads(fs);
      assert p == p' + Payload(last);
      assert p' == msg[..|p'|] by {
        assert p[..|p'|] == p';
      }
      RunPrefixPending(msg, fs');
      assert !MessageComplete(p) by {
        PrefixNotComplete(msg, p);
      }
      assert Step(p', last) == Transition(p, Pending);
    }
  }

  /**
   * A completed message cut into accepted fragments, the last of them
   * non-empty, is reported complete exactly once, after the last fragment,
   * and the buffer is left empty.
   */
  lemma ReassembleMessage(msg: seq<byte>, fs: seq<seq<byte>>)
    requires MessageComplete(msg) && |msg| <= Capacity
    requires forall i :: 0 <= i < |fs| ==> Accepted(fs[i])
    requires Payloads(fs) == msg
    requires fs != [] && Payload(fs[|fs| - 1]) != []
    ensures Run([], fs).buffer == []
    ensures forall i :: 0 <= i < |fs| - 1 ==> Run([], fs).outcomes[i] == Pending
    ensures Run([], fs).outcomes[|fs| - 1] == Complete(msg)
  {
    var fs' := fs[..|fs| - 1];
    var last := fs[|fs| - 1];
    var p' := Payloads(fs');
    assert msg == p' + Payload(last);
    assert Run([], fs').buffer == p' && forall i :: 0 <= i < |fs'| ==> Run([], fs').outcomes[i] == Pending by {
      assert p' == msg[..|p'|];
      RunPrefixPending(msg, fs');
    }
    assert Step(p', last) == Transition([], Complete(msg)) by {
      StepCompletes(p', last);
    }
    RunLast([], fs);
  }

  /** An accepted fragment whose payload completes the buffer within its capacity hands on the message and empties the buffer. */
  lemma StepCompletes(m: seq<byte>, frag: seq<byte>)
    requires Accepted(frag) && |m + Payload(frag)| <= Capacity && MessageComplete(m + Payload(frag))
    ensures Step(m, frag) == Transition([], Complete(m + Payload(frag)))
  {
  }

  /** The last read of a sequence acts on the buffer the others leave, and adds one outcome after theirs. */
  lemma RunLast(m: seq<byte>, fs: seq<seq<byte>>)
    requires fs != []
    ensures var before := Run(m, fs[..|fs| - 1]);
      var s := Step(before.buffer, fs[|fs| - 1]);
      && Run(m, fs).buffer == s.next
      && Run(m, fs).outcomes[|fs| - 1] == s.outcome
      && forall i :: 0 <= i < |fs| - 1 ==> Run(m, fs).outcomes[i] == before.outcomes[i]
  {
  }

  /** The fragment that carries payload p, header bytes 2 and 3 zero. */
  function FragmentOf(p: seq<byte>): (frag: seq<byte>)
    requires |p| < U16Limit
    ensures Accepted(frag) && Payload(frag) == p
  {
    var frag := EncodeU16(|p|) + [0, 0] + p;
    U16RoundTrip(|p|);
    assert frag[..2] == EncodeU16(|p|);
    assert U16Le(frag, 0) == U16Le(frag[..2], 0);
    assert frag[FragmentHeader..] == p;
    frag
  }

  // ---- the append as the source writes it ----

  /** read_message's memcpy into msg + msg_size, with no bound on msg_size. */
  function AppendAsWritten(m: seq<byte>, frag: seq<byte>): (r: seq<byte>)
    requires Accepted(frag)
    ensures |r| == |m| + U16Le(frag, 0) && r[..|m|] == m && r[|m|..] == Payload(frag)
  {
    m + frag[FragmentHeader..]
  }

  /**
   * The capacity check changes nothing where the unguarded append stays
   * within msg[8192]: the fragment is then taken on exactly as the source
   * appends it, and it is discarded exactly where the source would overrun.
   */
  lemma GuardAgreesWithinCapacity(m: seq<byte>, frag: seq<byte>)
    requires Accepted(frag)
    ensures Step(m, frag).outcome.Overflow? <==> |AppendAsWritten(m, frag)| > Capacity
    ensures |AppendAsWritten(m, frag)| <= Capacity ==>
      Step(m, frag).outcome.Pending? || Step(m, frag).outcome.Complete?
    ensures Step(m, frag).outcome.Pending? ==> Step(m, frag).next == AppendAsWritten(m, frag)
    ensures Step(m, frag).outcome.Complete? ==> Step(m, frag).outcome.message == AppendAsWritten(m, frag)
  {
    assert AppendAsWritten(m, frag) == m + Payload(frag);
  }

  /**
   * Without a capacity check an idle buffer reached by one read, followed by
   * one accepted fragment of at most 8192 bytes, runs past msg[8192].
   */
  lemma AsWrittenOverruns()
    ensures var first := FragmentOf([0xff, 0xff] + Zeros(4094));
      var second := FragmentOf(Zeros(4100));
      var m := Step([], first).next;
      && Step([], first).outcome == Pending
      && Idle(m)
      && |second| <= Capacity
      && |AppendAsWritten(m, second)| > Capacity
  {
    var p := [0xff, 0xff] + Zeros(4094);
    var first := FragmentOf(p);
    assert [] + Payload(first) == p;
    assert U16Le(p, 0) == 0xffff;
  }

  // ---- the buffer itself ----

  /** The message buffer msg and its fill level msg_size. */
  class Reassembler {
    const buf: array<byte>
    var size: nat

    ghost predicate InBounds()
      reads this
    {
      buf.Length == Capacity && size <= Capacity
    }

    ghost predicate Valid()
      reads this, buf
    {
      InBounds() && Idle(buf[..size])
    }

    /** The bytes of the message in progress. */
    ghost function Contents(): seq<byte>
      reads this, buf
      requires InBounds()
    {
      buf[..size]
    }

    constructor ()
      ensures Valid() && fresh(buf) && Contents() == []
    {
      buf := new byte[Capacity];
      size := 0;
    }

    /** reset_message. */
    method Reset()
      requires InBounds()
      modifies this
      ensures Valid() && Contents() == []
    {
      size := 0;
    }

    /** message_complete: reads the first two bytes of the array whatever the fill level, as the source does. */
    method IsComplete() returns (b: bool)
      requires InBounds()
      ensures b == MessageComplete(Contents())
    {
      var expected := (buf[0] as int + buf[1] as int * 256) * 4 + 4;
      b := expected == size;
      if size >= 2 {
        assert Contents()[0] == buf[0] && Contents()[1] == buf[1];
      }
    }

    /** The handling of one read in read_message. */
    method HandleFragment(frag: seq<byte>) returns (o: Outcome)
      requires Valid()
      modifies this, buf
      ensures Valid()
      ensures Contents() == Step(old(Contents()), frag).next
      ensures o == Step(old(Contents()), frag).outcome
    {
      if |frag| == 0 {
        return NoData;
      }
      var dataSize := frag[0] as int + if |frag| >= 2 then frag[1] as int * 256 else 0;
      if dataSize != |frag| - FragmentHeader {
        o := Bogus(frag);
        Reset();
        return;
      }
      if size + dataSize > Capacity {
        o := Overflow(frag);
        Reset();
        return;
      }
      ghost var before := Contents();
      var at := size;
      var i := 0;
      while i < dataSize
        invariant 0 <= i <= dataSize
        invariant size == at && InBounds()
        invariant buf[..at] == before
        invariant forall k :: at <= k < at + i ==> buf[k] == frag[FragmentHeader + k - at]
      {
        buf[at + i] := frag[FragmentHeader + i];
        i := i + 1;
      }
      size := at + dataSize;
      assert Contents() == before + Payload(frag);
      var done := IsComplete();
      if done {
        o := Complete(buf[..size]);
        Reset();
      } else {
        o := Pending;
      }
    }
  }
}
