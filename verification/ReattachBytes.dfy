/** What a client that attaches to a running exec is sent, in bytes. */
module ReattachBytes {
  import opened Utf8
  import opened LineRing
  import opened Reattach
  import opened SingleWriter

  // What the writes of the run put out.
  function Outs(s: State): (outs: seq<Bytes>)
    ensures |outs| == |s.writes| && forall i :: 0 <= i < |outs| ==> outs[i] == s.writes[i].out
  {
    seq(|s.writes|, i requires 0 <= i < |s.writes| => s.writes[i].out)
  }

  // The outputs behind the buffer, in the order in which they got there.
  function Buffered(s: State): (outs: seq<Bytes>)
    requires forall k :: 0 <= k < |s.buffer| ==> s.buffer[k] < |s.writes|
    ensures |outs| == |s.buffer| && forall k :: 0 <= k < |outs| ==> outs[k] == s.writes[s.buffer[k]].out
  {
    seq(|s.buffer|, k requires 0 <= k < |s.buffer| => s.writes[s.buffer[k]].out)
  }

  /** The bytes of a message: a write's output, or the content of the ring behind which some writes are. */
  function Payload(s: State, m: Message): Bytes
    requires forall k :: 0 <= k < |s.buffer| ==> s.buffer[k] < |s.writes|
    requires match m case Chunk(i) => i < |s.writes| case Restored(k) => k <= |s.buffer|
  {
    match m
    case Chunk(i) => s.writes[i].out
    case Restored(k) => Content(TextAfter(Buffered(s)[..k]))
  }

  // The messages of a client that are in the range of the run.
  predicate InRange(s: State, ms: seq<Message>) {
    && (forall k :: 0 <= k < |s.buffer| ==> s.buffer[k] < |s.writes|)
    && forall m :: m in ms ==> match m case Chunk(i) => i < |s.writes| case Restored(k) => k <= |s.buffer|
  }

  /** The bytes of the writes a client was sent, message by message. */
  function ChunkBytes(s: State, ms: seq<Message>): (bs: seq<Bytes>)
    requires InRange(s, ms)
  {
    if ms == [] then []
    else
      var init, last := ms[..|ms| - 1], ms[|ms| - 1];
      assert last in ms && forall m :: m in init ==> m in ms;
      if last.Chunk? then ChunkBytes(s, init) + [Payload(s, last)] else ChunkBytes(s, init)
  }

  lemma {:induction false} ChunkBytesOf(s: State, ms: seq<Message>)
    requires InRange(s, ms)
    ensures |ChunkBytes(s, ms)| == |Chunks(ms)|
    ensures forall k :: 0 <= k < |Chunks(ms)| ==> Chunks(ms)[k] < |s.writes| && ChunkBytes(s, ms)[k] == Outs(s)[Chunks(ms)[k]]
  {
    if ms != [] {
      var init, last := ms[..|ms| - 1], ms[|ms| - 1];
      assert last in ms && forall m :: m in init ==> m in ms;
      ChunkBytesOf(s, init);
    }
  }

  // A client was sent nothing but writes that were sent out and, once it has read, what it read.
  ghost predicate KnownMessages(s: State) {
    forall c, m :: c in s.clients && m in s.clients[c].received && m.Restored? ==>
                     s.clients[c].read && m.upTo == s.clients[c].snapshot
  }

  lemma KnownStep(o: Order, s: State, step: Step)
    requires KnownMessages(s) && Enabled(o, s, step)
    ensures KnownMessages(Apply(s, step))
  {
    var s' := Apply(s, step);
    forall c, m | c in s'.clients && m in s'.clients[c].received && m.Restored?
      ensures s'.clients[c].read && m.upTo == s'.clients[c].snapshot
    {
      if c in s.clients {
        assert m in s.clients[c].received || step == Restore(c);
      }
    }
  }

  lemma {:induction false} ReachableKnown(o: Order, steps: seq<Step>)
    requires Run(o, steps).Some?
    ensures KnownMessages(Run(o, steps).value)
  {
    if steps != [] {
      hide KnownMessages, Enabled, Apply;
      ReachableKnown(o, steps[..|steps| - 1]);
      KnownStep(o, Run(o, steps[..|steps| - 1]).value, steps[|steps| - 1]);
    }
  }

  lemma {:induction false} MessagesInRange(steps: seq<Step>, c: nat)
    requires Run(PROGRAM, steps).Some? && c in Run(PROGRAM, steps).value.clients
    ensures InRange(Run(PROGRAM, steps).value, Run(PROGRAM, steps).value.clients[c].received)
  {
    ReachableInv(steps);
    ReachableKnown(PROGRAM, steps);
    var s := Run(PROGRAM, steps).value;
    assert ClientInv(s, s.clients[c]);
    forall k | 0 <= k < |s.buffer| ensures s.buffer[k] < |s.writes| {
      assert s.buffer[k] in s.buffer;
    }
  }

  /**
    With one writer, what an attached client was sent: the last 1000 lines of
    all that was written before some point, and one unbroken stretch of the
    outputs, in order and each once, up to the newest write that is through. The
    stretch starts at or before that point.
   */
  lemma {:induction false} OneStretchOfBytes(steps: seq<Step>, c: nat)
    requires OneWriter(steps) && Run(PROGRAM, steps).Some?
    requires c in Run(PROGRAM, steps).value.clients && Attached(Run(PROGRAM, steps).value.clients[c])
    ensures var s := Run(PROGRAM, steps).value;
            var client := s.clients[c];
            && InRange(s, client.received) && client.snapshot <= |s.writes| && Through(s) <= |s.writes|
            && Payload(s, Restored(client.snapshot)) == Content(TextAfter(Outs(s)[..client.snapshot]))
            && exists a: nat :: a <= client.snapshot && a <= Through(s) &&
                                ChunkBytes(s, client.received) == Outs(s)[a..Through(s)]
  {
    hide Content, TextAfter;
    hide OneWriter, Run, Attached;
    OneUnbrokenStretch(steps, c);
    MessagesInRange(steps, c);
    var s := Run(PROGRAM, steps).value;
    var client := s.clients[c];
    var a: nat :| a <= client.snapshot && a <= Through(s) && Chunks(client.received) == Interval(a, Through(s));
    StretchBytes(s, client.received, a, Through(s));
    assert s.buffer != [] ==> s.buffer[|s.buffer| - 1] == |s.buffer| - 1;
    assert Buffered(s)[..client.snapshot] == Outs(s)[..client.snapshot];
  }

  lemma StretchBytes(s: State, ms: seq<Message>, lo: nat, hi: nat)
    requires InRange(s, ms) && lo <= hi <= |s.writes| && Chunks(ms) == Interval(lo, hi)
    ensures ChunkBytes(s, ms) == Outs(s)[lo..hi]
  {
    ChunkBytesOf(s, ms);
  }
}
