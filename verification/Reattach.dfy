/**
  Writers and attaching clients of one exec, interleaved. Every lock-protected
  operation is one step: a write goes into the ring buffer and out to the
  listed connections; a client gets listed, reads the buffer and is sent what
  it read. What is guaranteed depends only on the order of these steps.
 */
module Reattach {
  import opened Utf8
  import opened Wrappers

  /** Which of its two steps each party takes first. */
  datatype Order = Order(bufferFirst: bool, registerFirst: bool)

  // The order in the program.
  const PROGRAM := Order(true, true)

  datatype Message = Chunk(write: nat) | Restored(upTo: nat)

  // One call of the pty handler's Write: its filtered output, and how far it got.
  datatype Write = Write(out: Bytes, buffered: bool, sent: bool)

  // One attaching connection. `snapshot` is how many writes the content it read goes back to.
  datatype Client = Client(registered: bool, listed: bool, read: bool, snapshot: nat, received: seq<Message>)

  datatype State = State(writes: seq<Write>, buffer: seq<nat>, clients: map<nat, Client>)

  const INITIAL := State([], [], map[])

  const NEW_CLIENT := Client(false, false, false, 0, [])

  datatype Step =
    | Begin(out: Bytes)
    | Buffer(write: nat)
    | Send(write: nat, failing: set<nat>)
    | Register(client: nat)
    | Read(client: nat)
    | Restore(client: nat)
    | Remove(client: nat)

  function Lookup(s: State, c: nat): Client {
    if c in s.clients then s.clients[c] else NEW_CLIENT
  }

  predicate Enabled(o: Order, s: State, step: Step) {
    match step
    case Begin(_) => true
    case Buffer(i) => i < |s.writes| && !s.writes[i].buffered && (o.bufferFirst || s.writes[i].sent)
    case Send(i, _) => i < |s.writes| && !s.writes[i].sent && (o.bufferFirst ==> s.writes[i].buffered)
    case Register(c) => !Lookup(s, c).registered && (o.registerFirst || Lookup(s, c).read)
    case Read(c) => !Lookup(s, c).read && (o.registerFirst ==> Lookup(s, c).registered)
    case Restore(c) => Lookup(s, c).read && Restored(Lookup(s, c).snapshot) !in Lookup(s, c).received
    case Remove(c) => Lookup(s, c).registered
  }

  function Delivered(c: Client, i: nat, refuses: bool): Client {
    if !c.listed then c
    else if refuses then c.(listed := false)
    else c.(received := c.received + [Chunk(i)])
  }

  function Apply(s: State, step: Step): State {
    match step
    case Begin(out) => s.(writes := s.writes + [Write(out, false, false)])
    case Buffer(i) =>
      if i < |s.writes| then
        s.(writes := s.writes[i := s.writes[i].(buffered := true)], buffer := s.buffer + [i])
      else s
    case Send(i, failing) =>
      if i < |s.writes| then
        s.(writes := s.writes[i := s.writes[i].(sent := true)],
           clients := map c | c in s.clients :: Delivered(s.clients[c], i, c in failing))
      else s
    case Register(c) => s.(clients := s.clients[c := Lookup(s, c).(registered := true, listed := true)])
    case Read(c) => s.(clients := s.clients[c := Lookup(s, c).(read := true, snapshot := |s.buffer|)])
    case Restore(c) =>
      s.(clients := s.clients[c := Lookup(s, c).(received := Lookup(s, c).received + [Restored(Lookup(s, c).snapshot)])])
    case Remove(c) => s.(clients := s.clients[c := Lookup(s, c).(listed := false)])
  }

  /** The state after a run, if every step is enabled where it is taken. */
  function Run(o: Order, steps: seq<Step>): Option<State> {
    if steps == [] then Some(INITIAL)
    else
      var before, step := Run(o, steps[..|steps| - 1]), steps[|steps| - 1];
      if before.Some? && Enabled(o, before.value, step) then Some(Apply(before.value, step)) else None
  }

  /** The client was sent write `i`, or `i` is in the byte stream behind the content it was sent. */
  predicate Covered(s: State, c: Client, i: nat) {
    Chunk(i) in c.received || (c.snapshot <= |s.buffer| && i in s.buffer[..c.snapshot])
  }

  // The client is still connected, and has been sent the restored content.
  predicate Attached(c: Client) {
    c.registered && c.listed && c.read && Restored(c.snapshot) in c.received
  }

  /** No attached client has missed a write that was sent out. */
  ghost predicate NoGap(s: State) {
    forall c, i :: c in s.clients && Attached(s.clients[c]) && 0 <= i < |s.writes| && s.writes[i].sent ==>
                     Covered(s, s.clients[c], i)
  }

  // ----- the program's order leaves no gap

  ghost predicate BufferedSent(s: State) {
    && (forall i :: 0 <= i < |s.writes| && s.writes[i].sent ==> s.writes[i].buffered)
    && (forall i :: 0 <= i < |s.writes| && s.writes[i].buffered ==> i in s.buffer)
    && (forall i :: i in s.buffer ==> i < |s.writes|)
  }

  // Before it reads the buffer a client has missed only what it will find there.
  ghost predicate ClientInv(s: State, c: Client) {
    && (c.read ==> c.registered && c.snapshot <= |s.buffer|)
    && (c.listed ==> c.registered)
    && (c.listed && c.read ==> forall i :: 0 <= i < |s.writes| && s.writes[i].sent ==> Covered(s, c, i))
    && (forall i: nat :: Chunk(i) in c.received ==> i < |s.writes| && s.writes[i].sent)
  }

  ghost predicate Inv(s: State) {
    BufferedSent(s) && forall c :: c in s.clients ==> ClientInv(s, s.clients[c])
  }

  lemma InvBegin(s: State, out: Bytes)
    requires Inv(s)
    ensures Inv(Apply(s, Begin(out)))
  {
    var s' := Apply(s, Begin(out));
    forall c | c in s'.clients ensures ClientInv(s', s'.clients[c]) {
      assert ClientInv(s, s.clients[c]);
      assert forall i :: 0 <= i < |s.writes| ==> Covered(s', s.clients[c], i) == Covered(s, s.clients[c], i);
    }
  }

  lemma InvBuffer(s: State, i: nat)
    requires Inv(s) && Enabled(PROGRAM, s, Buffer(i))
    ensures Inv(Apply(s, Buffer(i)))
  {
    var s' := Apply(s, Buffer(i));
    forall c | c in s'.clients ensures ClientInv(s', s'.clients[c]) {
      var client := s.clients[c];
      assert ClientInv(s, client);
      assert client.snapshot <= |s.buffer| ==> s'.buffer[..client.snapshot] == s.buffer[..client.snapshot];
      assert forall j :: 0 <= j < |s.writes| && Covered(s, client, j) ==> Covered(s', client, j);
    }
  }

  lemma InvSend(s: State, i: nat, failing: set<nat>)
    requires Inv(s) && Enabled(PROGRAM, s, Send(i, failing))
    ensures Inv(Apply(s, Send(i, failing)))
  {
    var s' := Apply(s, Send(i, failing));
    forall c | c in s'.clients ensures ClientInv(s', s'.clients[c]) {
      assert ClientInv(s, s.clients[c]);
      var now := s'.clients[c];
      if now.listed {
        assert now.received == s.clients[c].received + [Chunk(i)];
        assert forall j :: 0 <= j < |s.writes| && j != i && Covered(s, s.clients[c], j) ==> Covered(s', now, j);
        assert Covered(s', now, i);
      }
    }
  }

  lemma InvClient(s: State, step: Step)
    requires Inv(s) && Enabled(PROGRAM, s, step)
    requires step.Register? || step.Read? || step.Restore? || step.Remove?
    ensures Inv(Apply(s, step))
  {
    var s' := Apply(s, step);
    var old' := Lookup(s, step.client);
    assert ClientInv(s, old');
    forall c | c in s'.clients ensures ClientInv(s', s'.clients[c]) {
      if c != step.client {
        assert ClientInv(s, s.clients[c]);
        assert forall i: nat :: Covered(s', s.clients[c], i) == Covered(s, s.clients[c], i);
      } else {
        var now := s'.clients[c];
        if step.Read? {
          assert s.buffer[..|s.buffer|] == s.buffer;
        } else if !step.Register? {
          assert forall i: nat :: Chunk(i) in now.received <==> Chunk(i) in old'.received;
          assert forall i: nat :: Covered(s', now, i) == Covered(s, old', i);
        }
      }
    }
  }

  lemma {:induction false} ReachableInv(steps: seq<Step>)
    requires Run(PROGRAM, steps).Some?
    ensures Inv(Run(PROGRAM, steps).value)
  {
    if steps != [] {
      hide Inv, Enabled, Apply;
      ReachableInv(steps[..|steps| - 1]);
      var s, step := Run(PROGRAM, steps[..|steps| - 1]).value, steps[|steps| - 1];
      match step {
        case Begin(out) => InvBegin(s, out);
        case Buffer(i) => InvBuffer(s, i);
        case Send(i, failing) => InvSend(s, i, failing);
        case _ => InvClient(s, step);
      }
    }
  }

  /** In every interleaving of any number of writers and clients, no attached client has a gap. */
  lemma {:induction false} NeverAGap(steps: seq<Step>)
    requires Run(PROGRAM, steps).Some?
    ensures NoGap(Run(PROGRAM, steps).value)
  {
    ReachableInv(steps);
    var s := Run(PROGRAM, steps).value;
    assert forall c :: c in s.clients ==> ClientInv(s, s.clients[c]);
  }

  // ----- any other order can leave one

  lemma {:induction false} RunSnoc(o: Order, steps: seq<Step>, step: Step)
    requires Run(o, steps).Some? && Enabled(o, Run(o, steps).value, step)
    ensures Run(o, steps + [step]) == Some(Apply(Run(o, steps).value, step))
  {
    assert (steps + [step])[..|steps|] == steps;
  }

  lemma RunNothing()
    ensures forall o :: Run(o, []) == Some(INITIAL)
  {
  }

  // A write sent but not buffered when the client gets listed and reads.
  lemma {:induction false} SendFirstRun(o: Order) returns (steps: seq<Step>)
    requires !o.bufferFirst && o.registerFirst
    ensures Run(o, steps).Some? && !NoGap(Run(o, steps).value)
  {
    hide Run;
    RunNothing();
    steps := [];
    RunSnoc(o, steps, Begin([]));
    steps := steps + [Begin([])];
    RunSnoc(o, steps, Send(0, {}));
    steps := steps + [Send(0, {})];
    RunSnoc(o, steps, Register(0));
    steps := steps + [Register(0)];
    RunSnoc(o, steps, Read(0));
    steps := steps + [Read(0)];
    RunSnoc(o, steps, Restore(0));
    steps := steps + [Restore(0)];
    var s := Run(o, steps).value;
    assert Attached(s.clients[0]) && s.writes[0].sent;
    assert !Covered(s, s.clients[0], 0);
  }

  // A write that passes between the client's reading and its being listed.
  lemma {:induction false} ReadFirstRun(o: Order) returns (steps: seq<Step>)
    requires !o.registerFirst
    ensures Run(o, steps).Some? && !NoGap(Run(o, steps).value)
  {
    hide Run;
    RunNothing();
    steps := [];
    RunSnoc(o, steps, Read(0));
    steps := steps + [Read(0)];
    RunSnoc(o, steps, Begin([]));
    steps := steps + [Begin([])];
    if o.bufferFirst {
      RunSnoc(o, steps, Buffer(0));
      steps := steps + [Buffer(0)];
      RunSnoc(o, steps, Send(0, {}));
      steps := steps + [Send(0, {})];
    } else {
      RunSnoc(o, steps, Send(0, {}));
      steps := steps + [Send(0, {})];
    }
    RunSnoc(o, steps, Register(0));
    steps := steps + [Register(0)];
    RunSnoc(o, steps, Restore(0));
    steps := steps + [Restore(0)];
    var s := Run(o, steps).value;
    assert Attached(s.clients[0]) && s.writes[0].sent;
    assert !Covered(s, s.clients[0], 0);
  }

  /** With these orders no interleaving leaves a gap. */
  ghost predicate NeverGaps(o: Order) {
    forall steps :: Run(o, steps).Some? ==> NoGap(Run(o, steps).value)
  }

  /** The guarantee follows from the two orders, and from nothing less. */
  lemma {:induction false} NoGapIffOrder(o: Order)
    ensures NeverGaps(o) <==> o == PROGRAM
  {
    if o == PROGRAM {
      forall steps | Run(o, steps).Some? ensures NoGap(Run(o, steps).value) {
        NeverAGap(steps);
      }
    } else if !o.registerFirst {
      var steps := ReadFirstRun(o);
    } else {
      var steps := SendFirstRun(o);
    }
  }

  /** There may be overlap: a write can be both in the restored content and sent after it. */
  lemma {:induction false} OverlapHappens() returns (steps: seq<Step>)
    ensures Run(PROGRAM, steps).Some?
    ensures var s := Run(PROGRAM, steps).value;
            0 in s.clients && s.clients[0].received == [Restored(1), Chunk(0)] && s.buffer == [0]
  {
    hide Run;
    RunNothing();
    steps := [];
    RunSnoc(PROGRAM, steps, Begin([]));
    steps := steps + [Begin([])];
    RunSnoc(PROGRAM, steps, Buffer(0));
    steps := steps + [Buffer(0)];
    RunSnoc(PROGRAM, steps, Register(0));
    steps := steps + [Register(0)];
    RunSnoc(PROGRAM, steps, Read(0));
    steps := steps + [Read(0)];
    RunSnoc(PROGRAM, steps, Restore(0));
    steps := steps + [Restore(0)];
    RunSnoc(PROGRAM, steps, Send(0, {}));
    steps := steps + [Send(0, {})];
  }
}
