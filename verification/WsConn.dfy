/**
  The connections that show an exec's output. The list is a Go slice: a backing
  array of which the first `len` elements count.
 */
module WsConn {
  import opened Utf8
  import opened Steps

  /** A websocket connection, as far as messages written to it go. */
  class Conn {
    var received: seq<Bytes>

    constructor ()
      ensures received == []
    {
      received := [];
    }
  }

  predicate Distinct(cs: seq<Conn>) {
    forall i, j :: 0 <= i < j < |cs| ==> cs[i] != cs[j]
  }

  lemma DistinctSnoc(cs: seq<Conn>, c: Conn)
    ensures Distinct(cs + [c]) <==> Distinct(cs) && c !in cs
  {
    var longer := cs + [c];
    assert longer[|cs|] == c;
    assert forall i :: 0 <= i < |cs| ==> longer[i] == cs[i];
  }

  /** The connections that are in `cs` but not in `gone`, in order. */
  ghost function Without(cs: seq<Conn>, gone: set<Conn>): (r: seq<Conn>)
    ensures |r| <= |cs|
  {
    if cs == [] then []
    else
      var init, last := cs[..|cs| - 1], cs[|cs| - 1];
      if last in gone then Without(init, gone) else Without(init, gone) + [last]
  }

  lemma {:induction false} WithoutMembers(cs: seq<Conn>, gone: set<Conn>)
    ensures forall c :: c in Without(cs, gone) <==> c in cs && c !in gone
  {
    if cs != [] {
      WithoutMembers(cs[..|cs| - 1], gone);
      assert cs == cs[..|cs| - 1] + [cs[|cs| - 1]];
    }
  }

  lemma {:induction false} WithoutDistinct(cs: seq<Conn>, gone: set<Conn>)
    requires Distinct(cs)
    ensures Distinct(Without(cs, gone))
  {
    if cs != [] {
      WithoutDistinct(cs[..|cs| - 1], gone);
      WithoutMembers(cs[..|cs| - 1], gone);
    }
  }

  lemma {:induction false} WithoutNone(cs: seq<Conn>, gone: set<Conn>)
    requires forall c :: c in cs ==> c !in gone
    ensures Without(cs, gone) == cs
  {
    if cs != [] {
      WithoutNone(cs[..|cs| - 1], gone);
    }
  }

  // Removing one connection of a list without duplicates closes the gap it leaves.
  lemma {:induction false} WithoutOne(cs: seq<Conn>, i: nat)
    requires i < |cs| && Distinct(cs)
    ensures Without(cs, {cs[i]}) == cs[..i] + cs[i + 1..]
  {
    var init := cs[..|cs| - 1];
    if i == |cs| - 1 {
      WithoutNone(init, {cs[i]});
    } else {
      WithoutOne(init, i);
      assert init[..i] + init[i + 1..] + [cs[|cs| - 1]] == cs[..i] + cs[i + 1..];
    }
  }

  lemma WithoutFirst(cs: seq<Conn>, gone: set<Conn>, i: nat)
    requires i <= |cs|
    ensures i == 0 ==> Without(cs[..i], gone) == []
    ensures i < |cs| ==>
      Without(cs[..i + 1], gone) == Without(cs[..i], gone) + if cs[i] in gone then [] else [cs[i]]
  {
    if i < |cs| {
      assert cs[..i + 1][..i] == cs[..i];
    }
  }

  class ConnectionHandlerImpl {
    var wsConns: array<Conn?>
    var len: nat

    ghost predicate Valid()
      reads this, wsConns
    {
      && len <= wsConns.Length
      && (forall i :: 0 <= i < len ==> wsConns[i] != null)
    }

    ghost function Conns(): (cs: seq<Conn>)
      requires len <= wsConns.Length && forall i :: 0 <= i < len ==> wsConns[i] != null
      reads this, wsConns
      ensures |cs| == len && forall i :: 0 <= i < len ==> cs[i] == wsConns[i]
    {
      seq(len, i requires 0 <= i < len reads this, wsConns
                 requires len <= wsConns.Length && wsConns[i] != null => wsConns[i])
    }

    constructor NewConnHandler()
      ensures Valid() && fresh(wsConns) && Conns() == []
    {
      wsConns := new Conn?[0];
      len := 0;
    }

    /** Registers a connection behind the others. */
    method ReadConnection(wsConn: Conn, ghost did: seq<Did>) returns (ghost done: seq<Did>)
      requires Valid()
      modifies this, wsConns
      ensures done == did + [Listed]
      ensures Valid() && Conns() == old(Conns()) + [wsConn]
      ensures Distinct(Conns()) <==> old(Distinct(Conns()) && wsConn !in Conns())
      ensures wsConns == old(wsConns) || fresh(wsConns)
    {
      done := did + [Listed];
      if len == wsConns.Length {
        var grown := new Conn?[2 * wsConns.Length + 1];
        var i := 0;
        while i < len
          invariant 0 <= i <= len <= wsConns.Length < grown.Length
          invariant forall j :: 0 <= j < i ==> grown[j] == wsConns[j]
          invariant fresh(grown) && grown != wsConns
          invariant unchanged(this) && unchanged(wsConns)
        {
          grown[i] := wsConns[i];
          i := i + 1;
        }
        wsConns := grown;
      }
      wsConns[len] := wsConn;
      len := len + 1;
      assert Conns() == old(Conns()) + [wsConn];
      DistinctSnoc(old(Conns()), wsConn);
    }

    /**
      Takes a connection off the list. The loop runs over the length the list
      had before, while the elements behind the removed one move down under it.
     */
    method RemoveConnection(wsConn: Conn)
      requires Valid() && Distinct(Conns())
      modifies this, wsConns
      ensures Valid() && Distinct(Conns()) && wsConns == old(wsConns)
      ensures Conns() == Without(old(Conns()), {wsConn})
    {
      ghost var before := Conns();
      ghost var at := 0;
      var n, index := len, 0;
      while index < n
        invariant 0 <= index <= n == |before| <= wsConns.Length && wsConns == old(wsConns)
        invariant len == n || len + 1 == n
        invariant len == n ==> unchanged(wsConns) && forall j :: 0 <= j < index ==> before[j] != wsConn
        invariant len + 1 == n ==> at < index && before[at] == wsConn
        invariant len + 1 == n ==> forall j :: 0 <= j < at ==> wsConns[j] == before[j]
        invariant len + 1 == n ==> forall j :: at <= j < n - 1 ==> wsConns[j] == before[j + 1]
        invariant len + 1 == n ==> wsConns[n - 1] == before[n - 1]
      {
        if wsConns[index] == wsConn {
          if len == n {
            at := index;
          }
          ShiftDown(index);
          len := len - 1;
        }
        index := index + 1;
      }
      if len == n {
        WithoutNone(before, {wsConn});
        assert Conns() == before;
      } else {
        WithoutOne(before, at);
        assert Conns() == before[..at] + before[at + 1..];
      }
      WithoutDistinct(before, {wsConn});
    }

    // append(wsConns[:index], wsConns[index+1:]...)
    method ShiftDown(index: nat)
      requires index < len <= wsConns.Length
      modifies wsConns
      ensures forall j :: 0 <= j < index ==> wsConns[j] == old(wsConns[j])
      ensures forall j :: index <= j < len - 1 ==> wsConns[j] == old(wsConns[j + 1])
      ensures forall j :: len - 1 <= j < wsConns.Length ==> wsConns[j] == old(wsConns[j])
    {
      var j := index;
      while j < len - 1
        invariant index <= j <= len - 1
        invariant forall k :: 0 <= k < index ==> wsConns[k] == old(wsConns[k])
        invariant forall k :: index <= k < j ==> wsConns[k] == old(wsConns[k + 1])
        invariant forall k :: j <= k < wsConns.Length ==> wsConns[k] == old(wsConns[k])
      {
        wsConns[j] := wsConns[j + 1];
        j := j + 1;
      }
    }

    /**
      Sends `data` to every connection. Those in `failing` refuse it and are
      dropped; each of the others gets it once and stays.
     */
    method WriteDataToWsConnections(data: Bytes, failing: set<Conn>, ghost did: seq<Did>) returns (ghost done: seq<Did>)
      requires Valid() && Distinct(Conns())
      modifies this, Conns()
      ensures done == did + [Sent(data)]
      ensures Valid() && Distinct(Conns()) && fresh(wsConns)
      ensures Conns() == Without(old(Conns()), failing)
      ensures forall c :: c in old(Conns()) ==>
                c.received == if c in failing then old(c.received) else old(c.received) + [data]
    {
      hide Without, Distinct;
      ghost var before := Conns();
      var workingConns := Send(data, failing);
      WithoutDistinct(before, failing);
      Replace(workingConns);
      done := did + [Sent(data)];
    }

    // The loop over the connections: the working ones took the message.
    method Send(data: Bytes, failing: set<Conn>) returns (workingConns: seq<Conn>)
      requires Valid() && Distinct(Conns())
      modifies Conns()
      ensures unchanged(this) && unchanged(wsConns) && Conns() == old(Conns())
      ensures workingConns == Without(Conns(), failing)
      ensures forall c :: c in Conns() ==>
                c.received == if c in failing then old(c.received) else old(c.received) + [data]
    {
      hide Without;
      ghost var before := Conns();
      WithoutFirst(before, failing, 0);
      workingConns := [];
      var i := 0;
      while i < len
        invariant 0 <= i <= len && unchanged(this) && unchanged(wsConns)
        invariant workingConns == Without(before[..i], failing)
        invariant forall j :: 0 <= j < len ==>
                    before[j].received == if j >= i || before[j] in failing then old(before[j].received)
                                          else old(before[j].received) + [data]
      {
        var wsConn: Conn := wsConns[i];
        WithoutFirst(before, failing, i);
        if wsConn !in failing {
          wsConn.received := wsConn.received + [data];
          workingConns := workingConns + [wsConn];
        }
        i := i + 1;
      }
      assert before[..len] == before;
    }

    // handler.wsConns = workingConns
    method Replace(workingConns: seq<Conn>)
      modifies this
      ensures Valid() && fresh(wsConns) && Conns() == workingConns
    {
      wsConns := new Conn?[|workingConns|](k requires 0 <= k < |workingConns| => workingConns[k]);
      len := |workingConns|;
      assert Conns() == workingConns;
    }
  }
}
