/** The exec manager: the registry of execs, attaching to them, and the watcher that takes an ended one out. */
module ExecManager {
  import opened Wrappers
  import opened StreamFilter
  import opened LineRing
  import opened WsConn
  import opened Machine
  import opened Steps
  import opened Pty
  import opened ExecRegistry

  /** What an attach comes to: no such exec, the previous output sent or refused, or the exec's stream, which it starts. */
  datatype Attached = NotFound | Restored(ok: bool) | Streams(pty: PtyHandlerImpl)

  class KubernetesExecManager {
    var prevExecID: nat
    var execMap: map<int, MachineExec>

    ghost predicate Valid()
      reads this
    {
      prevExecID < UINT64
    }

    constructor ()
      ensures Valid() && prevExecID == 0 && execMap == map[]
    {
      prevExecID, execMap := 0, map[];
    }

    /** `prepared`: the command was resolved and the executor built, which comes before the registry is touched. */
    method DoCreate(machineExec: MachineExec, prepared: bool) returns (ok: bool)
      requires Valid()
      modifies this, machineExec
      ensures Valid() && ok == prepared
      ensures ok ==> fresh(machineExec.ConnectionHandler) && fresh(machineExec.ConnectionHandler.wsConns)
      ensures ok ==> machineExec.ConnectionHandler.Valid() && machineExec.ConnectionHandler.Conns() == []
      ensures machineExec.Buffer == old(machineExec.Buffer)
      ensures ok ==> prevExecID == NextSerial(old(prevExecID)) && machineExec.ID == ToInt(prevExecID)
      ensures ok ==> execMap == old(execMap)[machineExec.ID := machineExec]
      ensures !ok ==> unchanged(this) && unchanged(machineExec)
    {
      if !prepared {
        return false;
      }
      prevExecID := NextSerial(prevExecID);
      machineExec.ID := ToInt(prevExecID);
      machineExec.ConnectionHandler := new ConnectionHandlerImpl.NewConnHandler();
      execMap := execMap[machineExec.ID := machineExec];
      return true;
    }

    /** The first container that can be prepared gets the exec; if none can, nothing changes. */
    method Create(machineExec: MachineExec, containers: seq<bool>) returns (r: Option<int>)
      requires Valid()
      modifies this, machineExec
      ensures Valid() && (r.Some? <==> true in containers)
      ensures r.Some? ==> r.value == machineExec.ID == ToInt(prevExecID) && prevExecID == NextSerial(old(prevExecID))
      ensures r.Some? ==> execMap == old(execMap)[r.value := machineExec]
      ensures r.None? ==> unchanged(this) && unchanged(machineExec)
    {
      var i := 0;
      while i < |containers|
        invariant 0 <= i <= |containers| && unchanged(this) && unchanged(machineExec)
        invariant true !in containers[..i]
      {
        var ok := DoCreate(machineExec, containers[i]);
        if ok {
          assert containers[i] in containers;
          return Some(machineExec.ID);
        }
        i := i + 1;
      }
      assert containers[..i] == containers;
      return None;
    }

    method Remove(execID: int, ghost did: seq<Did>) returns (ghost done: seq<Did>)
      modifies this
      ensures done == did + [Did.Removed(execID)]
      ensures prevExecID == old(prevExecID) && execMap == old(execMap) - {execID}
    {
      execMap := execMap - {execID};
      done := did + [Did.Removed(execID)];
    }

    method Check(id: int) returns (r: Option<int>)
      ensures r == if id in execMap then Some(execMap[id].ID) else None
    {
      if id !in execMap {
        return None;
      }
      return Some(execMap[id].ID);
    }

    /**
      Attaches a client to the exec with this id: it is listed, and then sent the
      previous output, unless it `refuses` that. The first client finds no
      buffer; with it begins the exec's stream, through a new buffer and filter.
     */
    method Attach(id: int, conn: Conn, refuses: bool) returns (r: Attached, ghost done: seq<Did>)
      requires id in execMap ==> execMap[id].Valid() && conn !in execMap[id].ConnectionHandler.Conns()
      modifies if id in execMap then {execMap[id], execMap[id].ConnectionHandler, execMap[id].ConnectionHandler.wsConns, conn}
               else {}
      ensures r == NotFound <==> id !in execMap
      ensures id in execMap ==> execMap[id].ID == old(execMap[id].ID)
      ensures id in execMap ==> execMap[id].Valid() && execMap[id].ConnectionHandler == old(execMap[id].ConnectionHandler)
      ensures id in execMap ==> execMap[id].ConnectionHandler.Conns() == old(execMap[id].ConnectionHandler.Conns()) + [conn]
      ensures id in execMap ==> (r.Streams? <==> old(execMap[id].Buffer == null))
      ensures r.Restored? ==> r.ok == !refuses && execMap[id].Buffer == old(execMap[id].Buffer) != null
      ensures r.Restored? && refuses ==> conn.received == old(conn.received)
      ensures r.Restored? && !refuses ==> conn.received == old(conn.received) + [Content(execMap[id].Buffer.text)]
      ensures r.Restored? ==> done == [Listed, ContentRead] + if refuses then [] else [ContentSent]
      ensures r.Streams? ==> conn.received == old(conn.received) && fresh(execMap[id].Buffer)
      ensures r.Streams? ==> r.pty.Valid() && r.pty.machineExec == execMap[id] && r.pty.chunks == []
    {
      hide Content, Outputs, TextAfter, Distinct;
      if id !in execMap {
        return NotFound, [];
      }
      var machineExec := execMap[id];
      done := machineExec.ConnectionHandler.ReadConnection(conn, []);
      if machineExec.Buffer != null {
        var restoreContent;
        restoreContent, done := machineExec.Buffer.GetContent(done);
        if refuses {
          return Restored(false), done;
        }
        conn.received := conn.received + [restoreContent];
        return Restored(true), done + [ContentSent];
      }
      var ptyHandler := StartOutput(machineExec);
      return Streams(ptyHandler), done;
    }

    // The first client's part: a new buffer, and a handler with a new filter.
    method StartOutput(machineExec: MachineExec) returns (ptyHandler: PtyHandlerImpl)
      requires machineExec.Valid() && machineExec.Buffer == null
      modifies machineExec
      ensures machineExec.Valid() && fresh(machineExec.Buffer)
      ensures machineExec.ID == old(machineExec.ID) && machineExec.ConnectionHandler == old(machineExec.ConnectionHandler)
      ensures ptyHandler.Valid() && ptyHandler.machineExec == machineExec && ptyHandler.chunks == []
    {
      hide Distinct;
      var filter := new Utf8StreamFilter();
      machineExec.Buffer := new LineRingBuffer.New();
      ptyHandler := new PtyHandlerImpl.CreatePtyHandlerImpl(machineExec, filter);
    }
  }

  // What subscribers are told about an exec's end.
  datatype Event = ExecExit(id: int) | ExecError(id: int, stack: string)

  class EventBus {
    var published: seq<Event>

    method Pub(e: Event, ghost did: seq<Did>) returns (ghost done: seq<Did>)
      modifies this
      ensures done == did + [Did.Announced(e.id)]
      ensures published == old(published) + [e]
    {
      published := published + [e];
      done := did + [Did.Announced(e.id)];
    }
  }

  class HealthWatcher {
    const manager: KubernetesExecManager
    const exec: MachineExec
    const eventBus: EventBus

    constructor (exec: MachineExec, eventBus: EventBus, manager: KubernetesExecManager)
      ensures this.exec == exec && this.eventBus == eventBus && this.manager == manager
    {
      this.exec, this.eventBus, this.manager := exec, eventBus, manager;
    }

    /** What the watcher does once it has received an error, or the exit if there is none. */
    method CleanUpOnExitOrError(error: Option<string>) returns (ghost done: seq<Did>)
      modifies manager, eventBus
      ensures done == [Did.Removed(exec.ID), Did.Announced(exec.ID)]
      ensures manager.execMap == old(manager.execMap) - {exec.ID} && manager.prevExecID == old(manager.prevExecID)
      ensures eventBus.published == old(eventBus.published) +
                [if error.Some? then ExecError(exec.ID, error.value) else ExecExit(exec.ID)]
    {
      done := manager.Remove(exec.ID, []);
      if error.None? {
        done := eventBus.Pub(ExecExit(exec.ID), done);
      } else {
        done := eventBus.Pub(ExecError(exec.ID, error.value), done);
      }
    }
  }
}
