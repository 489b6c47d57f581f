/** An exec, as far as its id and its output are concerned. */
module Machine {
  import opened LineRing
  import opened WsConn

  class MachineExec {
    var ID: int
    var ConnectionHandler: ConnectionHandlerImpl
    // Made when the first client attaches.
    var Buffer: LineRingBuffer?

    ghost predicate Valid()
      reads this, ConnectionHandler, ConnectionHandler.wsConns
      reads Buffer, if Buffer != null then {Buffer.slots} else {}
    {
      && ConnectionHandler.Valid() && Distinct(ConnectionHandler.Conns())
      && (Buffer != null ==> Buffer.Valid())
    }

    constructor ()
      ensures ID == 0 && Buffer == null
      ensures Valid() && fresh(ConnectionHandler) && fresh(ConnectionHandler.wsConns) && ConnectionHandler.Conns() == []
    {
      ID, Buffer := 0, null;
      ConnectionHandler := new ConnectionHandlerImpl.NewConnHandler();
    }
  }
}
