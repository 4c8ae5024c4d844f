/** The in-process transport: two endpoints over a pair of shared message queues. */
module Loopback {
  import opened Bytes

  class LoopbackQueue {
    var messages: seq<seq<Byte>>

    constructor ()
      ensures messages == []
    {
      messages := [];
    }
  }

  class LoopbackTransport {
    const tx: LoopbackQueue
    const rx: LoopbackQueue
    var connected: bool
    var nextError: Option<int>

    constructor (tx: LoopbackQueue, rx: LoopbackQueue)
      ensures this.tx == tx && this.rx == rx && !connected && nextError == None
    {
      this.tx, this.rx := tx, rx;
      connected, nextError := false, None;
    }

    /** What one endpoint sends the other receives. */
    static method CreatePair() returns (client: LoopbackTransport, server: LoopbackTransport)
      ensures fresh(client) && fresh(server) && fresh(client.tx) && fresh(client.rx)
      ensures client.tx == server.rx && client.rx == server.tx && client.tx != client.rx
      ensures client.tx.messages == [] && client.rx.messages == []
      ensures client != server && !client.connected && !server.connected
      ensures client.nextError == None && server.nextError == None
    {
      var q1 := new LoopbackQueue();
      var q2 := new LoopbackQueue();
      client := new LoopbackTransport(q1, q2);
      server := new LoopbackTransport(q2, q1);
    }

    method Connect()
      modifies this`connected
      ensures connected
    {
      connected := true;
    }

    method Disconnect()
      modifies this`connected
      ensures !connected
    {
      connected := false;
    }

    /** An injected error is reported once, in place of one send. */
    method Send(frame: seq<Byte>) returns (r: Result<()>)
      modifies this`nextError, tx
      ensures r == if !connected then Err(TRANSPORT_DISCONNECTED)
                   else if old(nextError).Some? then Err(old(nextError).value) else Ok(())
      ensures tx.messages == if r.Ok? then old(tx.messages) + [frame] else old(tx.messages)
      ensures nextError == if connected then None else old(nextError)
    {
      if !connected {
        return Err(TRANSPORT_DISCONNECTED);
      }
      if nextError.Some? {
        r := Err(nextError.value);
        nextError := None;
        return;
      }
      tx.messages := tx.messages + [frame];
      r := Ok(());
    }

    /** An empty queue at the end of the wait is a timeout. */
    method Receive() returns (r: Result<seq<Byte>>)
      modifies rx
      ensures !connected ==> r == Err(TRANSPORT_DISCONNECTED) && rx.messages == old(rx.messages)
      ensures connected && old(rx.messages) == [] ==> r == Err(TIMEOUT_EXPIRED) && rx.messages == []
      ensures connected && old(rx.messages) != [] ==>
        r == Ok(old(rx.messages)[0]) && rx.messages == old(rx.messages)[1..]
    {
      if !connected {
        return Err(TRANSPORT_DISCONNECTED);
      }
      if rx.messages == [] {
        return Err(TIMEOUT_EXPIRED);
      }
      r := Ok(rx.messages[0]);
      rx.messages := rx.messages[1..];
    }
  }
}
