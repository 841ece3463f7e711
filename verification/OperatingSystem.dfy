/** The two things a connection uses that live outside of it: a socket that takes as many
    bytes as it likes, and the timer that watches a write. */
module OperatingSystem {
  import opened Bytes
  import WriteQueue

  /** What reaches the peer, and the answers to synchronous writes. */
  class Socket {
    ghost const oracle: WriteQueue.Oracle
    ghost var wire: Buffer
    ghost var calls: nat
    var answers: nat -> WriteQueue.WriteResult
    var used: nat

    ghost predicate Valid()
      reads this
    {
      answers == oracle && used == calls
    }

    constructor (answers: nat -> WriteQueue.WriteResult)
      ensures Valid() && oracle == answers && wire == [] && calls == 0
    {
      this.answers, this.used := answers, 0;
      oracle, wire, calls := answers, [], 0;
    }

    method Write(data: Buffer) returns (r: WriteQueue.WriteResult)
      requires Valid()
      modifies this
      ensures Valid()
      ensures r == WriteQueue.SyncWrite(oracle, old(calls), |data|)
      ensures calls == old(calls) + 1 && wire == old(wire) + data[..r.transferred]
    {
      r := WriteQueue.SyncWrite(answers, used, |data|);
      used, calls, wire := used + 1, calls + 1, wire + data[..r.transferred];
    }

    /** Bytes of an asynchronous write that have gone out. */
    ghost method Take(data: Buffer)
      modifies this`wire
      ensures wire == old(wire) + data
    {
      wire := wire + data;
    }
  }

  /** The key counter of the write watchdog: an event is current while nothing has been
      started or cancelled since. */
  class OperationWatchdog {
    var timeoutKey: nat

    constructor ()
      ensures timeoutKey == 0
    {
      timeoutKey := 0;
    }

    method StartWatchOperation() returns (key: nat)
      modifies this
      ensures key == timeoutKey == old(timeoutKey) + 1
    {
      timeoutKey := timeoutKey + 1;
      key := timeoutKey;
    }

    method CancelWatchOperation()
      modifies this
      ensures timeoutKey == old(timeoutKey) + 1
    {
      timeoutKey := timeoutKey + 1;
    }
  }
}
