/** The queue between a receive thread and the dispatch thread. */
module Buffers {
  import opened Bytes

  class ReceiveBuffer {
    var buffer: seq<Packet>

    constructor ()
      ensures buffer == []
    {
      buffer := [];
    }

    method Push(data: Packet)
      modifies this
      ensures buffer == old(buffer) + [data]
    {
      buffer := buffer + [data];
    }

    /** `None` stands for a caller left waiting on the condition variable. */
    method Pop() returns (data: Option<Packet>)
      modifies this
      ensures data.Some? <==> old(buffer) != []
      ensures old(buffer) == (if data.Some? then [data.value] else []) + buffer
    {
      if buffer == [] {
        return None;
      }
      data := Some(buffer[0]);
      buffer := buffer[1..];
    }

    method TryPop() returns (data: Packet)
      modifies this
      ensures old(buffer) == [] ==> data == [] && buffer == []
      ensures old(buffer) != [] ==> old(buffer) == [data] + buffer
    {
      if buffer == [] {
        return [];
      }
      data := buffer[0];
      buffer := buffer[1..];
    }

    method Empty() returns (empty: bool)
      ensures empty <==> buffer == []
    {
      empty := buffer == [];
    }
  }
}
