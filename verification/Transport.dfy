/** The connection to the web server and the state of one request (FCGX_Request). */
module Transport {
  import opened Basics

  /** A connected descriptor: the bytes still to be read from it and the bytes written to it.
      How many bytes one read or write moves is the operating system's choice. */
  class Socket {
    var incoming: seq<byte>
    var outgoing: seq<byte>

    constructor (incoming: seq<byte>)
      ensures this.incoming == incoming && this.outgoing == []
    {
      this.incoming, this.outgoing := incoming, [];
    }

    /** OS_Read: at least one byte unless the peer has closed the connection. */
    method Read(buff: array<byte>) returns (count: nat)
      requires buff.Length > 0
      modifies this`incoming, buff
      ensures count <= buff.Length && count <= |old(incoming)|
      ensures count == 0 <==> old(incoming) == []
      ensures buff[..count] == old(incoming)[..count] && incoming == old(incoming)[count..]
    {
      if incoming == [] { return 0; }
      count :| 0 < count <= buff.Length && count <= |incoming|;
      forall i | 0 <= i < count { buff[i] := incoming[i]; }
      incoming := incoming[count..];
    }

    /** OS_Write, which is taken never to fail and always to make progress. */
    method Write(bytes: seq<byte>) returns (wrote: nat)
      requires bytes != []
      modifies this`outgoing
      ensures 0 < wrote <= |bytes|
      ensures outgoing == old(outgoing) + bytes[..wrote]
    {
      wrote :| 0 < wrote <= |bytes|;
      outgoing := outgoing + bytes[..wrote];
    }

    /** write_it_all: loops until every byte has been accepted. */
    method WriteAll(bytes: seq<byte>)
      modifies this`outgoing
      ensures outgoing == old(outgoing) + bytes
    {
      var done := 0;
      while done < |bytes|
        invariant done <= |bytes|
        invariant outgoing == old(outgoing) + bytes[..done]
      {
        var wrote := Write(bytes[done..]);
        assert bytes[..done] + bytes[done..][..wrote] == bytes[..done + wrote];
        done := done + wrote;
      }
      assert bytes[..done] == bytes;
    }
  }

  class Request {
    const socket: Socket
    var requestId: int
    var role: nat
    var isBeginProcessed: bool
    var keepConnection: bool
    var appStatus: int
    var nWriters: int

    constructor (socket: Socket, requestId: int, nWriters: int)
      ensures this.socket == socket && this.requestId == requestId && this.nWriters == nWriters
      ensures appStatus == 0 && !isBeginProcessed
    {
      this.socket, this.requestId, this.nWriters := socket, requestId, nWriters;
      role, isBeginProcessed, keepConnection, appStatus := 0, false, false, 0;
    }
  }
}
