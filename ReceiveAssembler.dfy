/** The receiver's side: every payload that arrives on a connection becomes
    one record at the end of an ever-growing list, and is answered with one
    acknowledgement carrying its file name. Nothing is deduplicated or
    reordered. */
module ReceiveAssembler {
  import opened Protocol

  /** The acknowledgements that answer `arrived`: one per payload, carrying
      that payload's file name, in arrival order, duplicates included. */
  function AcksFor(arrived: seq<Payload>): (acks: seq<Ack>)
    ensures |acks| == |arrived|
    ensures forall i :: 0 <= i < |arrived| ==> acks[i] == Ack(arrived[i].filename)
  {
    if arrived == [] then []
    else AcksFor(arrived[..|arrived| - 1]) + [Ack(arrived[|arrived| - 1].filename)]
  }

  /** The receiver component's state. `received` is what the page lists; the
      ghost `arrived` logs every payload consumed off a connection and the
      ghost `sent` every acknowledgement put back on it. */
  class Receiver {
    var received: seq<ReceivedFile>
    ghost var arrived: seq<Payload>
    ghost var sent: seq<Ack>

    /** One record and one acknowledgement per arrived payload, position by
        position: the record keeps the declared name and size, the
        acknowledgement carries the name. */
    ghost predicate Valid()
      reads this
    {
      && |received| == |arrived|
      && sent == AcksFor(arrived)
      && forall i :: 0 <= i < |arrived| ==>
           received[i].filename == arrived[i].filename && received[i].filesize == arrived[i].filesize
    }

    constructor ()
      ensures Valid()
      ensures received == [] && arrived == [] && sent == []
    {
      received := [];
      arrived := [];
      sent := [];
    }

    /** The connection's `"data"` handler: the payload's name and declared
        size, with the object URL minted for its contents, go at the end of
        the list, and `{ack: filename}` is sent back and returned as
        `reply`. Earlier records stay as they were. */
    method OnData(p: Payload, url: string) returns (reply: Ack)
      requires Valid()
      modifies this
      ensures Valid()
      ensures received == old(received) + [ReceivedFile(p.filename, p.filesize, url)]
      ensures arrived == old(arrived) + [p]
      ensures reply == Ack(p.filename) && sent == old(sent) + [reply]
    {
      received := received + [ReceivedFile(p.filename, p.filesize, url)];
      arrived := arrived + [p];
      assert arrived[..|arrived| - 1] == old(arrived);
      reply := Ack(p.filename);
      sent := sent + [reply];
    }
  }
}
