/** The two components together: the sender's batch crosses the connection,
    the receiver answers each payload, and the sender reconciles its queue
    against the answers, whatever order they arrive in. */
module Exchange {
  import opened Protocol
  import opened Address
  import opened SenderQueue
  import opened ReceiveAssembler

  /** Every payload of a batch names a file of the queue it was built from,
      and every queued file is named by the payload built from it. */
  lemma BatchNamesQueue(q: seq<File>, delivered: seq<Payload>)
    requires multiset(delivered) == multiset(Batch(q))
    ensures forall f | f in q :: Ack(f.name) in AcksFor(delivered)
  {
    var acks := AcksFor(delivered);
    forall f | f in q ensures Ack(f.name) in acks {
      var i :| 0 <= i < |q| && q[i] == f;
      assert Batch(q)[i] == PayloadOf(f);
      assert PayloadOf(f) in multiset(Batch(q));
      assert PayloadOf(f) in delivered;
      var j :| 0 <= j < |delivered| && delivered[j] == PayloadOf(f);
      assert acks[j] == Ack(f.name);
    }
  }

  /** After the receiver has answered a whole batch, delivered in any order,
      and the sender has handled those answers in the order they came back,
      no file of the batch is left in the queue; files queued after Send was
      pressed stay unless an answer happens to carry their name. */
  lemma {:induction false} AnsweredBatchLeavesQueue(q: seq<File>, later: seq<File>, delivered: seq<Payload>)
    requires multiset(delivered) == multiset(Batch(q))
    ensures ApplyAcks(q + later, AcksFor(delivered)) == KeepUnacked(later, AcksFor(delivered))
    ensures ApplyAcks(q, AcksFor(delivered)) == []
  {
    var acks := AcksFor(delivered);
    BatchNamesQueue(q, delivered);
    ApplyAcksKeepsUnacked(q + later, acks);
    ApplyAcksKeepsUnacked(q, acks);
    KeepUnackedAppend(q, later, acks);
    KeepUnackedDropsAll(q, acks);
  }

  /** Two queued files whose acknowledgements come back second first both
      leave the queue. */
  lemma AnsweredPairLeavesQueue(a: File, b: File)
    ensures RemoveNamed(RemoveNamed([a, b], b.name), a.name) == []
  {
    KeepUnackedAfterRemove([a, b], b.name, [Ack(a.name)]);
    KeepUnackedDropsAll([a, b], [Ack(b.name), Ack(a.name)]);
  }

  /** Scenario: the receiver shares its id; one file is queued and sent,
      recorded by the receiver with its name and size, acknowledged, and
      moved from the sender's queue to its acknowledged list. */
  method OneFileScenario(peerId: string, report: File, url: string)
    requires '/' !in peerId && Text.IsTrimmed(peerId)
  {
    var sender := new Sender();
    var receiver := new Receiver();
    sender.Add([report]);
    ShareLinkRoundTrip(peerId);
    var outcome := sender.SendBatch(SendPath(peerId), true);
    assert outcome.Dialed? && outcome.target == peerId && |outcome.payloads| == 1;
    var reply := receiver.OnData(outcome.payloads[0], url);
    assert receiver.received == [ReceivedFile(report.name, report.size, url)];
    assert reply == Ack(report.name);
    KeepUnackedDropsAll([report], [reply]);
    sender.OnAck(reply);
    assert sender.files == [] && sender.acked == [report.name];
  }

  /** Scenario: two files (same name or not) are sent from a page whose path
      names a peer, and their acknowledgements come back in the opposite
      order; the queue still ends empty. */
  method TwoFilesScenario(pathname: string, a: File, b: File, urlA: string, urlB: string)
    requires DialTarget(pathname).Some?
  {
    var sender := new Sender();
    var receiver := new Receiver();
    sender.Add([a, b]);
    assert sender.files == [a, b];
    var outcome := sender.SendBatch(pathname, true);
    assert outcome.Dialed? && |outcome.payloads| == 2;
    assert outcome.payloads[0].filename == a.name && outcome.payloads[1].filename == b.name;
    var replyB := receiver.OnData(outcome.payloads[1], urlB);
    var replyA := receiver.OnData(outcome.payloads[0], urlA);
    assert replyB == Ack(b.name) && replyA == Ack(a.name);
    assert receiver.sent == [replyB, replyA];
    sender.OnAck(replyB);
    sender.OnAck(replyA);
    AnsweredPairLeavesQueue(a, b);
    assert sender.files == [];
    assert sender.acked == [a.name, b.name];
  }
}
