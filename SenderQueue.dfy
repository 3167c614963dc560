/** The sender's side: a queue of selected files, a send that turns the
    queue into one payload per file, and the reconciliation of the queue
    against the acknowledgements that come back. The state updaters are
    functions on sequences; the component's state and its event handlers
    are the class `Sender`. */
module SenderQueue {
  import opened Wrappers
  import opened Protocol
  import opened Address

  /** `a` is `b` with some elements left out, the rest in their order. */
  ghost predicate IsSubsequence(a: seq<File>, b: seq<File>)
    decreases |b|
  {
    a == [] || (b != [] && ((a[0] == b[0] && IsSubsequence(a[1..], b[1..])) || IsSubsequence(a, b[1..])))
  }

  // ---------------------------------------------------------------------
  // State updaters
  // ---------------------------------------------------------------------

  /** The trash button's updater, `prev.filter((_, i) => i !== index)`:
      the queue without its entry at `index`, the others in order; an index
      outside the queue removes nothing. */
  function WithoutIndex(q: seq<File>, index: int): (r: seq<File>)
    ensures 0 <= index < |q| ==> r == q[..index] + q[index + 1..]
    ensures !(0 <= index < |q|) ==> r == q
    decreases |q|
  {
    if q == [] then []
    else if index == 0 then
      var rest := WithoutIndex(q[1..], index - 1);
      assert rest == q[1..];
      rest
    else
      var rest := WithoutIndex(q[1..], index - 1);
      if 0 < index < |q| then
        assert rest == q[1..index] + q[index + 1..];
        assert [q[0]] + q[1..index] == q[..index];
        [q[0]] + rest
      else
        assert [q[0]] + q[1..] == q;
        [q[0]] + rest
  }

  /** The files of `q` that no acknowledgement in `acks` names, in queue
      order: the reference that the acknowledgement handler is measured
      against. Its properties are the lemmas below. */
  function KeepUnacked(q: seq<File>, acks: seq<Ack>): seq<File>
  {
    if q == [] then []
    else (if Ack(q[0].name) in acks then [] else [q[0]]) + KeepUnacked(q[1..], acks)
  }

  /** Each file named by an acknowledgement is gone with all its copies, and
      every other file keeps its number of copies. */
  lemma {:induction false} KeepUnackedCounts(q: seq<File>, acks: seq<Ack>)
    ensures forall f :: multiset(KeepUnacked(q, acks))[f] == if Ack(f.name) in acks then 0 else multiset(q)[f]
  {
    if q != [] {
      KeepUnackedCounts(q[1..], acks);
      assert q == [q[0]] + q[1..];
      assert multiset(q) == multiset{q[0]} + multiset(q[1..]);
    }
  }

  /** The files that remain keep their relative order. */
  lemma {:induction false} KeepUnackedInOrder(q: seq<File>, acks: seq<Ack>)
    ensures IsSubsequence(KeepUnacked(q, acks), q)
  {
    if q != [] {
      KeepUnackedInOrder(q[1..], acks);
      var rest := KeepUnacked(q[1..], acks);
      if Ack(q[0].name) !in acks {
        assert ([q[0]] + rest)[1..] == rest;
      } else {
        assert KeepUnacked(q, acks) == rest;
      }
    }
  }

  /** A queue that no acknowledgement names is kept whole. */
  lemma {:induction false} KeepUnackedKeepsAll(q: seq<File>, acks: seq<Ack>)
    requires forall f | f in q :: Ack(f.name) !in acks
    ensures KeepUnacked(q, acks) == q
  {
    if q != [] {
      KeepUnackedKeepsAll(q[1..], acks);
      assert q == [q[0]] + q[1..];
    }
  }

  /** A queue whose every file some acknowledgement names is emptied. */
  lemma {:induction false} KeepUnackedDropsAll(q: seq<File>, acks: seq<Ack>)
    requires forall f | f in q :: Ack(f.name) in acks
    ensures KeepUnacked(q, acks) == []
  {
    if q != [] {
      KeepUnackedDropsAll(q[1..], acks);
      assert q[0] in q;
    }
  }

  /** The acknowledgement handler's updater,
      `prev.filter(file => file.name !== data.ack)`: it keeps exactly the
      files that the single acknowledgement for `name` does not name, so one
      acknowledgement clears every same-named file, and a name not in the
      queue leaves it as it is. */
  function RemoveNamed(q: seq<File>, name: string): (r: seq<File>)
    ensures r == KeepUnacked(q, [Ack(name)])
  {
    if q == [] then []
    else (if q[0].name == name then [] else [q[0]]) + RemoveNamed(q[1..], name)
  }

  /** An acknowledgement for a name that is not queued leaves the queue as
      it is. */
  lemma RemoveUnknownNameIsNoop(q: seq<File>, name: string)
    requires forall f | f in q :: f.name != name
    ensures RemoveNamed(q, name) == q
  {
    KeepUnackedKeepsAll(q, [Ack(name)]);
  }

  /** One acknowledgement removes every file with its name, however many
      there are, and every other file keeps its number of copies. */
  lemma RemoveNamedCounts(q: seq<File>, name: string)
    ensures forall f :: multiset(RemoveNamed(q, name))[f] == if f.name == name then 0 else multiset(q)[f]
  {
    KeepUnackedCounts(q, [Ack(name)]);
  }

  /** The queue after the acknowledgement handler has run once for each of
      `acks`, in order. */
  function ApplyAcks(q: seq<File>, acks: seq<Ack>): seq<File>
    decreases |acks|
  {
    if acks == [] then q else ApplyAcks(RemoveNamed(q, acks[0].ack), acks[1..])
  }

  /** Filtering by one name and then by a list of names is filtering by the
      name and the list together. */
  lemma {:induction false} KeepUnackedAfterRemove(q: seq<File>, name: string, acks: seq<Ack>)
    ensures KeepUnacked(RemoveNamed(q, name), acks) == KeepUnacked(q, [Ack(name)] + acks)
    decreases |q|
  {
    if q != [] {
      var all := [Ack(name)] + acks;
      var rest := RemoveNamed(q[1..], name);
      KeepUnackedAfterRemove(q[1..], name, acks);
      assert KeepUnacked(rest, acks) == KeepUnacked(q[1..], all);
      if q[0].name == name {
        assert RemoveNamed(q, name) == rest;
        assert Ack(q[0].name) in all;
      } else {
        var head := if Ack(q[0].name) in acks then [] else [q[0]];
        assert RemoveNamed(q, name) == [q[0]] + rest;
        assert ([q[0]] + rest)[0] == q[0] && ([q[0]] + rest)[1..] == rest;
        assert KeepUnacked([q[0]] + rest, acks) == head + KeepUnacked(rest, acks);
        assert (Ack(q[0].name) in all) == (Ack(q[0].name) in acks);
        assert KeepUnacked(q, all) == head + KeepUnacked(q[1..], all);
      }
    }
  }

  /** However acknowledgements arrive, the queue after handling them is
      exactly the files none of them names, in their original order. */
  lemma {:induction false} ApplyAcksKeepsUnacked(q: seq<File>, acks: seq<Ack>)
    ensures ApplyAcks(q, acks) == KeepUnacked(q, acks)
    decreases |acks|
  {
    if acks != [] {
      ApplyAcksKeepsUnacked(RemoveNamed(q, acks[0].ack), acks[1..]);
      KeepUnackedAfterRemove(q, acks[0].ack, acks[1..]);
      assert [Ack(acks[0].ack)] + acks[1..] == acks;
    } else {
      KeepUnackedKeepsAll(q, acks);
    }
  }

  /** After handling `acks`, a file is still queued exactly when it was
      queued before and none of them carries its name: acknowledged files
      are gone, and a file whose acknowledgement never came (the connection
      closed first) stays. */
  lemma AckedFilesLeaveOthersStay(q: seq<File>, acks: seq<Ack>)
    ensures forall f :: f in ApplyAcks(q, acks) <==> f in q && Ack(f.name) !in acks
  {
    ApplyAcksKeepsUnacked(q, acks);
    KeepUnackedCounts(q, acks);
    forall f ensures f in ApplyAcks(q, acks) <==> f in q && Ack(f.name) !in acks {
      assert f in ApplyAcks(q, acks) <==> multiset(ApplyAcks(q, acks))[f] > 0;
      assert f in q <==> multiset(q)[f] > 0;
    }
  }

  /** Filtering a queue is filtering its two halves. */
  lemma {:induction false} KeepUnackedAppend(a: seq<File>, b: seq<File>, acks: seq<Ack>)
    ensures KeepUnacked(a + b, acks) == KeepUnacked(a, acks) + KeepUnacked(b, acks)
    decreases |a|
  {
    if a != [] {
      KeepUnackedAppend(a[1..], b, acks);
      var head := if Ack(a[0].name) in acks then [] else [a[0]];
      assert (a + b)[0] == a[0] && (a + b)[1..] == a[1..] + b;
      calc {
        KeepUnacked(a + b, acks);
        head + KeepUnacked(a[1..] + b, acks);
        head + (KeepUnacked(a[1..], acks) + KeepUnacked(b, acks));
        (head + KeepUnacked(a[1..], acks)) + KeepUnacked(b, acks);
        KeepUnacked(a, acks) + KeepUnacked(b, acks);
      }
    } else {
      assert a + b == b;
    }
  }

  // ---------------------------------------------------------------------
  // Payloads
  // ---------------------------------------------------------------------

  /** The payload built for one file once its contents are read. */
  function PayloadOf(f: File): Payload {
    Payload(f.name, f.mime, f.size, f.content)
  }

  /** One payload per file, in queue order. */
  function Batch(q: seq<File>): seq<Payload> {
    seq(|q|, i requires 0 <= i < |q| => PayloadOf(q[i]))
  }

  /** What pressing Send leads to: nothing without a peer, a thrown error
      when the path has no third segment, or a connection dialled to the
      target that carries the listed payloads once it opens. */
  datatype SendResult = NoPeer | BadPath | Dialed(target: string, payloads: seq<Payload>)

  // ---------------------------------------------------------------------
  // The component
  // ---------------------------------------------------------------------

  class Sender {
    /** The files waiting to be sent, in the order they were selected. */
    var files: seq<File>
    /** The names acknowledged so far, most recent first (the component's
        `receivedFiles`). */
    var acked: seq<string>

    constructor ()
      ensures files == [] && acked == []
    {
      files := [];
      acked := [];
    }

    /** `handleDrop` and `handleFileChange`: the selected files go after the
        ones already queued. */
    method Add(selected: seq<File>)
      modifies this
      ensures files == old(files) + selected
      ensures |files| == |old(files)| + |selected| && files[..|old(files)|] == old(files)
      ensures acked == old(acked)
    {
      files := files + selected;
    }

    /** The trash button of the row at `index`. */
    method RemoveAt(index: int)
      modifies this
      ensures files == WithoutIndex(old(files), index)
      ensures 0 <= index < |old(files)| ==> files == old(files)[..index] + old(files)[index + 1..]
      ensures !(0 <= index < |old(files)|) ==> files == old(files)
      ensures acked == old(acked)
    {
      files := WithoutIndex(files, index);
    }

    /** `handleSendFiles`: with a peer, dial the target named by the page's
        path and, once the connection opens, send one payload per file queued
        at this moment, carrying its name, type, size and contents. The queue
        itself is not touched. */
    method SendBatch(pathname: string, peerReady: bool) returns (r: SendResult)
      ensures !peerReady ==> r == NoPeer
      ensures peerReady && DialTarget(pathname).None? ==> r == BadPath
      ensures peerReady && DialTarget(pathname).Some? ==>
        && r.Dialed?
        && r.target == DialTarget(pathname).value
        && |r.payloads| == |files|
        && forall i :: 0 <= i < |files| ==>
             && r.payloads[i].filename == files[i].name
             && r.payloads[i].filetype == files[i].mime
             && r.payloads[i].filesize == files[i].size
             && r.payloads[i].filedata == files[i].content
             && Consistent(r.payloads[i])
      ensures peerReady && DialTarget(pathname).Some? ==> r.payloads == Batch(files)
    {
      if !peerReady {
        return NoPeer;
      }
      var target := DialTarget(pathname);
      if target.None? {
        return BadPath;
      }
      var snapshot := files;
      var out: seq<Payload> := [];
      for i := 0 to |snapshot|
        invariant |out| == i
        invariant forall k :: 0 <= k < i ==> out[k] == PayloadOf(snapshot[k])
      {
        out := out + [PayloadOf(snapshot[i])];
      }
      return Dialed(target.value, out);
    }

    /** The connection's `'data'` handler for an acknowledgement: every queued
        file with the acknowledged name leaves the queue, and the name is put
        in front of the acknowledged list. */
    method OnAck(msg: Ack)
      modifies this
      ensures files == RemoveNamed(old(files), msg.ack)
      ensures acked == [msg.ack] + old(acked)
    {
      files := RemoveNamed(files, msg.ack);
      acked := [msg.ack] + acked;
    }
  }
}
