/** cooper/net/TcpConnectionImpl: the plain send path on the loop thread. `wire` is what has
    been handed to the kernel and `accepted` what the connection has taken on, in order. */
module TcpConnections {

  import opened Bytes
  import opened Sequences

  datatype ConnStatus = Disconnected | Connecting | Connected | Disconnecting

  /** A node of writeBufferList_: buffered data, or a file range still to be sent. */
  datatype Node =
    | Data(bytes: seq<byte>)
    | File(content: seq<byte>, offset: nat, toSend: nat)

  /** Outcome of one write or sendfile: the kernel has room for some bytes (it may be none),
      would block, or reports any other error. */
  datatype Io = Room(n: nat) | WouldBlock | Failed

  function Min(x: nat, y: nat): nat { if x < y then x else y }

  function Taken(io: Io, len: nat): nat { if io.Room? then Min(io.n, len) else 0 }

  /** The bytes that a node can still contribute. A file may be shorter than the range. */
  function NodeBytes(node: Node): seq<byte> {
    match node
    case Data(bytes) => bytes
    case File(content, offset, toSend) =>
      if offset <= |content| then content[offset..offset + Min(toSend, |content| - offset)] else []
  }

  function Pending(nodes: seq<Node>): seq<byte> {
    if nodes == [] then [] else NodeBytes(nodes[0]) + Pending(nodes[1..])
  }

  ghost predicate NoAdjacentData(nodes: seq<Node>) {
    forall i :: 0 < i < |nodes| ==> nodes[i - 1].File? || nodes[i].File?
  }

  ghost predicate AllFiles(nodes: seq<Node>) {
    forall i :: 0 <= i < |nodes| ==> nodes[i].File?
  }

  /** A file may follow anything. */
  lemma FileAppended(nodes: seq<Node>, node: Node)
    requires NoAdjacentData(nodes) && node.File?
    ensures NoAdjacentData(nodes + [node]) && (AllFiles(nodes) ==> AllFiles(nodes + [node]))
  {}

  /** The file still has every byte that is to be sent. */
  predicate Whole(node: Node) {
    node.File? ==> node.toSend == |NodeBytes(node)|
  }

  ghost predicate AllWhole(nodes: seq<Node>) {
    forall i :: 0 <= i < |nodes| ==> Whole(nodes[i])
  }

  predicate Finished(node: Node) {
    match node
    case Data(bytes) => bytes == []
    case File(_, _, toSend) => toSend == 0
  }

  /** The front node is a file range that its file cannot fill. */
  ghost predicate Stuck(nodes: seq<Node>) {
    nodes != [] && !Whole(nodes[0])
  }

  /** The list without a finished front node. */
  function Unfinished(nodes: seq<Node>): seq<Node> {
    if nodes != [] && Finished(nodes[0]) then nodes[1..] else nodes
  }

  /** The bytes that the next write callback offers to the kernel: the first node's, or the
      second's when the first is finished and about to be removed. */
  function Offered(nodes: seq<Node>): seq<byte> {
    if Unfinished(nodes) == [] then [] else NodeBytes(Unfinished(nodes)[0])
  }

  /** A node of which the first k bytes have been sent. */
  function Shortened(node: Node, k: nat): Node
    requires k <= |NodeBytes(node)|
  {
    match node
    case Data(bytes) => Data(bytes[k..])
    case File(content, offset, toSend) => File(content, offset + k, toSend - k)
  }

  /** What one attempt on the front node leaves. */
  function Attempted(nodes: seq<Node>, io: Io): seq<Node> {
    if nodes == [] then [] else nodes[0 := Shortened(nodes[0], Taken(io, |NodeBytes(nodes[0])|))]
  }

  /** What remains to be done, counted in bytes and nodes. */
  function Work(nodes: seq<Node>): nat {
    |Pending(nodes)| + |nodes|
  }

  /** The callbacks that it takes while the kernel has room for everything: one for each node,
      and one to notice that the last is finished. */
  function Passes(nodes: seq<Node>): nat {
    |nodes| + if nodes != [] && !Finished(nodes[0]) then 1 else 0
  }

  lemma {:induction false} OfferedIsPending(nodes: seq<Node>)
    ensures |Offered(nodes)| <= |Pending(nodes)|
  {
    if |nodes| > 1 { assert nodes[1..][0] == nodes[1]; }
  }

  lemma {:induction false} PendingAppend(nodes: seq<Node>, node: Node)
    ensures Pending(nodes + [node]) == Pending(nodes) + NodeBytes(node)
  {
    if nodes == [] {
      assert Pending([node]) == NodeBytes(node) + Pending([node][1..]);
    } else {
      PendingAppend(nodes[1..], node);
      assert (nodes + [node])[1..] == nodes[1..] + [node];
      Associative(NodeBytes(nodes[0]), Pending(nodes[1..]), NodeBytes(node));
    }
  }

  /** Bytes go to the last data node, or to a new one after a file. */
  function Buffered(nodes: seq<Node>, more: seq<byte>): seq<Node> {
    if nodes == [] || nodes[|nodes| - 1].File? then nodes + [Data(more)]
    else nodes[..|nodes| - 1] + [Data(nodes[|nodes| - 1].bytes + more)]
  }

  lemma BufferedPending(nodes: seq<Node>, more: seq<byte>)
    ensures Pending(Buffered(nodes, more)) == Pending(nodes) + more
  {
    if nodes == [] || nodes[|nodes| - 1].File? {
      PendingAppend(nodes, Data(more));
    } else {
      var init, bytes := nodes[..|nodes| - 1], nodes[|nodes| - 1].bytes;
      assert nodes == init + [Data(bytes)];
      LastExtended(init, bytes, more);
    }
  }

  lemma LastExtended(init: seq<Node>, bytes: seq<byte>, more: seq<byte>)
    ensures Pending(init + [Data(bytes + more)]) == Pending(init + [Data(bytes)]) + more
  {
    PendingAppend(init, Data(bytes));
    PendingAppend(init, Data(bytes + more));
    Associative(Pending(init), bytes, more);
  }

  lemma BufferedShape(nodes: seq<Node>, more: seq<byte>)
    requires NoAdjacentData(nodes)
    ensures NoAdjacentData(Buffered(nodes, more))
    ensures |nodes| <= |Buffered(nodes, more)| <= |nodes| + 1
  {}

  lemma ShortenedBytes(node: Node, k: nat)
    requires k <= |NodeBytes(node)|
    ensures NodeBytes(Shortened(node, k)) == NodeBytes(node)[k..]
    ensures Whole(node) <==> Whole(Shortened(node, k))
    ensures Whole(node) && k == |NodeBytes(node)| ==> Finished(Shortened(node, k))
  {}

  lemma {:induction false} AttemptedLength(nodes: seq<Node>, io: Io)
    requires nodes != []
    ensures |Pending(Attempted(nodes, io))| == |Pending(nodes)| - Taken(io, |NodeBytes(nodes[0])|)
    ensures !io.Room? ==> Attempted(nodes, io) == nodes
  {
    var k := Taken(io, |NodeBytes(nodes[0])|);
    ShortenedBytes(nodes[0], k);
    PendingShrinkFirst(nodes, Shortened(nodes[0], k), k);
  }

  lemma {:induction false} UnfinishedLength(nodes: seq<Node>)
    requires nodes != []
    ensures Pending(Unfinished(nodes)) == Pending(nodes)
    ensures Passes(nodes) == |Unfinished(nodes)| + 1
    ensures AllWhole(nodes) ==> AllWhole(Unfinished(nodes))
    ensures Stuck(nodes) ==> Unfinished(nodes) == nodes
    ensures |Unfinished(nodes)| == |nodes| - if Finished(nodes[0]) then 1 else 0
  {
    if Finished(nodes[0]) { assert NodeBytes(nodes[0]) == []; }
  }

  /** What one callback does to the list: no more work remains than before, less if the files
      are whole and the kernel has any room, and one pass less if it has room for all. */
  lemma {:induction false} OneCallback(nodes: seq<Node>, io: Io)
    requires nodes != []
    ensures var rest := Attempted(Unfinished(nodes), io);
            && (Stuck(nodes) ==> Stuck(rest))
            && Work(rest) <= Work(nodes)
            && (!io.Room? ==> rest == Unfinished(nodes))
            && (AllWhole(nodes) ==>
                  && AllWhole(rest)
                  && (io.Room? && io.n > 0 ==> Work(rest) < Work(nodes))
                  && (io.Room? && io.n >= |Offered(nodes)| ==> Passes(rest) < Passes(nodes)))
  {
    UnfinishedLength(nodes);
    var front := Unfinished(nodes);
    if front != [] {
      AttemptedLength(front, io);
      ShortenedBytes(front[0], Taken(io, |NodeBytes(front[0])|));
      if AllWhole(front) { assert Whole(front[0]); }
    }
  }

  lemma FileAdvance(file: Node, k: nat)
    requires file.File? && k <= |NodeBytes(file)|
    ensures k <= file.toSend
    ensures NodeBytes(file.(offset := file.offset + k, toSend := file.toSend - k)) == NodeBytes(file)[k..]
  {}

  lemma PendingShrinkFirst(nodes: seq<Node>, node: Node, k: nat)
    requires nodes != [] && k <= |NodeBytes(nodes[0])| && NodeBytes(node) == NodeBytes(nodes[0])[k..]
    ensures NodeBytes(nodes[0])[..k] + Pending(nodes[0 := node]) == Pending(nodes)
    ensures |Pending(nodes[0 := node])| == |Pending(nodes)| - k
  {
    var bytes, rest := NodeBytes(nodes[0]), Pending(nodes[1..]);
    assert nodes[0 := node][1..] == nodes[1..];
    assert Pending(nodes[0 := node]) == bytes[k..] + rest;
    assert bytes[..k] + (bytes[k..] + rest) == bytes + rest;
  }

  /** Handing the first bytes of what is pending to the kernel keeps the whole stream. */
  lemma StreamKept(wire: seq<byte>, sent: seq<byte>, rest: seq<byte>, pending: seq<byte>)
    requires sent + rest == pending
    ensures (wire + sent) + rest == wire + pending
  {}

  lemma SentAndBuffered(wire: seq<byte>, pending: seq<byte>, buffer: seq<byte>, k: nat)
    requires k <= |buffer| && (k > 0 ==> pending == [])
    ensures (wire + buffer[..k]) + (pending + buffer[k..]) == (wire + pending) + buffer
  {
    assert buffer == buffer[..k] + buffer[k..];
  }

  class TcpConnection {
    var status: ConnStatus
    var writeBufferList: seq<Node>
    var writing: bool
    var closeOnEmpty: bool
    var writeClosed: bool  // the socket has been shut down for writing
    ghost var accepted: seq<byte>
    ghost var wire: seq<byte>
    ghost var failed: bool  // some write has reported an error

    ghost predicate Valid()
      reads this
    {
      // a deferred shutdown waits only for pending nodes
      && (closeOnEmpty && status.Connected? ==> writeBufferList != [])
      && Consistent()
    }

    ghost predicate Consistent()
      reads this
    {
      // nothing is lost, duplicated or reordered
      && wire + Pending(writeBufferList) == accepted
      && NoAdjacentData(writeBufferList)
      && (writing ==> writeBufferList != [])
      && (status.Disconnecting? ==> writeClosed)
      && (status.Connecting? ==> !closeOnEmpty)
      // without errors only files can be left waiting with the channel not writing
      && (!failed && !writing && !status.Disconnected? ==> AllFiles(writeBufferList))
    }

    constructor ()
      ensures Valid() && status.Connecting? && accepted == [] && wire == [] && writeBufferList == []
      ensures !writing && !closeOnEmpty && !writeClosed && !failed
    {
      status, writeBufferList, writing, closeOnEmpty, writeClosed := Connecting, [], false, false, false;
      accepted, wire, failed := [], [], false;
    }

    method ConnectEstablished()
      requires Valid() && status.Connecting?
      modifies this`status
      ensures Valid() && status.Connected?
    {
      status := Connected;
    }

    /** socketPtr_->closeWrite(): only ever called once everything accepted is on the wire. */
    method CloseWrite()
      requires writeBufferList == [] && wire == accepted
      modifies this`writeClosed
      ensures writeClosed
    {
      writeClosed := true;
    }

    method SendInLoop(buffer: seq<byte>, io: Io)
      requires Valid()
      modifies this
      ensures Valid()
      ensures status == old(status) && closeOnEmpty == old(closeOnEmpty) && writeClosed == old(writeClosed)
      ensures var direct := status.Connected? && !old(writing) && old(writeBufferList) == [];
              var lost := !status.Connected? || (direct && io.Failed?);
              var sent := if direct then Taken(io, |buffer|) else 0;
              && accepted == old(accepted) + (if lost then [] else buffer)
              && wire == old(wire) + buffer[..sent]
              && writing == (old(writing) || (!lost && sent < |buffer|))
              && |writeBufferList| <= |old(writeBufferList)| + 1
              && failed == (old(failed) || (direct && io.Failed?))
      ensures old(writeBufferList) != [] ==> writeBufferList != []
      ensures Stuck(old(writeBufferList)) ==> Stuck(writeBufferList)
    {
      if status != Connected {
        return;
      }
      var sendLen := 0;
      if !writing && writeBufferList == [] {
        // send directly
        if io.Failed? {
          failed := true;
          return;
        }
        sendLen := Taken(io, |buffer|);
      }
      Accept(buffer, sendLen);
    }

    /** Takes on a buffer of which the kernel has taken the first bytes. */
    method Accept(buffer: seq<byte>, sendLen: nat)
      requires Valid() && sendLen <= |buffer| && (sendLen > 0 ==> writeBufferList == [])
      modifies this`writeBufferList, this`writing, this`accepted, this`wire
      ensures Valid()
      ensures accepted == old(accepted) + buffer && wire == old(wire) + buffer[..sendLen]
      ensures writing == (old(writing) || sendLen < |buffer|)
      ensures |writeBufferList| <= |old(writeBufferList)| + 1
      ensures old(writeBufferList) != [] ==> writeBufferList != []
      ensures Stuck(old(writeBufferList)) ==> Stuck(writeBufferList)
    {
      SentAndBuffered(wire, Pending(writeBufferList), buffer, sendLen);
      wire := wire + buffer[..sendLen];
      accepted := accepted + buffer;
      if sendLen < |buffer| {
        BufferedPending(writeBufferList, buffer[sendLen..]);
        BufferedShape(writeBufferList, buffer[sendLen..]);
        writeBufferList := Buffered(writeBufferList, buffer[sendLen..]);
        writing := true;
      } else {
        assert Pending(writeBufferList) + buffer[sendLen..] == Pending(writeBufferList);
      }
    }

    /** The sendfile branch, on the file at the front of the list. A call that moves no byte
        leaves the channel as it is. */
    method SendFileInLoop(io: Io)
      requires Consistent() && writeBufferList != [] && writeBufferList[0].File?
      modifies this`writeBufferList, this`writing, this`wire, this`failed
      ensures Consistent() && |writeBufferList| == |old(writeBufferList)|
      ensures var front := old(writeBufferList[0]);
              var n := Taken(io, |NodeBytes(front)|);
              && wire == old(wire) + NodeBytes(front)[..n]
              && writeBufferList == old(writeBufferList)[0 := front.(offset := front.offset + n, toSend := front.toSend - n)]
              && |Pending(writeBufferList)| == |old(Pending(writeBufferList))| - n
              && writing == (if io.Failed? then false
                             else old(writing) || (io.Room? && (n > 0 || front.toSend == 0)))
              && failed == (old(failed) || io.Failed?)
    {
      var file := writeBufferList[0];
      if !io.Room? {
        if io.Failed? {
          failed := true;
          writing := false;
        }
        return;
      }
      var bytesSent := Taken(io, |NodeBytes(file)|);
      if bytesSent < file.toSend {
        if bytesSent == 0 {
          return;
        }
      }
      FileAdvance(file, bytesSent);
      var rest := file.(offset := file.offset + bytesSent, toSend := file.toSend - bytesSent);
      PendingShrinkFirst(writeBufferList, rest, bytesSent);
      StreamKept(wire, NodeBytes(file)[..bytesSent], Pending(writeBufferList[0 := rest]), Pending(writeBufferList));
      wire := wire + NodeBytes(file)[..bytesSent];
      writeBufferList := writeBufferList[0 := rest];
      writing := true;
    }

    /** sendFile(fd, offset, length), in the loop thread or from the task it has queued. */
    method PushFile(content: seq<byte>, offset: nat, length: nat, io: Io)
      requires Valid() && length > 0
      modifies this
      ensures Valid()
      ensures status == old(status) && closeOnEmpty == old(closeOnEmpty) && writeClosed == old(writeClosed)
      ensures var bytes := NodeBytes(File(content, offset, length));
              var n := if old(writeBufferList) == [] then Taken(io, |bytes|) else 0;
              && accepted == old(accepted) + bytes
              && wire == old(wire) + bytes[..n]
              && |writeBufferList| == |old(writeBufferList)| + 1
              && writeBufferList == old(writeBufferList) + [File(content, offset + n, length - n)]
              // the first attempt starts the channel only if it moves some bytes
              && writing == (old(writing) || n > 0)
              && failed == (old(failed) || (old(writeBufferList) == [] && io.Failed?))
      // the bytes of the range, as far as the file has them
      ensures offset + length <= |content| ==> accepted == old(accepted) + content[offset..offset + length]
      ensures offset <= |content| < offset + length ==> accepted == old(accepted) + content[offset..]
      ensures |content| < offset ==> accepted == old(accepted)
    {
      QueueFile(File(content, offset, length));
      if |writeBufferList| == 1 {
        SendFileInLoop(io);
      }
    }

    method QueueFile(node: Node)
      requires Valid() && node.File?
      modifies this`writeBufferList, this`accepted
      ensures Valid()
      ensures writeBufferList == old(writeBufferList) + [node] && accepted == old(accepted) + NodeBytes(node)
    {
      PendingAppend(writeBufferList, node);
      FileAppended(writeBufferList, node);
      Associative(wire, Pending(writeBufferList), NodeBytes(node));
      accepted := accepted + NodeBytes(node);
      writeBufferList := writeBufferList + [node];
    }

    method Shutdown()
      requires Consistent()
      modifies this`status, this`closeOnEmpty, this`writeClosed
      ensures Valid()
      ensures status == if old(status).Connected? && writeBufferList == [] then Disconnecting else old(status)
      ensures closeOnEmpty == (old(closeOnEmpty) || (old(status).Connected? && writeBufferList != []))
      ensures writeClosed == (old(writeClosed) || (old(status).Connected? && writeBufferList == []))
    {
      if status == Connected {
        if |writeBufferList| != 0 {
          closeOnEmpty := true;
          return;
        }
        status := Disconnecting;
        if !writing {
          CloseWrite();
        }
      }
    }

    method ForceClose()
      requires Valid()
      modifies this`status, this`writing
      ensures Valid()
      ensures if old(status).Connected? || old(status).Disconnecting? then status.Disconnected? && !writing
              else status == old(status) && writing == old(writing)
    {
      if status == Connected || status == Disconnecting {
        status := Disconnecting;
        HandleClose();
      }
    }

    method HandleClose()
      modifies this`status, this`writing
      ensures status.Disconnected? && !writing
    {
      status := Disconnected;
      writing := false;
    }

    /** Removes a finished front node; the list was not empty. */
    method PopFront()
      requires writeBufferList != [] && Finished(writeBufferList[0])
      modifies this`writeBufferList
      ensures writeBufferList == old(writeBufferList)[1..]
      ensures Pending(writeBufferList) == old(Pending(writeBufferList))
    {
      assert NodeBytes(writeBufferList[0]) == [];
      writeBufferList := writeBufferList[1..];
    }

    /** write() of the data node at the front. */
    method WriteFront(io: Io) returns (ok: bool)
      requires writeBufferList != [] && writeBufferList[0].Data?
      requires wire + Pending(writeBufferList) == accepted
      modifies this`writeBufferList, this`wire, this`failed
      ensures ok == !io.Failed? && failed == (old(failed) || io.Failed?)
      ensures wire + Pending(writeBufferList) == accepted
      ensures var front := old(writeBufferList[0]);
              var n := Taken(io, |front.bytes|);
              && wire == old(wire) + front.bytes[..n]
              && writeBufferList == old(writeBufferList)[0 := Data(front.bytes[n..])]
    {
      var front := writeBufferList[0];
      var n := Taken(io, |front.bytes|);
      PendingShrinkFirst(writeBufferList, Data(front.bytes[n..]), n);
      StreamKept(wire, front.bytes[..n], Pending(writeBufferList[0 := Data(front.bytes[n..])]), Pending(writeBufferList));
      wire := wire + front.bytes[..n];
      writeBufferList := writeBufferList[0 := Data(front.bytes[n..])];
      ok := !io.Failed?;
      failed := failed || io.Failed?;
    }

    /** One attempt to send from the front node; false if the callback gives up. */
    method SendFront(io: Io) returns (ok: bool)
      requires Consistent() && writing && writeBufferList != []
      modifies this`writeBufferList, this`writing, this`wire, this`failed
      ensures Consistent() && writeBufferList == Attempted(old(writeBufferList), io)
      ensures wire == old(wire) + NodeBytes(old(writeBufferList[0]))[..Taken(io, |NodeBytes(old(writeBufferList[0]))|)]
      ensures ok == (!io.Failed? || writeBufferList[0].File?)
      // an error stops the channel only at a file
      ensures writing == (!io.Failed? || writeBufferList[0].Data?)
      ensures failed == (old(failed) || io.Failed?)
    {
      if writeBufferList[0].Data? {
        ok := WriteFront(io);
      } else {
        SendFileInLoop(io);
        ok := true;
      }
    }

    /** The part of the callback that works on the list. */
    method Progress(io: Io) returns (ok: bool)
      requires Consistent() && writing
      modifies this`writeBufferList, this`writing, this`wire, this`failed, this`writeClosed
      ensures Consistent() && (old(writeClosed) ==> writeClosed)
      ensures writeClosed ==> old(writeClosed) || writeBufferList == []
      ensures ok || (io.Failed? && writeBufferList != [])
      ensures writeBufferList == Attempted(Unfinished(old(writeBufferList)), io)
      ensures wire == old(wire) + Offered(old(writeBufferList))[..Taken(io, |Offered(old(writeBufferList))|)]
      ensures writing == (writeBufferList != [] && (!io.Failed? || writeBufferList[0].Data?))
      ensures failed == (old(failed) || (io.Failed? && writeBufferList != []))
    {
      assert writeBufferList != [];
      ok := true;
      if Finished(writeBufferList[0]) {
        // finished sending
        ghost var data := writeBufferList[0].Data?;
        RemoveFinished();
        if writeBufferList != [] {
          // send next: after data it can only be a file
          assert data ==> writeBufferList[0].File?;
          ok := SendFront(io);
        }
      } else {
        // continue sending
        ok := SendFront(io);
      }
    }

    /** Takes the finished front node off the list; with nothing left, stops writing. */
    method RemoveFinished()
      requires Consistent() && writing && Finished(writeBufferList[0])
      modifies this`writeBufferList, this`writing, this`writeClosed
      ensures Consistent() && writing == (writeBufferList != []) && (old(writeClosed) ==> writeClosed)
      ensures writeBufferList == old(writeBufferList)[1..]
      ensures writeBufferList != [] ==>
                writeClosed == old(writeClosed) && (old(writeBufferList[0]).Data? ==> writeBufferList[0].File?)
    {
      assert writeBufferList != [];
      PopFront();
      if writeBufferList == [] {
        // stop writing
        writing := false;
        if status == Disconnecting {
          CloseWrite();
        }
      }
    }

    /** The channel is writable. One kernel call at most: what it takes is a prefix of the
        bytes offered; the callback that removes the last node stops the channel and
        completes a shutdown that was waiting for it. */
    method WriteCallback(io: Io)
      requires Valid()
      modifies this
      ensures Valid() && accepted == old(accepted)
      ensures old(writing) ==>
                wire == old(wire) + Offered(old(writeBufferList))[..Taken(io, |Offered(old(writeBufferList))|)]
      ensures old(writing) ==> writeBufferList == Attempted(Unfinished(old(writeBufferList)), io)
      ensures !old(writing) ==> !writing && wire == old(wire) && writeBufferList == old(writeBufferList)
      // without room nothing but a finished node leaves the list; an error stops the channel only at a file
      ensures old(writing) && !io.Room? ==> writeBufferList == Unfinished(old(writeBufferList))
      ensures old(writing) ==> writing == (writeBufferList != [] && (!io.Failed? || writeBufferList[0].Data?))
      ensures failed == (old(failed) || (old(writing) && io.Failed? && writeBufferList != []))
      ensures old(writing) && writeBufferList == [] && old(status).Connected? ==>
                if old(closeOnEmpty) then status.Disconnecting? && writeClosed else status.Connected?
      ensures writeBufferList != [] || !old(writing) || !old(status).Connected? ==> status == old(status)
      ensures closeOnEmpty == old(closeOnEmpty)
      ensures writeClosed ==> old(writeClosed) || writeBufferList == []
      ensures Stuck(old(writeBufferList)) ==> Stuck(writeBufferList)
      ensures Work(writeBufferList) <= old(Work(writeBufferList))
      ensures AllWhole(old(writeBufferList)) ==>
                && AllWhole(writeBufferList)
                && (old(writing) && io.Room? && io.n > 0 ==> Work(writeBufferList) < old(Work(writeBufferList)))
                && (old(writing) && io.Room? && io.n >= |Offered(old(writeBufferList))| ==>
                      Passes(writeBufferList) < old(Passes(writeBufferList)))
    {
      if writing {
        OneCallback(writeBufferList, io);
        var ok := Progress(io);
        if ok && closeOnEmpty {
          Shutdown();
        }
      }
    }
  }

  /** How many of these answers let some bytes through. */
  function Turns(ios: seq<Io>): nat {
    if ios == [] then 0
    else Turns(ios[..|ios| - 1]) + if ios[|ios| - 1].Room? && ios[|ios| - 1].n > 0 then 1 else 0
  }

  ghost predicate NoErrors(ios: seq<Io>) {
    forall i :: 0 <= i < |ios| ==> !ios[i].Failed?
  }

  lemma TurnsStep(ios: seq<Io>, i: nat)
    requires i < |ios|
    ensures Turns(ios[..i + 1]) == Turns(ios[..i]) + if ios[i].Room? && ios[i].n > 0 then 1 else 0
  {
    assert ios[..i + 1][..i] == ios[..i];
  }

  /** As long as no write fails and files are whole, a writing channel drains: whatever
      answers come in between, once the kernel has let bytes through often enough everything
      accepted is on the wire, and a shutdown that was deferred has been carried out. */
  method Drain(c: TcpConnection, ios: seq<Io>)
    requires c.Valid() && (c.writing || c.writeBufferList == []) && AllWhole(c.writeBufferList) && NoErrors(ios)
    modifies c
    ensures c.Valid() && AllWhole(c.writeBufferList) && c.accepted == old(c.accepted)
    ensures Turns(ios) >= old(Work(c.writeBufferList)) ==> c.writeBufferList == [] && c.wire == c.accepted
    ensures c.writeBufferList == [] && old(c.closeOnEmpty) && old(c.status).Connected? ==>
              c.status.Disconnecting? && c.writeClosed
  {
    for i := 0 to |ios|
      invariant c.Valid() && AllWhole(c.writeBufferList) && c.accepted == old(c.accepted)
      invariant c.writing || c.writeBufferList == []
      invariant c.writeBufferList != [] ==> Work(c.writeBufferList) + Turns(ios[..i]) <= old(Work(c.writeBufferList))
      invariant c.closeOnEmpty == old(c.closeOnEmpty)
      invariant c.writeBufferList != [] ==> c.status == old(c.status)
      invariant c.writeBufferList == [] && old(c.closeOnEmpty) && old(c.status).Connected? ==>
                  c.status.Disconnecting? && c.writeClosed
    {
      TurnsStep(ios, i);
      c.WriteCallback(ios[i]);
    }
    assert ios[..|ios|] == ios;
  }

  /** With room for everything in the kernel, one callback for each node and one more drain a
      writing channel. */
  method DrainAtOnce(c: TcpConnection, ios: seq<Io>)
    requires c.Valid() && (c.writing || c.writeBufferList == []) && AllWhole(c.writeBufferList)
    requires forall i :: 0 <= i < |ios| ==> ios[i].Room? && ios[i].n >= |c.accepted| - |c.wire|
    modifies c
    ensures c.Valid() && c.accepted == old(c.accepted)
    ensures |ios| > |old(c.writeBufferList)| ==> c.writeBufferList == [] && c.wire == c.accepted
  {
    for i := 0 to |ios|
      invariant c.Valid() && AllWhole(c.writeBufferList) && c.accepted == old(c.accepted)
      invariant |c.wire| >= |old(c.wire)|
      invariant c.writing || c.writeBufferList == []
      invariant c.writeBufferList != [] ==> Passes(c.writeBufferList) + i <= old(Passes(c.writeBufferList))
    {
      OfferedIsPending(c.writeBufferList);
      c.WriteCallback(ios[i]);
    }
  }

  /** A file range that is not whole is never finished: what one attempt leaves of it is not
      whole either, whatever the kernel answers. */
  lemma TruncatedFileNeverFinishes(file: Node, io: Io)
    requires file.File? && !Whole(file)
    ensures var n := Taken(io, |NodeBytes(file)|);
            n < file.toSend && !Whole(file.(offset := file.offset + n, toSend := file.toSend - n))
  {}

  /** So it stays at the front through any operations with any answers, errors included, and
      the list never empties. */
  method StuckForGood(c: TcpConnection, ops: seq<Op>, ios: seq<Io>)
    requires c.Valid() && Stuck(c.writeBufferList)
    requires |ios| == |ops| && forall i :: 0 <= i < |ops| ==> ops[i].SendFile? ==> ops[i].length > 0
    modifies c
    ensures c.Valid() && Stuck(c.writeBufferList)
  {
    for i := 0 to |ops|
      invariant c.Valid() && Stuck(c.writeBufferList)
    {
      Do(c, ops[i], ios[i]);
    }
  }

  /** sendFile(name, offset) with no length takes the size of the whole file as the length,
      which the rest of the file fills if and only if the offset is 0. */
  lemma DefaultLengthIsWholeIffNoOffset(content: seq<byte>, offset: nat)
    requires content != []
    ensures Whole(File(content, offset, |content|)) <==> offset == 0
  {}

  /** sendFile(name, offset) on an idle connection, followed by any write callbacks without
      errors. Only with offset 0 and a first attempt that moves some bytes does the list ever
      drain; and then it does, once the kernel has let bytes through often enough. */
  method SendNamedFile(c: TcpConnection, content: seq<byte>, offset: nat, first: Io, ios: seq<Io>)
    requires c.Valid() && c.writeBufferList == [] && content != []
    requires !first.Failed? && NoErrors(ios)
    modifies c
    ensures c.Valid()
    ensures !(offset == 0 && first.Room? && first.n > 0) ==> c.writeBufferList != []
    ensures Turns(ios) > |content| ==>
              (c.writeBufferList == [] <==> offset == 0 && first.Room? && first.n > 0)
  {
    DefaultLengthIsWholeIffNoOffset(content, offset);
    ghost var file := File(content, offset, |content|);
    c.PushFile(content, offset, |content|, first);
    ghost var n := Taken(first, |NodeBytes(file)|);
    assert c.writeBufferList == [File(content, offset + n, |content| - n)];
    if offset == 0 && c.writing {
      FileAdvance(file, n);
      assert Pending(c.writeBufferList) == NodeBytes(c.writeBufferList[0]) + Pending(c.writeBufferList[1..]);
      assert AllWhole(c.writeBufferList);
      Drain(c, ios);
    } else if offset == 0 {
      Idle(c, ios);
    } else {
      TruncatedFileNeverFinishes(file, first);
      StuckForGood(c, seq(|ios|, _ => Writable), ios);
    }
  }

  /** A channel that is not writing is not called back. */
  method Idle(c: TcpConnection, ios: seq<Io>)
    requires c.Valid() && !c.writing
    modifies c
    ensures c.Valid() && !c.writing && c.writeBufferList == old(c.writeBufferList)
  {
    for i := 0 to |ios|
      invariant c.Valid() && !c.writing && c.writeBufferList == old(c.writeBufferList)
    {
      c.WriteCallback(ios[i]);
    }
  }

  datatype Op =
    | Send(buffer: seq<byte>)
    | SendFile(content: seq<byte>, offset: nat, length: nat)
    | HalfClose
    | Writable

  /** Only buffered data starts a channel that is waiting. */
  predicate Restarts(op: Op, open: bool) {
    op.Send? && op.buffer != [] && open
  }

  method Do(c: TcpConnection, op: Op, io: Io)
    requires c.Valid() && (op.SendFile? ==> op.length > 0)
    modifies c
    ensures c.Valid() && (Stuck(old(c.writeBufferList)) ==> Stuck(c.writeBufferList))
    ensures !io.Failed? ==> c.accepted == old(c.accepted) + Given(op, old(c.status).Connected?)
    ensures !old(c.writing) && old(c.writeBufferList) != [] ==>
              && (c.writing <==> Restarts(op, old(c.status).Connected?))
              && c.writeBufferList != [] && c.status == old(c.status)
    ensures c.closeOnEmpty ==> old(c.closeOnEmpty) || op.HalfClose?
    ensures c.status != old(c.status) ==>
              old(c.status).Connected? && c.status.Disconnecting? && (old(c.closeOnEmpty) || op.HalfClose?)
  {
    match op {
      case Send(buffer) => c.SendInLoop(buffer, io);
      case SendFile(content, offset, length) => c.PushFile(content, offset, length, io);
      case HalfClose => c.Shutdown();
      case Writable => c.WriteCallback(io);
    }
  }

  /** What an operation hands to the connection: a closed one ignores data, but not files. */
  function Given(op: Op, open: bool): seq<byte> {
    match op
    case Send(buffer) => if open then buffer else []
    case SendFile(content, offset, length) => NodeBytes(File(content, offset, length))
    case HalfClose => []
    case Writable => []
  }

  function Payload(ops: seq<Op>, open: seq<bool>): seq<byte>
    requires |open| == |ops|
  {
    if ops == [] then []
    else Payload(ops[..|ops| - 1], open[..|ops| - 1]) + Given(ops[|ops| - 1], open[|ops| - 1])
  }

  ghost predicate ClosedBefore(ops: seq<Op>, i: nat)
    requires i <= |ops|
  {
    exists j :: 0 <= j < i && ops[j].HalfClose?
  }

  /** A list that waits with the channel not writing goes on waiting until the first non-empty
      data send on the open connection, whatever else happens and whatever the kernel answers. */
  method Wait(c: TcpConnection, ops: seq<Op>, ios: seq<Io>) returns (k: nat)
    requires c.Valid() && !c.writing && c.writeBufferList != []
    requires |ios| == |ops| && forall i :: 0 <= i < |ops| ==> ops[i].SendFile? ==> ops[i].length > 0
    modifies c
    ensures c.Valid() && c.writeBufferList != [] && k <= |ops|
    ensures forall i :: 0 <= i < k ==> !Restarts(ops[i], old(c.status).Connected?)
    ensures if k < |ops| then c.writing && Restarts(ops[k], old(c.status).Connected?) else !c.writing
  {
    k := 0;
    while k < |ops|
      invariant c.Valid() && !c.writing && c.writeBufferList != [] && c.status == old(c.status) && k <= |ops|
      invariant forall i :: 0 <= i < k ==> !Restarts(ops[i], old(c.status).Connected?)
    {
      Do(c, ops[k], ios[k]);
      if c.writing {
        return;
      }
      k := k + 1;
    }
  }

  ghost predicate OnlyShutdownCloses(ops: seq<Op>, open: seq<bool>)
    requires |open| <= |ops|
  {
    forall k :: 0 <= k < |open| && !open[k] ==> ClosedBefore(ops, k)
  }

  lemma ClosedLater(ops: seq<Op>, open: seq<bool>, now: bool)
    requires |open| < |ops| && OnlyShutdownCloses(ops, open) && (now || ClosedBefore(ops, |open|))
    ensures OnlyShutdownCloses(ops, open + [now])
    ensures ClosedBefore(ops, |open|) || ops[|open|].HalfClose? ==> ClosedBefore(ops, |open| + 1)
  {
    forall k | 0 <= k < |open| + 1 && !(open + [now])[k] ensures ClosedBefore(ops, k) {
      if k < |open| { assert !open[k]; }
    }
  }

  /** Over any sequence of sends, file sends, shutdowns and write callbacks, with any results of
      the kernel calls except errors, the bytes on the wire followed by the bytes still pending
      are the concatenation of the payloads. `open[i]` says whether the connection was still
      open for operation i; only a shutdown ends that. */
  method RunLoop(c: TcpConnection, ops: seq<Op>, ios: seq<Io>) returns (open: seq<bool>)
    requires c.Valid() && c.status.Connected? && !c.closeOnEmpty && c.accepted == []
    requires |ios| == |ops| && NoErrors(ios) && forall i :: 0 <= i < |ops| ==> ops[i].SendFile? ==> ops[i].length > 0
    modifies c
    ensures c.Valid() && |open| == |ops|
    ensures c.wire + Pending(c.writeBufferList) == Payload(ops, open)
    ensures OnlyShutdownCloses(ops, open)
  {
    open := [];
    for i := 0 to |ops|
      invariant c.Valid() && |open| == i
      invariant MayHaveClosed(c, ClosedBefore(ops, i))
      invariant OnlyShutdownCloses(ops, open)
      invariant c.accepted == Payload(ops[..i], open)
    {
      PayloadStep(ops, open, i, c.status.Connected?);
      ClosedLater(ops, open, c.status.Connected?);
      open := open + [c.status.Connected?];
      Step(c, ops[i], ios[i], ClosedBefore(ops, i));
    }
    assert ops[..|ops|] == ops;
  }

  /** Whether a shutdown has been asked for or carried out. */
  ghost predicate MayHaveClosed(c: TcpConnection, closed: bool)
    reads c
  {
    c.closeOnEmpty || !c.status.Connected? ==> closed
  }

  method Step(c: TcpConnection, op: Op, io: Io, ghost closed: bool)
    requires c.Valid() && (op.SendFile? ==> op.length > 0) && !io.Failed? && MayHaveClosed(c, closed)
    modifies c
    ensures c.Valid() && c.accepted == old(c.accepted) + Given(op, old(c.status).Connected?)
    ensures MayHaveClosed(c, closed || op.HalfClose?)
  {
    Do(c, op, io);
  }

  lemma PayloadStep(ops: seq<Op>, open: seq<bool>, i: nat, now: bool)
    requires i < |ops| && |open| == i
    ensures Payload(ops[..i + 1], open + [now]) == Payload(ops[..i], open) + Given(ops[i], now)
  {
    assert ops[..i + 1][..i] == ops[..i] && (open + [now])[..i] == open;
  }
}
