/** The two ends of the RDMA transfer: the client of ib_client.cpp queues headers and
    chunks and writes them one by one, the server of ib_server.cpp puts them together. */
module IbEnds {
  import opened Basics
  import opened IbHeader

  const BUFFER_SIZE: nat := 104857600

  // What send_data queues last; send_next takes it for the end and sends nothing.
  const EndIndicator: string := ['E', 'O', 'F', NUL]

  /* What the client queues. */

  function Chunks(data: string): (chunks: seq<string>)
    ensures data != [] ==> chunks != []
    decreases |data|
  {
    if data == [] then []
    else if |data| <= BUFFER_SIZE then [data]
    else [data[..BUFFER_SIZE]] + Chunks(data[BUFFER_SIZE..])
  }

  function Flatten(chunks: seq<string>): string
  {
    if chunks == [] then [] else chunks[0] + Flatten(chunks[1..])
  }

  // The chunks are never empty, fit the buffer and spell out the data.
  lemma {:induction false} ChunksSpell(data: string)
    ensures Flatten(Chunks(data)) == data
    ensures forall i :: 0 <= i < |Chunks(data)| ==> 0 < |Chunks(data)[i]| <= BUFFER_SIZE
    ensures forall i :: 0 <= i < |Chunks(data)| - 1 ==> |Chunks(data)[i]| == 100 * 1024 * 1024
    decreases |data|
  {
    if |data| > BUFFER_SIZE {
      ChunksSpell(data[BUFFER_SIZE..]);
      assert data == data[..BUFFER_SIZE] + data[BUFFER_SIZE..];
    } else if data != [] {
      assert Flatten([data]) == data + Flatten([]);
    }
  }

  // Memory that make_header filled, as far as it writes.
  predicate IsHeader(h: string, t: char, id: string, size: UInt64)
    requires |id| <= IB_MAX_DATA_ID_LENGTH
  {
    |h| == HeaderSize(t) && Header(t, id, size) <= h
  }

  // With all its fields given, make_header leaves nothing of the memory unwritten, and
  // what is queued does not depend on it.
  lemma HeaderFilled(h: string, t: char, id: string, size: UInt64)
    requires |id| <= IB_MAX_DATA_ID_LENGTH && IsHeader(h, t, id, size)
    requires t == RDMA_MSG ==> id == "" && 0 < size
    requires t == RDMA_DATA ==> id != "" && 0 < size
    requires t == RDMA_INIT ==> id == "" && size == 0
    requires t == RDMA_INIT || t == RDMA_MSG || t == RDMA_DATA
    ensures h == Header(t, id, size)
  {
  }

  function InitItems(): seq<string>
  {
    [Header(RDMA_INIT, "", 0)]
  }

  function MsgItems(msg: string): seq<string>
    requires |msg| < TWO_64
  {
    [Header(RDMA_MSG, "", |msg|), msg + [NUL]]
  }

  function DataItems(id: string, data: string): seq<string>
    requires |id| <= IB_MAX_DATA_ID_LENGTH && |data| < TWO_64
  {
    [Header(RDMA_DATA, id, |data|)] + Chunks(data) + [EndIndicator]
  }

  predicate Known(t: char)
  {
    t == RDMA_INIT || t == RDMA_DONE || t == RDMA_MSG || t == RDMA_DATA
  }

  // memcpy
  method CopyTo(a: array<char>, at: nat, s: string)
    requires at + |s| <= a.Length
    modifies a
    ensures a[..] == old(a[..at]) + s + old(a[at + |s|..])
  {
    for i := 0 to |s|
      invariant a[..] == old(a[..at]) + s[..i] + old(a[at + i..])
    {
      ghost var was := a[..];
      a[at + i] := s[i];
      assert a[..] == was[at + i := s[i]];
      assert s[..i + 1] == s[..i] + [s[i]];
    }
    assert s[..|s|] == s;
  }

  // What make_header writes before it returns lies within the memory of a header of
  // kind t; its loops do not check this.
  ghost predicate RoomFor(t: char, id: string, size: UInt64)
  {
    Known(t) && |id| <= IB_MAX_DATA_ID_LENGTH ==>
      IB_MAX_DATA_T_LENGTH + |IdField(id)| + (if Printable(size) then |SizeField(size)| + 1 else 0) <= HeaderSize(t)
  }

  lemma EnoughRoom(id: string, size: UInt64)
    ensures RoomFor(RDMA_DATA, id, size) && RoomFor(RDMA_MSG, "", size) && RoomFor(RDMA_INIT, "", 0)
  {
    hide SizeField, Padded;
  }

  class IbClient {
    // size_data_bq, the oldest first, and the registered buffer that is written from.
    var queue: seq<string>
    const buffer: array<char>

    constructor ()
      ensures queue == [] && buffer.Length == BUFFER_SIZE && fresh(buffer)
    {
      queue := [];
      buffer := new char[BUFFER_SIZE];
    }

    // Fails for an unknown kind, an id longer than its field, and a size that %d and
    // atoi do not bring back.
    method MakeHeader(t: char, id: string, size: UInt64) returns (err: int, header: array<char>)
      requires RoomFor(t, id, size)
      ensures err == if Known(t) && |id| <= IB_MAX_DATA_ID_LENGTH && Printable(size) then 0 else 1
      ensures err == if (t == 'I' || t == 'O' || t == 'M' || t == 'D') && |id| <= 20 &&
                        (size < 0x8000_0000 || 0xFFFF_FFFF_8000_0000 <= size) then 0 else 1
      ensures fresh(header)
      ensures err == 0 ==> header.Length == HeaderSize(t) && Header(t, id, size) <= header[..]
    {
      hide Printed, Decimal, Atoi, UpTo, ToInt;
      header := new char[HeaderSize(t)];
      if !Known(t) {
        return 1, header;
      }
      header[0] := t;
      var at := IB_MAX_DATA_T_LENGTH;
      ghost var written := [t];
      assert header[..at] == written;
      if |id| > 0 {
        if |id| > IB_MAX_DATA_ID_LENGTH {
          ThereAndBack(size);
          return 1, header;
        }
        var dataId := Padded(id, IB_MAX_DATA_ID_LENGTH);
        CopyTo(header, at, dataId);
        at := at + IB_MAX_DATA_ID_LENGTH;
        written := written + dataId;
        assert header[..at] == written;
      }
      ThereAndBack(size);
      if size > 0 {
        PrintedLength(ToInt(size));
        AtoiPrinted(ToInt(size));
        var dataSize := Printed(ToInt(size));
        if size != FromInt(Atoi(dataSize)) {
          return 1, header;
        }
        dataSize := Padded(dataSize, IB_MAX_DATA_SIZE_LENGTH);
        CopyTo(header, at, dataSize);
        at := at + IB_MAX_DATA_SIZE_LENGTH;
        written := written + dataSize;
        assert header[..at] == written;
      }
      header[at] := NUL;
      assert header[..at + 1] == written + [NUL];
      assert written + [NUL] == Header(t, id, size);
      return 0, header;
    }

    method SendInit() returns (err: int)
      modifies this`queue
      ensures err == 0 && queue == old(queue) + InitItems()
    {
      EnoughRoom("", 0);
      var header;
      err, header := MakeHeader(RDMA_INIT, "", 0);
      assert header[..] == Header(RDMA_INIT, "", 0);
      queue := queue + [header[..]];
    }

    method SendMsg(msg: string) returns (err: int, ghost first: string)
      requires |msg| < TWO_64
      modifies this`queue
      ensures err == if Printable(|msg|) then 0 else 1
      ensures queue == if err == 0 then old(queue) + [first, msg + [NUL]] else old(queue)
      ensures err == 0 ==> IsHeader(first, RDMA_MSG, "", |msg|)
      ensures err == 0 && msg != "" ==> queue == old(queue) + MsgItems(msg)
    {
      first := "";
      hide RoomFor;
      EnoughRoom("", |msg|);
      var header;
      err, header := MakeHeader(RDMA_MSG, "", |msg|);
      if err != 0 {
        return;
      }
      first := header[..];
      queue := queue + [header[..]];
      queue := queue + [msg + [NUL]];
      if msg != "" {
        HeaderFilled(first, RDMA_MSG, "", |msg|);
      }
    }

    // Queues the header, the data in chunks of the buffer's size, and the end.
    method SendData(id: string, data: array<char>) returns (err: int, ghost first: string)
      requires data.Length < TWO_64
      modifies this`queue
      ensures err == if |id| <= IB_MAX_DATA_ID_LENGTH && Printable(data.Length) then 0 else 1
      ensures queue == if err == 0 then old(queue) + ([first] + Chunks(data[..]) + [['E', 'O', 'F', '\0']]) else old(queue)
      ensures err == 0 ==> IsHeader(first, RDMA_DATA, id, data.Length)
      ensures err == 0 && id != "" && data.Length > 0 ==> queue == old(queue) + DataItems(id, data[..])
    {
      hide Header, Chunks, ProcHeader, RoomFor;
      EnoughRoom(id, data.Length);
      first := "";
      var header;
      err, header := MakeHeader(RDMA_DATA, id, data.Length);
      if err != 0 {
        return;
      }
      first := header[..];
      queue := queue + [header[..]];
      QueueChunks(data);
      queue := queue + [EndIndicator];
      if id != "" && data.Length > 0 {
        HeaderFilled(first, RDMA_DATA, id, data.Length);
      }
    }

    method QueueChunks(data: array<char>)
      modifies this`queue
      ensures queue == old(queue) + Chunks(data[..])
    {
      hide Chunks;
      var at, left: nat := 0, data.Length;
      assert data[at..] == data[..];
      while left != 0
        invariant at + left == data.Length
        invariant queue + Chunks(data[at..]) == old(queue) + Chunks(data[..])
      {
        var chunkSize := if left > BUFFER_SIZE then BUFFER_SIZE else left;
        ghost var rest, chunk := data[at..], data[at..at + chunkSize];
        FirstChunk(rest, chunkSize);
        assert rest[..chunkSize] == chunk && rest[chunkSize..] == data[at + chunkSize..];
        queue := queue + [data[at..at + chunkSize]];
        left := left - chunkSize;
        at := at + chunkSize;
      }
      NoChunks(data[at..]);
    }

    // Takes the oldest item; all but the end indicator is written from the buffer.
    method SendNext() returns (written: bool, size: nat)
      requires queue != [] && |queue[0]| <= BUFFER_SIZE == buffer.Length
      modifies this`queue, buffer
      ensures queue == old(queue)[1..] && written == (old(queue)[0] != ['E', 'O', 'F', '\0'])
      ensures written ==> size == |old(queue)[0]| && buffer[..] == Overwritten(old(buffer[..]), old(queue)[0])
      ensures !written ==> buffer[..] == old(buffer[..])
    {
      var item := queue[0];
      queue := queue[1..];
      if |item| == 4 && item[0] == 'E' && item[1] == 'O' && item[2] == 'F' && item[3] == NUL {
        assert item == EndIndicator;
        return false, 0;
      }
      CopyTo(buffer, 0, item);
      assert buffer[..] == Overwritten(old(buffer[..]), item);
      return true, |item|;
    }
  }

  lemma NoChunks(data: string)
    requires data == []
    ensures Chunks(data) == []
  {
  }

  lemma FirstChunk(data: string, size: nat)
    requires data != [] && size == (if |data| > BUFFER_SIZE then BUFFER_SIZE else |data|)
    ensures Chunks(data) == [data[..size]] + Chunks(data[size..])
  {
    if |data| <= BUFFER_SIZE {
      assert data[..size] == data && data[size..] == [];
    }
  }

  // Memory whose first bytes are replaced.
  function Overwritten(memory: string, bytes: string): (r: string)
    requires |bytes| <= |memory|
    ensures |r| == |memory| && r[..|bytes|] == bytes
  {
    bytes + memory[|bytes|..]
  }

  /* The server. */

  datatype Call = DataCall(id: string, data: string) | MsgCall(msg: string)

  // receiving is recv_state == DATA_RECV; stored is what of the data has arrived; done
  // is msg_->id == MSG_DONE; calls are those of the two callbacks.
  datatype Server = Server(receiving: bool, dataT: char, dataId: string, toRecv: UInt64, stored: string,
                           done: bool, calls: seq<Call>)

  datatype Reply = NoReply | ReadyToRecv | DoneReply

  // ret 1 ends the server's loop.
  datatype Outcome = Outcome(server: Server, reply: Reply, ret: int)

  const IdleServer := Server(false, RDMA_INIT, "", 0, "", false, [])

  // The server can make sense of what it finds in the buffer, and has the memory for it.
  predicate Readable(s: Server, size: nat, buffer: string)
  {
    size == 0 || s.done || s.receiving || (ProcHeader(buffer).Some? && ProcHeader(buffer).value.size < TWO_31)
  }

  function Completed(s: Server, size: nat, buffer: string): Outcome
    requires size <= |buffer| && Readable(s, size, buffer)
  {
    if size == 0 then Outcome(s.(done := true), DoneReply, 0)
    else if s.done then Outcome(s, DoneReply, 0)
    else if s.receiving && s.dataT == RDMA_MSG then
      Outcome(s.(receiving := false, calls := s.calls + [MsgCall(buffer[..size])]), ReadyToRecv, 0)
    else if s.receiving && s.dataT == RDMA_DATA then
      if |s.stored| + size > s.toRecv then Outcome(s, NoReply, 1)
      else
        var stored := s.stored + buffer[..size];
        if |stored| == s.toRecv then
          Outcome(s.(stored := stored, done := true, calls := s.calls + [DataCall(s.dataId, stored)]), DoneReply, 1)
        else Outcome(s.(stored := stored), ReadyToRecv, 0)
    else if s.receiving then Outcome(s, ReadyToRecv, 0)
    else Outcome(Announced(s, ProcHeader(buffer).value), ReadyToRecv, 0)
  }

  // proc_header on the server's fields.
  function Announced(s: Server, p: Parsed): Server
  {
    if p.t == RDMA_DATA then s.(receiving := true, dataT := p.t, dataId := p.id, toRecv := p.size, stored := "")
    else if p.t == RDMA_MSG then s.(receiving := true, dataT := p.t, toRecv := p.size, stored := "")
    else s.(dataT := p.t)
  }

  class IbServer {
    // The buffer the client writes to.
    const buffer: array<char>

    var receiving: bool
    var dataT: char
    var dataId: string
    var toRecv: UInt64
    var recved: nat
    var data: array<char>
    var done: bool
    ghost var calls: seq<Call>

    ghost predicate Valid()
      reads this
    {
      recved <= data.Length == toRecv && data != buffer
    }

    ghost function Abs(): Server
      requires Valid()
      reads this, data
    {
      Server(receiving, dataT, dataId, toRecv, data[..recved], done, calls)
    }

    constructor ()
      ensures Valid() && Abs() == IdleServer && fresh(buffer) && fresh(data) && buffer.Length == BUFFER_SIZE
    {
      buffer := new char[BUFFER_SIZE];
      receiving, dataT, dataId, toRecv, recved, done, calls := false, RDMA_INIT, "", 0, 0, false, [];
      data := new char[0];
    }

    // A write of size bytes has arrived in the buffer.
    method OnCompletion(size: nat) returns (reply: Reply, ret: int)
      requires Valid() && size <= buffer.Length && Readable(Abs(), size, buffer[..])
      modifies this`receiving, this`dataT, this`dataId, this`toRecv, this`recved, this`data, this`done, this`calls, data
      ensures Valid() && (data == old(data) || fresh(data))
      ensures Outcome(Abs(), reply, ret) == Completed(old(Abs()), size, old(buffer[..]))
      ensures size == 0 ==> done && Abs() == old(Abs()).(done := true) && reply == DoneReply && ret == 0
      ensures 0 < size && old(done) ==> Abs() == old(Abs()) && reply == DoneReply && ret == 0
      ensures 0 < size && !old(done) && old(receiving) && old(dataT) == 'M' ==>
        && Abs() == old(Abs()).(receiving := false, calls := old(calls) + [MsgCall(buffer[..size])])
        && reply == ReadyToRecv && ret == 0
      ensures 0 < size && !old(done) && old(receiving) && old(dataT) == 'D' ==>
        var stored := old(data[..recved]) + buffer[..size];
        if |stored| > old(toRecv) then Abs() == old(Abs()) && reply == NoReply && ret == 1
        else if |stored| < old(toRecv) then
          Abs() == old(Abs()).(stored := stored) && reply == ReadyToRecv && ret == 0
        else
          Abs() == old(Abs()).(stored := stored, done := true, calls := old(calls) + [DataCall(old(dataId), stored)]) &&
          reply == DoneReply && ret == 1
      ensures 0 < size && !old(done) && !old(receiving) ==>
        && reply == ReadyToRecv && ret == 0 && dataT == buffer[0] && calls == old(calls) && !done
        && receiving == (buffer[0] == 'M' || buffer[0] == 'D') && (receiving ==> recved == 0)
    {
      if size == 0 {
        done := true;
        return DoneReply, 0;
      }
      if done {
        return DoneReply, 0;
      }
      if receiving {
        if dataT == RDMA_MSG {
          calls := calls + [MsgCall(buffer[..size])];
          receiving := false;
        } else if dataT == RDMA_DATA {
          if recved + size > toRecv {
            return NoReply, 1;
          }
          CopyTo(data, recved, buffer[..size]);
          assert data[..recved + size] == old(data[..recved]) + buffer[..size];
          recved := recved + size;
          if recved == toRecv {
            calls := calls + [DataCall(dataId, data[..recved])];
            done := true;
            return DoneReply, 1;
          }
        }
      } else {
        AnnounceHeader();
      }
      return ReadyToRecv, 0;
    }

    method AnnounceHeader()
      requires Valid() && ProcHeader(buffer[..]).Some?
      modifies this`receiving, this`dataT, this`dataId, this`toRecv, this`recved, this`data
      ensures Valid() && (data == old(data) || fresh(data))
      ensures Abs() == Announced(old(Abs()), ProcHeader(buffer[..]).value)
    {
      hide ProcHeader;
      var p := ProcHeader(buffer[..]).value;
      dataT := p.t;
      if p.t == RDMA_DATA {
        dataId := p.id;
      }
      if p.t == RDMA_MSG || p.t == RDMA_DATA {
        recved, toRecv := 0, p.size;
        data := new char[p.size];
        receiving := true;
      }
    }
  }
}
