/** The RDMA transfer as a system of steps: the application queues items while the
    client writes them and the server handles them, one write for each message that
    says the server is ready. */
module IbTransfer {
  import opened Basics
  import opened IbHeader
  import opened IbEnds

  // What the application sends: messages, then one piece of data.
  datatype Job = Job(msgs: seq<string>, id: string, data: string)
  {
    // The preconditions of the transfer; those on the id are what it takes for a header
    // to be read back.
    ghost predicate Ok()
    {
      && (forall i :: 0 <= i < |msgs| ==> 0 < |msgs[i]| < BUFFER_SIZE)
      && 0 < |data| < TWO_31 && 0 < |id| < IB_MAX_DATA_ID_LENGTH && HEADER_DELIMITER !in id && NUL !in id
    }
  }

  // plan: what is still to be queued; senders: threads that will send the next item;
  // clientBuffer and wire: the writes posted, which are read from the buffer as they
  // go; serverBuffer and arrived: the writes that arrived and were not handled; ready:
  // messages on their way to the client.
  datatype System = System(plan: seq<string>, queue: seq<string>, senders: nat,
                           clientBuffer: string, wire: seq<nat>,
                           serverBuffer: string, arrived: seq<nat>, server: Server, ended: bool, ready: nat)

  ghost predicate Push(s: System, t: System)
  {
    s.plan != [] && t == s.(plan := s.plan[1..], queue := s.queue + [s.plan[0]])
  }

  // A thread in send_next.
  ghost predicate Send(s: System, t: System)
  {
    && s.senders > 0 && s.queue != [] && |s.queue[0]| <= |s.clientBuffer|
    && t == if s.queue[0] == EndIndicator then s.(queue := s.queue[1..], senders := s.senders - 1)
            else s.(queue := s.queue[1..], senders := s.senders - 1,
                    clientBuffer := Overwritten(s.clientBuffer, s.queue[0]), wire := s.wire + [|s.queue[0]|])
  }

  // The network carries out the oldest write.
  ghost predicate Arrive(s: System, t: System)
  {
    && s.wire != [] && s.wire[0] <= |s.clientBuffer| && s.wire[0] <= |s.serverBuffer|
    && t == s.(wire := s.wire[1..], arrived := s.arrived + [s.wire[0]],
               serverBuffer := Overwritten(s.serverBuffer, s.clientBuffer[..s.wire[0]]))
  }

  // The server's loop handles the oldest arrival.
  ghost predicate Handle(s: System, t: System)
  {
    && !s.ended && s.arrived != [] && s.arrived[0] <= |s.serverBuffer| && Readable(s.server, s.arrived[0], s.serverBuffer)
    && var o := Completed(s.server, s.arrived[0], s.serverBuffer);
       t == s.(arrived := s.arrived[1..], server := o.server, ended := o.ret != 0,
               ready := s.ready + if o.reply == ReadyToRecv then 1 else 0)
  }

  // The client's loop receives that the server is ready, and starts a thread.
  ghost predicate Ready(s: System, t: System)
  {
    s.ready > 0 && t == s.(ready := s.ready - 1, senders := s.senders + 1)
  }

  ghost predicate Step(s: System, t: System)
  {
    Push(s, t) || Send(s, t) || Arrive(s, t) || Handle(s, t) || Ready(s, t)
  }

  // After the connection is up: one thread is waiting to send.
  ghost predicate Initial(s: System, job: Job)
    requires job.Ok()
  {
    && s.plan == Items(job) && s.queue == [] && s.senders == 1 && s.wire == [] && s.arrived == []
    && s.server == IdleServer && !s.ended && s.ready == 0
    && |s.clientBuffer| == |s.serverBuffer| == BUFFER_SIZE
  }

  ghost predicate Run(states: seq<System>, job: Job)
    requires job.Ok()
  {
    && states != [] && Initial(states[0], job)
    && forall i :: 0 <= i < |states| - 1 ==> Step(states[i], states[i + 1])
  }

  function Messages(msgs: seq<string>): seq<string>
    requires forall i :: 0 <= i < |msgs| ==> |msgs[i]| < TWO_64
  {
    if msgs == [] then [] else MsgItems(msgs[0]) + Messages(msgs[1..])
  }

  function Items(job: Job): seq<string>
    requires job.Ok()
  {
    InitItems() + Messages(job.msgs) + DataItems(job.id, job.data)
  }

  /* How far the server has come, and what is still to be handled. */

  datatype Phase = Starting | Between(m: nat) | InMsg(m: nat) | InData(r: nat) | Finished

  ghost predicate PhaseOk(ph: Phase, job: Job)
  {
    match ph
    case Between(m) => m <= |job.msgs|
    case InMsg(m) => m < |job.msgs|
    case InData(r) => r < |job.data|
    case _ => true
  }

  function MsgCalls(msgs: seq<string>): (calls: seq<Call>)
  {
    if msgs == [] then [] else MsgCalls(msgs[..|msgs| - 1]) + [MsgCall(msgs[|msgs| - 1] + [NUL])]
  }

  ghost function Rest(ph: Phase, job: Job): seq<string>
    requires job.Ok() && PhaseOk(ph, job)
  {
    match ph
    case Starting => Items(job)
    case Between(m) => Messages(job.msgs[m..]) + DataItems(job.id, job.data)
    case InMsg(m) => [job.msgs[m] + [NUL]] + Messages(job.msgs[m + 1..]) + DataItems(job.id, job.data)
    case InData(r) => Chunks(job.data[r..]) + [EndIndicator]
    case Finished => [EndIndicator]
  }

  ghost predicate ServerAt(s: Server, ph: Phase, job: Job)
    requires job.Ok() && PhaseOk(ph, job)
  {
    match ph
    case Starting => s == IdleServer
    case Between(m) => !s.receiving && !s.done && s.calls == MsgCalls(job.msgs[..m])
    case InMsg(m) => s.receiving && s.dataT == RDMA_MSG && !s.done && s.calls == MsgCalls(job.msgs[..m])
    case InData(r) =>
      s.receiving && s.dataT == RDMA_DATA && !s.done && s.calls == MsgCalls(job.msgs) &&
      s.dataId == job.id && s.toRecv == |job.data| && s.stored == job.data[..r]
    case Finished => s.done && s.calls == MsgCalls(job.msgs) + [DataCall(job.id, job.data)]
  }

  function Next(ph: Phase, job: Job): Phase
  {
    match ph
    case Starting => Between(0)
    case Between(m) => if m < |job.msgs| then InMsg(m) else InData(0)
    case InMsg(m) => Between(m + 1)
    case InData(r) => if r + BUFFER_SIZE < |job.data| then InData(r + BUFFER_SIZE) else Finished
    case Finished => Finished
  }

  lemma RestNonEmpty(ph: Phase, job: Job)
    requires job.Ok() && PhaseOk(ph, job)
    ensures Rest(ph, job) != []
  {
    hide Chunks, Header, Messages;
  }

  // The next phase has one item less to handle.
  lemma RestStep(ph: Phase, job: Job)
    requires job.Ok() && PhaseOk(ph, job) && ph != Finished
    ensures PhaseOk(Next(ph, job), job) && Rest(ph, job) != [] && Rest(ph, job)[1..] == Rest(Next(ph, job), job)
  {
    hide Header;
    match ph
    case Starting =>
      assert job.msgs[0..] == job.msgs;
    case Between(m) =>
      if m < |job.msgs| {
        assert job.msgs[m..][1..] == job.msgs[m + 1..];
      } else {
        assert job.data[0..] == job.data;
      }
    case InMsg(m) =>
    case InData(r) =>
      var rest := job.data[r..];
      if |rest| > BUFFER_SIZE {
        assert rest[BUFFER_SIZE..] == job.data[r + BUFFER_SIZE..];
      }
  }

  lemma MsgCallsStep(msgs: seq<string>, m: nat)
    requires m < |msgs|
    ensures MsgCalls(msgs[..m + 1]) == MsgCalls(msgs[..m]) + [MsgCall(msgs[m] + [NUL])]
  {
    assert msgs[..m + 1][..m] == msgs[..m];
  }

  ghost predicate GoodOutcome(o: Outcome, ph: Phase, job: Job)
    requires job.Ok() && PhaseOk(ph, job)
  {
    && ServerAt(o.server, ph, job)
    && if ph == Finished then o.reply == DoneReply && o.ret == 1 else o.reply == ReadyToRecv && o.ret == 0
  }

  // The server handles the next item as its phase expects, from a buffer that starts
  // with it.
  lemma {:induction false} Handled(s: Server, ph: Phase, job: Job, buffer: string, n: nat)
    requires job.Ok() && PhaseOk(ph, job) && ph != Finished && ServerAt(s, ph, job)
    requires n <= |buffer| && Rest(ph, job) != [] && buffer[..n] == Rest(ph, job)[0]
    ensures 0 < n && Readable(s, n, buffer) && PhaseOk(Next(ph, job), job)
    ensures GoodOutcome(Completed(s, n, buffer), Next(ph, job), job)
  {
    RestStep(ph, job);
    match ph
    case Starting => HandledInit(s, job, buffer, n);
    case Between(m) => HandledHeader(s, m, job, buffer, n);
    case InMsg(m) =>
      hide Messages, Chunks, Header;
      MsgCallsStep(job.msgs, m);
    case InData(r) => HandledData(s, r, job, buffer, n);
  }

  lemma ReadsHeader(buffer: string, n: nat)
    requires n <= |buffer| && ProcHeader(buffer[..n]).Some?
    ensures ProcHeader(buffer) == ProcHeader(buffer[..n])
  {
    ProcMore(buffer[..n], buffer[n..]);
    assert buffer[..n] + buffer[n..] == buffer;
  }

  lemma HandledInit(s: Server, job: Job, buffer: string, n: nat)
    requires job.Ok() && ServerAt(s, Starting, job)
    requires n <= |buffer| && buffer[..n] == Header(RDMA_INIT, "", 0)
    ensures 0 < n && Readable(s, n, buffer) && GoodOutcome(Completed(s, n, buffer), Between(0), job)
  {
    ReadsHeader(buffer, n);
  }

  lemma HandledHeader(s: Server, m: nat, job: Job, buffer: string, n: nat)
    requires job.Ok() && m <= |job.msgs| && ServerAt(s, Between(m), job)
    requires n <= |buffer| && Rest(Between(m), job) != [] && buffer[..n] == Rest(Between(m), job)[0]
    ensures 0 < n && Readable(s, n, buffer) && PhaseOk(Next(Between(m), job), job)
    ensures GoodOutcome(Completed(s, n, buffer), Next(Between(m), job), job)
  {
    hide Header, ProcHeader, Chunks;
    if m < |job.msgs| {
      assert job.msgs[m..][0] == job.msgs[m];
      MsgRoundTrip(|job.msgs[m]|);
    } else {
      assert job.msgs[m..] == [] && job.msgs[..m] == job.msgs && job.data[..0] == "";
      DataRoundTrip(job.id, |job.data|);
    }
    ReadsHeader(buffer, n);
  }

  lemma HandledData(s: Server, r: nat, job: Job, buffer: string, n: nat)
    requires job.Ok() && r < |job.data| && ServerAt(s, InData(r), job)
    requires n <= |buffer| && Rest(InData(r), job) != [] && buffer[..n] == Rest(InData(r), job)[0]
    ensures 0 < n && Readable(s, n, buffer) && PhaseOk(Next(InData(r), job), job)
    ensures GoodOutcome(Completed(s, n, buffer), Next(InData(r), job), job)
  {
    hide Messages, Header, ProcHeader;
    var rest := job.data[r..];
    FirstChunk(rest, if |rest| > BUFFER_SIZE then BUFFER_SIZE else |rest|);
    assert buffer[..n] == job.data[r..r + n];
    assert job.data[..r] + job.data[r..r + n] == job.data[..r + n];
    if r + n == |job.data| {
      assert job.data[..r + n] == job.data;
    }
  }

  lemma RestFits(ph: Phase, job: Job)
    requires job.Ok() && PhaseOk(ph, job) && ph != Finished
    ensures Rest(ph, job) != [] && 0 < |Rest(ph, job)[0]| <= BUFFER_SIZE
  {
    hide Messages, Header, ProcHeader, Chunks;
    RestNonEmpty(ph, job);
    match ph
    case Starting => assert |Header(RDMA_INIT, "", 0)| == 2 by { InitSize(); }
    case Between(m) =>
      if m < |job.msgs| {
        MessagesFirst(job.msgs[m..]);
        MsgRoundTrip(|job.msgs[m]|);
      } else {
        MessagesNone(job.msgs[m..]);
        DataRoundTrip(job.id, |job.data|);
      }
    case InMsg(m) =>
    case InData(r) =>
      ChunksSpell(job.data[r..]);
  }

  lemma InitSize()
    ensures |Header(RDMA_INIT, "", 0)| == 2
  {
  }

  lemma MessagesFirst(msgs: seq<string>)
    requires msgs != [] && forall i :: 0 <= i < |msgs| ==> |msgs[i]| < TWO_64
    ensures |Messages(msgs)| >= 2 && Messages(msgs)[0] == Header(RDMA_MSG, "", |msgs[0]|)
  {
  }

  lemma MessagesNone(msgs: seq<string>)
    requires msgs == []
    ensures Messages(msgs) == []
  {
  }

  /* The invariant. */

  // Threads about to send, writes on the wire, arrivals not handled and messages that
  // the server is ready.
  function Credits(s: System): nat
  {
    s.senders + |s.wire| + |s.arrived| + s.ready
  }

  // The item on its way, as it lies in the buffer it is in.
  ghost predicate InFlight(s: System, items: seq<string>)
  {
    if s.arrived != [] then s.arrived[0] <= |s.serverBuffer| && items == [s.serverBuffer[..s.arrived[0]]]
    else if s.wire != [] then s.wire[0] <= |s.clientBuffer| && items == [s.clientBuffer[..s.wire[0]]]
    else items == []
  }

  ghost predicate Buffers(s: System)
  {
    |s.clientBuffer| == |s.serverBuffer| == BUFFER_SIZE
  }

  // One credit; the server is at phase ph, and what it has not handled is in flight, in
  // the queue or in the plan. before is what it handled.
  ghost predicate Live(s: System, job: Job, ph: Phase, before: seq<string>, flight: seq<string>)
    requires job.Ok()
  {
    && Buffers(s) && Credits(s) == 1 && !s.ended && PhaseOk(ph, job) && ph != Finished && ServerAt(s.server, ph, job)
    && InFlight(s, flight) && Rest(ph, job) == flight + s.queue + s.plan
    && Items(job) == before + Rest(ph, job) && EndIndicator !in before && EndIndicator !in flight
  }

  // The data was handed over; nothing but the end indicator is left.
  ghost predicate Delivered(s: System, job: Job, before: seq<string>)
    requires job.Ok()
  {
    && Buffers(s) && Credits(s) == 0 && s.ended && ServerAt(s.server, Finished, job)
    && s.queue + s.plan == [EndIndicator] && Items(job) == before + [EndIndicator] && EndIndicator !in before
  }

  // An item was taken for the end indicator, and with it the only credit went.
  ghost predicate Stuck(s: System, job: Job, ph: Phase, before: seq<string>)
    requires job.Ok()
  {
    && Buffers(s) && Credits(s) == 0 && !s.ended && PhaseOk(ph, job) && ph != Finished && ServerAt(s.server, ph, job)
    && Rest(ph, job) == [EndIndicator] + s.queue + s.plan && Items(job) == before + Rest(ph, job)
  }

  ghost predicate Inv(s: System, job: Job)
    requires job.Ok()
  {
    || (exists ph, before, flight :: Live(s, job, ph, before, flight))
    || (exists before :: Delivered(s, job, before))
    || (exists ph, before :: Stuck(s, job, ph, before))
  }

  lemma InitialInv(s: System, job: Job)
    requires job.Ok() && Initial(s, job)
    ensures Inv(s, job)
  {
    hide Items;
    assert Live(s, job, Starting, [], []) by {
      assert Rest(Starting, job) == [] + s.queue + s.plan;
    }
  }

  lemma LiveStep(s: System, t: System, job: Job, ph: Phase, before: seq<string>, flight: seq<string>)
    requires job.Ok() && Live(s, job, ph, before, flight) && Step(s, t)
    ensures Inv(t, job)
  {
    hide Items, Rest, ServerAt, Completed, Readable, Overwritten, PhaseOk;
    if Push(s, t) {
      assert s.queue + s.plan == t.queue + t.plan;
      assert Live(t, job, ph, before, flight);
    } else if Send(s, t) {
      SendStep(s, t, job, ph, before, flight);
    } else if Arrive(s, t) {
      ArriveStep(s, t, job, ph, before, flight);
    } else if Handle(s, t) {
      HandleStep(s, t, job, ph, before, flight);
    } else {
      assert Live(t, job, ph, before, flight);
    }
  }

  lemma SendStep(s: System, t: System, job: Job, ph: Phase, before: seq<string>, flight: seq<string>)
    requires job.Ok() && Live(s, job, ph, before, flight) && Send(s, t)
    ensures Inv(t, job)
  {
    hide Items, Rest, ServerAt, Overwritten, PhaseOk;
    var item := s.queue[0];
    assert flight + s.queue + s.plan == [item] + t.queue + t.plan;
    if item == EndIndicator {
      assert Stuck(t, job, ph, before);
    } else {
      assert Overwritten(s.clientBuffer, item)[..|item|] == item;
      assert Live(t, job, ph, before, [item]);
    }
  }

  lemma ArriveStep(s: System, t: System, job: Job, ph: Phase, before: seq<string>, flight: seq<string>)
    requires job.Ok() && Live(s, job, ph, before, flight) && Arrive(s, t)
    ensures Inv(t, job)
  {
    hide Items, Rest, ServerAt, Overwritten, PhaseOk;
    assert Live(t, job, ph, before, flight);
  }

  lemma HandleStep(s: System, t: System, job: Job, ph: Phase, before: seq<string>, flight: seq<string>)
    requires job.Ok() && Live(s, job, ph, before, flight) && Handle(s, t)
    ensures Inv(t, job)
  {
    hide Items, Rest, ServerAt, Completed, Readable, Next, PhaseOk;
    var n, next := s.arrived[0], Next(ph, job);
    assert Rest(ph, job)[0] == flight[0];
    Handled(s.server, ph, job, s.serverBuffer, n);
    RestStep(ph, job);
    assert (flight + s.queue + s.plan)[1..] == [] + s.queue + s.plan;
    var handled := before + flight;
    assert before + Rest(ph, job) == handled + Rest(next, job);
    assert EndIndicator !in handled;
    if next == Finished {
      RestFinished(job);
      assert Delivered(t, job, handled);
    } else {
      assert Live(t, job, next, handled, []);
    }
  }

  lemma RestFinished(job: Job)
    requires job.Ok()
    ensures PhaseOk(Finished, job) && Rest(Finished, job) == [EndIndicator]
  {
  }

  lemma InvStep(s: System, t: System, job: Job)
    requires job.Ok() && Inv(s, job) && Step(s, t)
    ensures Inv(t, job)
  {
    hide Items, Rest, ServerAt, Completed, Readable, Overwritten, PhaseOk;
    if ph, before, flight :| Live(s, job, ph, before, flight) {
      LiveStep(s, t, job, ph, before, flight);
    } else {
      assert Push(s, t) && s.queue + s.plan == t.queue + t.plan;
      if before :| Delivered(s, job, before) {
        assert Delivered(t, job, before);
      } else {
        var ph, before :| Stuck(s, job, ph, before);
        assert [EndIndicator] + s.queue + s.plan == [EndIndicator] + t.queue + t.plan;
        assert Stuck(t, job, ph, before);
      }
    }
  }

  lemma {:induction false} Reachable(states: seq<System>, job: Job)
    requires job.Ok() && Run(states, job)
    ensures states != [] && Inv(states[|states| - 1], job)
    decreases |states|
  {
    hide Inv, Step;
    var m := |states| - 1;
    if m == 0 {
      InitialInv(states[0], job);
    } else {
      var before := states[..m];
      assert Run(before, job) by {
        forall i | 0 <= i < |before| - 1 ensures Step(before[i], before[i + 1]) {
          assert Step(states[i], states[i + 1]);
        }
      }
      Reachable(before, job);
      assert Step(states[m - 1], states[m]);
      InvStep(states[m - 1], states[m], job);
    }
  }

  /* What holds in every state of every run. */

  // At most one write is under way, from the credit that allows it until it is
  // handled: when the client fills its buffer, no write is being read from it, and
  // none is waiting in the server's.
  lemma {:induction false} OneOutstanding(states: seq<System>, job: Job)
    requires job.Ok() && Run(states, job)
    ensures
      var s := states[|states| - 1];
      Credits(s) <= 1 && (s.senders > 0 ==> s.wire == [] && s.arrived == [])
  {
    hide Items, Rest, ServerAt, PhaseOk;
    Reachable(states, job);
    var s := states[|states| - 1];
    assert Credits(s) <= 1;
    assert s.senders > 0 ==> |s.wire| == 0 && |s.arrived| == 0;
  }

  // What is sent next fits the buffers, and what arrived is what was sent: the server
  // can read it and has room for it.
  lemma {:induction false} NothingAstray(states: seq<System>, job: Job)
    requires job.Ok() && Run(states, job)
    ensures
      var s := states[|states| - 1];
      && (s.senders > 0 && s.queue != [] ==> |s.queue[0]| <= |s.clientBuffer|)
      && (s.wire != [] ==> s.wire[0] <= |s.clientBuffer| == |s.serverBuffer|)
      && (s.arrived != [] ==>
            && !s.ended && s.arrived[0] <= |s.serverBuffer| && Readable(s.server, s.arrived[0], s.serverBuffer)
            && Completed(s.server, s.arrived[0], s.serverBuffer).reply != NoReply)
  {
    hide Items, Rest, ServerAt, Completed, Readable, PhaseOk;
    Reachable(states, job);
    var s := states[|states| - 1];
    if ph, before, flight :| Live(s, job, ph, before, flight) {
      RestFits(ph, job);
      if s.arrived != [] {
        assert Rest(ph, job)[0] == flight[0];
        Handled(s.server, ph, job, s.serverBuffer, s.arrived[0]);
      } else if s.wire != [] {
      } else if s.senders > 0 && s.queue != [] {
        assert Rest(ph, job)[0] == s.queue[0];
      }
    }
  }

  function Expected(job: Job): seq<Call>
  {
    MsgCalls(job.msgs) + [DataCall(job.id, job.data)]
  }

  lemma {:induction false} MsgCallsPrefix(msgs: seq<string>, m: nat)
    requires m <= |msgs|
    ensures MsgCalls(msgs[..m]) <= MsgCalls(msgs)
    decreases |msgs| - m
  {
    if m == |msgs| {
      assert msgs[..m] == msgs;
    } else {
      MsgCallsStep(msgs, m);
      MsgCallsPrefix(msgs, m + 1);
    }
  }

  // The callbacks so far are the first of those expected: each message in turn, then
  // the data once, with its id and exactly its bytes; never more arrived than announced.
  lemma {:induction false} ExactCallbacks(states: seq<System>, job: Job)
    requires job.Ok() && Run(states, job)
    ensures
      var s := states[|states| - 1].server;
      s.calls <= Expected(job) && (s.receiving && s.dataT == RDMA_DATA && !s.done ==> |s.stored| < s.toRecv)
  {
    hide Items, Rest;
    Reachable(states, job);
    var s := states[|states| - 1];
    if ph, before, flight :| Live(s, job, ph, before, flight) {
      CallsAt(s.server, ph, job);
    } else if ph, before :| Stuck(s, job, ph, before) {
      CallsAt(s.server, ph, job);
    }
  }

  lemma CallsAt(s: Server, ph: Phase, job: Job)
    requires job.Ok() && PhaseOk(ph, job) && ServerAt(s, ph, job) && ph != Finished
    ensures s.calls <= MsgCalls(job.msgs)
    ensures s.receiving && s.dataT == RDMA_DATA && !s.done ==> |s.stored| < s.toRecv
  {
    match ph
    case Between(m) => MsgCallsPrefix(job.msgs, m);
    case InMsg(m) => MsgCallsPrefix(job.msgs, m);
    case _ =>
  }

  /* Runs end, and how. */

  function Left(s: System): nat
  {
    6 * |s.plan| + 5 * |s.queue| + 3 * |s.wire| + 2 * |s.arrived| + s.ready
  }

  // Every step uses something up, so no run has more steps than Left of its first state.
  lemma StepsRunOut(s: System, t: System)
    requires Step(s, t)
    ensures Left(t) < Left(s)
  {
    hide Completed, Readable, Overwritten;
  }

  lemma {:induction false} RunsEnd(states: seq<System>, job: Job)
    requires job.Ok() && Run(states, job)
    ensures |states| - 1 + Left(states[|states| - 1]) <= Left(states[0])
    decreases |states|
  {
    hide Step, Initial, Left;
    var m := |states| - 1;
    if m > 0 {
      assert Step(states[m - 1], states[m]);
      assert Run(states[..m], job) by {
        forall i | 0 <= i < m - 1 ensures Step(states[..m][i], states[..m][i + 1]) {
          assert Step(states[i], states[i + 1]);
        }
      }
      RunsEnd(states[..m], job);
      StepsRunOut(states[m - 1], states[m]);
    }
  }

  ghost predicate Quiet(s: System)
  {
    forall t :: !Step(s, t)
  }

  // No item but the last looks like the end indicator: no message is EOF, and the data
  // does not end in the four bytes of the end indicator with these being a chunk of
  // their own.
  ghost predicate Intact(job: Job)
  {
    && "EOF" !in job.msgs
    && !(|job.data| % BUFFER_SIZE == 4 && job.data[|job.data| - 4..] == EndIndicator)
  }

  // A credit that is not lost can always be used.
  lemma LiveMoves(s: System, job: Job, ph: Phase, before: seq<string>, flight: seq<string>)
    requires job.Ok() && Live(s, job, ph, before, flight)
    ensures exists t :: Step(s, t)
  {
    hide Items, Rest, ServerAt, Completed, Readable, Overwritten, PhaseOk, Chunks;
    RestFits(ph, job);
    if s.arrived != [] {
      assert Rest(ph, job)[0] == flight[0];
      Handled(s.server, ph, job, s.serverBuffer, s.arrived[0]);
      var o := Completed(s.server, s.arrived[0], s.serverBuffer);
      var t := s.(arrived := s.arrived[1..], server := o.server, ended := o.ret != 0,
                  ready := s.ready + if o.reply == ReadyToRecv then 1 else 0);
      assert Handle(s, t) && Step(s, t);
    } else if s.wire != [] {
      var t := s.(wire := s.wire[1..], arrived := s.arrived + [s.wire[0]],
                  serverBuffer := Overwritten(s.serverBuffer, s.clientBuffer[..s.wire[0]]));
      assert Arrive(s, t) && Step(s, t);
    } else if s.ready > 0 {
      var t := s.(ready := s.ready - 1, senders := s.senders + 1);
      assert Ready(s, t) && Step(s, t);
    } else if s.queue != [] {
      assert Rest(ph, job)[0] == s.queue[0];
      var t := if s.queue[0] == EndIndicator then s.(queue := s.queue[1..], senders := s.senders - 1)
               else s.(queue := s.queue[1..], senders := s.senders - 1,
                       clientBuffer := Overwritten(s.clientBuffer, s.queue[0]), wire := s.wire + [|s.queue[0]|]);
      assert Send(s, t) && Step(s, t);
    } else {
      var t := s.(plan := s.plan[1..], queue := s.queue + [s.plan[0]]);
      assert Push(s, t) && Step(s, t);
    }
  }

  // Wherever an item other than the last looks like the end indicator, the job is not
  // intact, and the other way round.
  lemma {:induction false} EndOnlyLast(job: Job)
    requires job.Ok()
    ensures Intact(job) <==> EndIndicator !in Items(job)[..|Items(job)| - 1]
  {
    hide Messages, Chunks, Header;
    var inits, msgs, chunks := InitItems(), Messages(job.msgs), Chunks(job.data);
    var header := [Header(RDMA_DATA, job.id, |job.data|)];
    assert Items(job) == inits + msgs + (header + chunks + [EndIndicator]);
    assert Items(job)[..|Items(job)| - 1] == inits + msgs + header + chunks;
    HeadersDiffer(job);
    EndInMessages(job.msgs);
    EndInChunks(job.data);
  }

  lemma HeadersDiffer(job: Job)
    requires job.Ok()
    ensures EndIndicator !in InitItems() && Header(RDMA_DATA, job.id, |job.data|) != EndIndicator
    ensures forall n: UInt64 :: Header(RDMA_MSG, "", n) != EndIndicator
  {
    forall n: UInt64 ensures Header(RDMA_MSG, "", n) != EndIndicator {
      assert Header(RDMA_MSG, "", n)[0] == RDMA_MSG;
    }
    assert Header(RDMA_DATA, job.id, |job.data|)[0] == RDMA_DATA;
    assert Header(RDMA_INIT, "", 0)[0] == RDMA_INIT;
  }

  lemma {:induction false} EndInMessages(msgs: seq<string>)
    requires forall i :: 0 <= i < |msgs| ==> |msgs[i]| < TWO_64
    requires forall n: UInt64 :: Header(RDMA_MSG, "", n) != EndIndicator
    ensures EndIndicator in Messages(msgs) <==> "EOF" in msgs
  {
    hide Header;
    if msgs != [] {
      EndInMessages(msgs[1..]);
      EndMessage(msgs[0]);
      assert msgs == [msgs[0]] + msgs[1..];
      assert EndIndicator in MsgItems(msgs[0]) <==> msgs[0] == "EOF";
    }
  }

  lemma EndMessage(msg: string)
    ensures msg + [NUL] == EndIndicator <==> msg == "EOF"
  {
    if msg + [NUL] == EndIndicator {
      assert msg == (msg + [NUL])[..3] == "EOF";
    }
  }

  lemma {:induction false} EndInChunks(data: string)
    requires data != []
    ensures EndIndicator in Chunks(data) <==> |data| % BUFFER_SIZE == 4 && data[|data| - 4..] == EndIndicator
    decreases |data|
  {
    if |data| <= BUFFER_SIZE {
      assert |data| == 4 ==> data[0..] == data;
    } else {
      var first, rest := data[..BUFFER_SIZE], data[BUFFER_SIZE..];
      EndInChunks(rest);
      assert |data| == |rest| + BUFFER_SIZE && |data| % BUFFER_SIZE == |rest| % BUFFER_SIZE;
      assert |first| != |EndIndicator|;
      assert |rest| >= 4 ==> data[|data| - 4..] == rest[|rest| - 4..];
      assert |rest| < 4 ==> |rest| % BUFFER_SIZE == |rest|;
    }
  }

  // When nothing can move any more, everything was delivered, or something was taken
  // for the end; which of the two, the job decides.
  lemma {:induction false} DeliveredIffIntact(states: seq<System>, job: Job)
    requires job.Ok() && Run(states, job) && Quiet(states[|states| - 1])
    ensures states[|states| - 1].server.calls == Expected(job) <==> Intact(job)
  {
    hide Items, Run, Quiet, Live, Delivered, Stuck, Intact, Expected;
    Reachable(states, job);
    var s := states[|states| - 1];
    if ph, before, flight :| Live(s, job, ph, before, flight) {
      NotQuiet(s, job, ph, before, flight);
    } else if before :| Delivered(s, job, before) {
      DeliveredIntact(s, job, before);
    } else {
      var ph, before :| Stuck(s, job, ph, before);
      StuckNotIntact(s, job, ph, before);
    }
  }

  lemma NotQuiet(s: System, job: Job, ph: Phase, before: seq<string>, flight: seq<string>)
    requires job.Ok() && Live(s, job, ph, before, flight)
    ensures !Quiet(s)
  {
    hide Live, Step;
    LiveMoves(s, job, ph, before, flight);
  }

  lemma DeliveredIntact(s: System, job: Job, before: seq<string>)
    requires job.Ok() && Delivered(s, job, before)
    ensures s.server.calls == Expected(job) && Intact(job)
  {
    hide Items, Intact;
    EndOnlyLast(job);
    assert Items(job)[..|Items(job)| - 1] == before;
  }

  lemma StuckNotIntact(s: System, job: Job, ph: Phase, before: seq<string>)
    requires job.Ok() && Stuck(s, job, ph, before)
    ensures s.server.calls != Expected(job) && !Intact(job)
  {
    hide Items, Intact, Rest, ServerAt;
    EndOnlyLast(job);
    CallsAt(s.server, ph, job);
    assert |s.server.calls| < |Expected(job)|;
    LongRest(ph, job);
    assert Items(job)[..|Items(job)| - 1][|before|] == EndIndicator;
  }

  // Before the data is complete, more than the end indicator is to come.
  lemma LongRest(ph: Phase, job: Job)
    requires job.Ok() && PhaseOk(ph, job) && ph != Finished
    ensures |Rest(ph, job)| >= 2
  {
    hide Messages, Header;
  }

  // A job that is not intact is never delivered, however far a run gets.
  lemma {:induction false} NeverDelivered(states: seq<System>, job: Job)
    requires job.Ok() && Run(states, job) && !Intact(job)
    ensures states[|states| - 1].server.calls != Expected(job)
  {
    hide Items, Run, Live, Delivered, Stuck, Intact, Expected;
    Reachable(states, job);
    var s := states[|states| - 1];
    if ph, before, flight :| Live(s, job, ph, before, flight) {
      LiveShort(s, job, ph, before, flight);
    } else if before :| Delivered(s, job, before) {
      DeliveredIntact(s, job, before);
    } else {
      var ph, before :| Stuck(s, job, ph, before);
      StuckNotIntact(s, job, ph, before);
    }
  }

  lemma LiveShort(s: System, job: Job, ph: Phase, before: seq<string>, flight: seq<string>)
    requires job.Ok() && Live(s, job, ph, before, flight)
    ensures s.server.calls != Expected(job)
  {
    hide Items, Rest, ServerAt;
    CallsAt(s.server, ph, job);
    assert |s.server.calls| < |Expected(job)|;
  }

  // Every run goes on until nothing can move.
  lemma {:induction false} CarryOn(states: seq<System>, job: Job) returns (more: seq<System>)
    requires job.Ok() && Run(states, job)
    ensures Run(more, job) && states <= more && Quiet(more[|more| - 1])
    decreases Left(states[|states| - 1])
  {
    hide Step, Initial, Left;
    var last := states[|states| - 1];
    if t :| Step(last, t) {
      StepsRunOut(last, t);
      var longer := states + [t];
      forall i | 0 <= i < |longer| - 1 ensures Step(longer[i], longer[i + 1]) {
        assert i < |states| - 1 ==> Step(states[i], states[i + 1]);
      }
      more := CarryOn(longer, job);
    } else {
      more := states;
    }
  }

  lemma Start(job: Job) returns (states: seq<System>)
    requires job.Ok()
    ensures Run(states, job)
  {
    hide Items;
    var memory := seq(BUFFER_SIZE, _ => NUL);
    states := [System(Items(job), [], 1, memory, [], memory, [], IdleServer, false, 0)];
  }

  ghost predicate EndsShort(states: seq<System>, job: Job)
    requires job.Ok()
  {
    Run(states, job) && Quiet(states[|states| - 1]) && states[|states| - 1].server.calls != Expected(job)
  }

  // The message EOF stops the transfer, and so does data that is the four bytes of the
  // end indicator.
  lemma EndIndicatorLost()
    ensures
      var job := Job(["EOF"], "x", "d");
      job.Ok() && exists states :: EndsShort(states, job)
    ensures
      var job := Job([], "x", EndIndicator);
      job.Ok() && exists states :: EndsShort(states, job)
  {
    hide Run, Quiet, Expected;
    var job, other := Job(["EOF"], "x", "d"), Job([], "x", EndIndicator);
    assert job.Ok() && other.Ok();
    assert !Intact(job) by {
      assert job.msgs[0] == "EOF";
    }
    assert !Intact(other) by {
      assert other.data[0..] == other.data;
    }
    var a := Start(job);
    a := CarryOn(a, job);
    NeverDelivered(a, job);
    var b := Start(other);
    b := CarryOn(b, other);
    NeverDelivered(b, other);
    assert EndsShort(a, job) && EndsShort(b, other);
  }
}
