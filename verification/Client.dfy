/** Calls waiting for an answer, and telling all of them the same one. */
module Channels {
  /** One call of `request`, whichever caller made it. */
  type Call = nat

  function Holders(pending: map<nat, Call>): set<Call> {
    set id | id in pending :: pending[id]
  }

  function Told<A>(channel: map<Call, A>, calls: set<Call>, answer: A): map<Call, A> {
    map call | call in channel.Keys + calls :: if call in calls then answer else channel[call]
  }

  method TellAll<A>(pending: map<nat, Call>, ghost before: map<Call, A>, answer: A) returns (ghost channel: map<Call, A>)
    ensures channel == Told(before, Holders(pending), answer)
  {
    channel := before;
    ghost var told: set<Call> := {};
    var todo := pending.Keys;
    while todo != {}
      invariant todo <= pending.Keys
      invariant told <= Holders(pending)
      invariant forall id :: id in pending && id !in todo ==> pending[id] in told
      invariant channel == Told(before, told, answer)
    {
      var id :| id in todo;
      channel := channel[pending[id] := answer];
      told := told + {pending[id]};
      todo := todo - {id};
    }
    assert told == Holders(pending);
  }
}

/** Requests and responses over one connection, as a system of atomic steps: any
    number of callers, the reader of the server's messages, and a server that sends
    whatever it likes. */
module Client {
  import opened Wrappers
  import opened Merge
  import opened Channels

  /** An incoming message, by the members that decide what becomes of it. */
  datatype Message = Message(id: Option<Json>, name: Option<Json>, params: Option<Json>,
                             result: Option<Json>, error: Option<Json>)

  datatype Answer = Response(message: Message) | ConnectionClosed

  /** What the awaiting caller is told: a result, the error the server sent, or that the
      connection closed. */
  datatype Outcome = Value(v: Json) | Failed(error: Json) | Closed

  datatype Phase =
    | Taken(id: nat)
    | Registered(id: nat)
    | WriteFailed(id: nat)
    | Awaiting(id: nat)
    | Returned(id: nat, answer: Option<Answer>)
    | Abandoned(id: nat)

  datatype Reply = Reply(id: Json, result: Json)
  datatype Notification = Notification(name: string, params: Json)

  datatype State = State(
    nextId: nat,
    pending: map<nat, Call>,
    channel: map<Call, Answer>,
    calls: map<Call, Phase>,
    written: seq<nat>,
    received: seq<Message>,
    replies: seq<Reply>,
    broadcast: seq<Notification>,
    closed: bool,
    late: set<Call>)

  const START := State(1, map[], map[], map[], [], [], [], [], false, {})

  // ---------------------------------------------------------------- incoming messages

  const TWO_63: nat := 0x8000_0000_0000_0000

  /** An id as a signed 64-bit integer. Negative ids are never handed out, so one that
      comes back is no different from one that cannot be read. */
  function AsSigned(v: Json): Option<nat> {
    if v.Whole? && v.n < TWO_63 then Some(v.n) else None
  }

  predicate IsResponse(m: Message) {
    m.id.Some? && (m.result.Some? || m.error.Some?)
  }

  function ResponseId(m: Message): Option<nat> {
    if IsResponse(m) then AsSigned(m.id.value) else None
  }

  predicate HasName(m: Message) {
    m.name.Some? && m.name.value.Str?
  }

  predicate IsServerRequest(m: Message) {
    !IsResponse(m) && HasName(m) && m.id.Some?
  }

  function Field(v: Json, key: string): Option<Json> {
    if v.Obj? && key in v.fields then Some(v.fields[key]) else None
  }

  /** The list of items a request asks for. */
  function ItemsOf(params: Json): Option<seq<Json>> {
    var items := Field(params, "items");
    if items.Some? && items.value.Arr? then Some(items.value.items) else None
  }

  function Nulls(n: nat): seq<Json> {
    seq(n, i => Null)
  }

  function DefaultServerResponse(name: string, params: Option<Json>): (r: Json)
    ensures name == "workspace/configuration" ==> r.Arr? && forall v :: v in r.items ==> v.Null?
    ensures name == "workspace/configuration" ==>
      if params.Some? && ItemsOf(params.value).Some? then |r.items| == |ItemsOf(params.value).value| else r.items == []
    ensures name == "workspace/applyEdit" <==> Field(r, "applied") == Some(Bool(true))
    ensures r == Null <==> name != "workspace/configuration" && name != "workspace/applyEdit"
  {
    if name == "workspace/configuration" then
      var items := if params.Some? then ItemsOf(params.value) else None;
      Arr(Nulls(if items.Some? then |items.value| else 0))
    else if name == "workspace/applyEdit" then Obj(map["applied" := Bool(true)])
    else Null
  }

  function ReplyTo(m: Message): Reply
    requires IsServerRequest(m)
  {
    Reply(m.id.value, DefaultServerResponse(m.name.value.s, m.params))
  }

  function NotificationOf(m: Message): Notification
    requires HasName(m)
  {
    Notification(m.name.value.s, if m.params.Some? then m.params.value else Null)
  }

  function OutcomeOf(a: Answer): Outcome {
    match a
    case ConnectionClosed => Closed
    case Response(m) =>
      if m.error.Some? then Failed(m.error.value)
      else Value(if m.result.Some? then m.result.value else Null)
  }

  // ---------------------------------------------------------------- steps

  datatype Step =
    | TakeId(call: Call)
    | Register(call: Call)
    | Write(call: Call, written: bool)
    | RemoveFailed(call: Call)
    | Return(call: Call)
    | Abandon(call: Call)
    | Incoming(message: Message)
    | Drain

  predicate In(c: State, call: Call) {
    call in c.calls
  }

  predicate Enabled(c: State, step: Step) {
    match step
    case TakeId(call) => !In(c, call)
    case Register(call) => In(c, call) && c.calls[call].Taken?
    case Write(call, _) => In(c, call) && c.calls[call].Registered?
    case RemoveFailed(call) => In(c, call) && c.calls[call].WriteFailed?
    case Return(call) => In(c, call) && c.calls[call].Awaiting? && call in c.channel
    case Abandon(call) => In(c, call) && !c.calls[call].Returned? && !c.calls[call].Abandoned?
    case Incoming(_) => !c.closed
    case Drain => !c.closed
  }

  function Moved(c: State, call: Call, phase: Phase): State {
    c.(calls := c.calls[call := phase])
  }

  function Answered(c: State, id: nat, answer: Answer): State
    requires id in c.pending
  {
    c.(pending := c.pending - {id}, channel := c.channel[c.pending[id] := answer])
  }

  /** Routing of one incoming message. */
  function Routed(c: State, m: Message): State {
    var c := c.(received := c.received + [m]);
    if IsResponse(m) then
      var id := ResponseId(m);
      if id.Some? && id.value in c.pending then Answered(c, id.value, Response(m)) else c
    else if HasName(m) then
      c.(replies := if m.id.Some? then c.replies + [ReplyTo(m)] else c.replies,
         broadcast := c.broadcast + [NotificationOf(m)])
    else c
  }

  function Drained(channel: map<Call, Answer>, pending: map<nat, Call>): map<Call, Answer> {
    Told(channel, Holders(pending), ConnectionClosed)
  }

  function Next(c: State, step: Step): State
    requires Enabled(c, step)
  {
    match step
    case TakeId(call) => Moved(c, call, Taken(c.nextId)).(nextId := c.nextId + 1)
    case Register(call) =>
      var id := c.calls[call].id;
      Moved(c, call, Registered(id)).(pending := c.pending[id := call],
                                      late := if c.closed then c.late + {call} else c.late)
    case Write(call, ok) =>
      var id := c.calls[call].id;
      if ok then Moved(c, call, Awaiting(id)).(written := c.written + [id])
      else Moved(c, call, WriteFailed(id))
    case RemoveFailed(call) =>
      var id := c.calls[call].id;
      Moved(c, call, Returned(id, None)).(pending := c.pending - {id})
    case Return(call) => Moved(c, call, Returned(c.calls[call].id, Some(c.channel[call])))
    case Abandon(call) => Moved(c, call, Abandoned(c.calls[call].id))
    case Incoming(m) => Routed(c, m)
    case Drain => c.(channel := Drained(c.channel, c.pending), pending := map[], closed := true)
  }

  // ---------------------------------------------------------------- the connection as code

  class LspClient {
    var nextId: nat
    var pending: map<nat, Call>
    ghost var rest: State

    /** The whole system, of which this object holds the counter and the table. */
    ghost function System(): State
      reads this
    {
      rest.(nextId := nextId, pending := pending)
    }

    constructor ()
      ensures System() == START
    {
      nextId := 1;
      pending := map[];
      rest := START;
    }

    method FetchId(ghost call: Call) returns (id: nat)
      requires Enabled(System(), TakeId(call))
      modifies this
      ensures System() == Next(old(System()), TakeId(call)) && System().calls[call] == Taken(id)
    {
      id := nextId;
      nextId := nextId + 1;
      rest := rest.(calls := rest.calls[call := Taken(id)]);
    }

    method Insert(id: nat, call: Call)
      requires Enabled(System(), Register(call)) && System().calls[call].id == id
      modifies this
      ensures System() == Next(old(System()), Register(call))
    {
      pending := pending[id := call];
      rest := rest.(calls := rest.calls[call := Registered(id)],
                    late := if rest.closed then rest.late + {call} else rest.late);
    }

    method RemoveAfterFailure(id: nat, ghost call: Call)
      requires Enabled(System(), RemoveFailed(call)) && System().calls[call].id == id
      modifies this
      ensures System() == Next(old(System()), RemoveFailed(call))
    {
      pending := pending - {id};
      rest := rest.(calls := rest.calls[call := Returned(id, None)]);
    }

    method HandleIncoming(m: Message)
      requires Enabled(System(), Incoming(m))
      modifies this
      ensures System() == Next(old(System()), Incoming(m))
    {
      rest := rest.(received := rest.received + [m]);
      if m.id.Some? && (m.result.Some? || m.error.Some?) {
        var id := AsSigned(m.id.value);
        if id.None? || id.value !in pending {
          return;
        }
        ghost var call := pending[id.value];
        pending := pending - {id.value};
        rest := rest.(channel := rest.channel[call := Response(m)]);
        return;
      }
      if HasName(m) && m.id.Some? {
        rest := rest.(replies := rest.replies + [ReplyTo(m)], broadcast := rest.broadcast + [NotificationOf(m)]);
        return;
      }
      if HasName(m) {
        rest := rest.(broadcast := rest.broadcast + [NotificationOf(m)]);
      }
    }

    method FailPending()
      requires Enabled(System(), Drain)
      modifies this
      ensures System() == Next(old(System()), Drain)
    {
      var drained := pending;
      pending := map[];
      ghost var channel := TellAll(drained, rest.channel, ConnectionClosed);
      rest := rest.(channel := channel, closed := true);
    }
  }

  // ---------------------------------------------------------------- what every step keeps

  /** The message is a response that carries this id. */
  predicate RespondsTo(m: Message, id: nat) {
    m.id == Some(Whole(id)) && (m.result.Some? || m.error.Some?)
  }

  /** The server sent `m` in response to the call, under its id. */
  predicate SentTo(c: State, call: Call, m: Message)
    requires In(c, call)
  {
    m in c.received && RespondsTo(m, c.calls[call].id)
  }

  predicate AnswerOk(c: State, call: Call)
    requires In(c, call) && call in c.channel
  {
    match c.channel[call]
    case Response(m) => SentTo(c, call, m)
    case ConnectionClosed => c.closed
  }

  /** The call's entry waits in the table, and nothing was sent on its channel yet. */
  predicate Waiting(c: State, call: Call)
    requires In(c, call)
  {
    var id := c.calls[call].id;
    id in c.pending && c.pending[id] == call && call !in c.channel
  }

  predicate Settled(c: State, call: Call)
    requires In(c, call)
  {
    c.calls[call].id !in c.pending && call in c.channel
  }

  predicate CallOk(c: State, call: Call)
    requires In(c, call)
  {
    var phase := c.calls[call];
    && 1 <= phase.id < c.nextId
    && (call in c.channel ==> AnswerOk(c, call))
    && match phase
       case Taken(id) => id !in c.pending && call !in c.channel
       case Returned(id, answer) =>
         id !in c.pending && (answer.Some? ==> call in c.channel && c.channel[call] == answer.value)
       case Abandoned(id) => id in c.pending ==> Waiting(c, call)
       case _ => Waiting(c, call) || Settled(c, call)
  }

  predicate EntryOk(c: State, id: nat)
    requires id in c.pending
  {
    In(c, c.pending[id]) && c.calls[c.pending[id]].id == id
  }

  predicate SameId(c: State, a: Call, b: Call)
    requires In(c, a) && In(c, b)
  {
    c.calls[a].id == c.calls[b].id
  }

  ghost predicate Inv(c: State) {
    && c.nextId >= 1
    && (forall call :: In(c, call) ==> CallOk(c, call))
    && (forall id :: id in c.pending ==> EntryOk(c, id))
    && (forall a, b :: In(c, a) && In(c, b) && SameId(c, a, b) ==> a == b)
    && (forall call :: call in c.channel ==> In(c, call))
    && (forall call :: call in c.late ==> c.closed && In(c, call) && call !in c.channel)
    && (c.closed ==> forall id :: id in c.pending ==> c.pending[id] in c.late)
    && c.replies == RepliesTo(c.received)
    && c.broadcast == BroadcastOf(c.received)
  }

  /** One reply for each request of the server, in order, under the request's id. */
  function RepliesTo(received: seq<Message>): seq<Reply> {
    if received == [] then []
    else
      var m := received[|received| - 1];
      RepliesTo(received[..|received| - 1]) + if IsServerRequest(m) then [ReplyTo(m)] else []
  }

  function BroadcastOf(received: seq<Message>): seq<Notification> {
    if received == [] then []
    else
      var m := received[|received| - 1];
      BroadcastOf(received[..|received| - 1]) + if !IsResponse(m) && HasName(m) then [NotificationOf(m)] else []
  }

  /** A call that moves on under its own id disturbs no other. */
  lemma MovedKeeps(c: State, call: Call, phase: Phase, written: seq<nat>)
    requires Inv(c) && In(c, call) && phase.id == c.calls[call].id
    requires CallOk(Moved(c, call, phase).(written := written), call)
    ensures Inv(Moved(c, call, phase).(written := written))
  {
    var d := Moved(c, call, phase).(written := written);
    forall other | In(d, other) ensures CallOk(d, other) {
      assert CallOk(c, other);
    }
    forall id | id in d.pending ensures EntryOk(d, id) {
      assert EntryOk(c, id);
    }
    forall a, b | In(d, a) && In(d, b) && SameId(d, a, b) ensures a == b {
      assert SameId(c, a, b);
    }
  }

  lemma WriteKeeps(c: State, call: Call, ok: bool)
    requires Inv(c) && Enabled(c, Write(call, ok))
    ensures Inv(Next(c, Write(call, ok)))
  {
    assert CallOk(c, call);
    var id := c.calls[call].id;
    if ok {
      MovedKeeps(c, call, Awaiting(id), c.written + [id]);
    } else {
      MovedKeeps(c, call, WriteFailed(id), c.written);
    }
  }

  lemma ReturnKeeps(c: State, call: Call)
    requires Inv(c) && Enabled(c, Return(call))
    ensures Inv(Next(c, Return(call)))
  {
    assert CallOk(c, call);
    MovedKeeps(c, call, Returned(c.calls[call].id, Some(c.channel[call])), c.written);
  }

  lemma AbandonKeeps(c: State, call: Call)
    requires Inv(c) && Enabled(c, Abandon(call))
    ensures Inv(Next(c, Abandon(call)))
  {
    assert CallOk(c, call);
    MovedKeeps(c, call, Abandoned(c.calls[call].id), c.written);
  }

  lemma TakeIdKeeps(c: State, call: Call)
    requires Inv(c) && Enabled(c, TakeId(call))
    ensures Inv(Next(c, TakeId(call)))
  {
    var d := Next(c, TakeId(call));
    forall id | id in d.pending ensures EntryOk(d, id) && id < c.nextId {
      assert EntryOk(c, id);
      assert CallOk(c, c.pending[id]);
    }
    forall other | In(d, other) ensures CallOk(d, other) {
      assert other != call ==> CallOk(c, other);
    }
    forall a, b | In(d, a) && In(d, b) && SameId(d, a, b) ensures a == b {
      assert a != call ==> CallOk(c, a);
      assert b != call ==> CallOk(c, b);
      assert a != call && b != call ==> SameId(c, a, b);
    }
  }

  lemma RegisterKeeps(c: State, call: Call)
    requires Inv(c) && Enabled(c, Register(call))
    ensures Inv(Next(c, Register(call)))
  {
    var d := Next(c, Register(call));
    assert CallOk(c, call);
    forall other | In(d, other) ensures CallOk(d, other) {
      assert CallOk(c, other);
      assert other != call ==> !SameId(c, other, call);
    }
    forall id | id in d.pending ensures EntryOk(d, id) {
      assert id != c.calls[call].id ==> EntryOk(c, id);
    }
    forall a, b | In(d, a) && In(d, b) && SameId(d, a, b) ensures a == b {
      assert SameId(c, a, b);
    }
  }

  lemma RemoveKeeps(c: State, call: Call)
    requires Inv(c) && Enabled(c, RemoveFailed(call))
    ensures Inv(Next(c, RemoveFailed(call)))
  {
    var d := Next(c, RemoveFailed(call));
    assert CallOk(c, call);
    forall other | In(d, other) ensures CallOk(d, other) {
      assert CallOk(c, other);
      assert other != call ==> !SameId(c, other, call);
    }
    forall id | id in d.pending ensures EntryOk(d, id) {
      assert EntryOk(c, id);
    }
    forall a, b | In(d, a) && In(d, b) && SameId(d, a, b) ensures a == b {
      assert SameId(c, a, b);
    }
  }

  predicate SameEntry(c: State, d: State, id: nat) {
    (id in d.pending <==> id in c.pending) && (id in c.pending ==> d.pending[id] == c.pending[id])
  }

  lemma ReceivedKeepsCall(c: State, d: State, call: Call)
    requires In(c, call) && CallOk(c, call)
    requires d.calls == c.calls && d.nextId == c.nextId && d.closed == c.closed
    requires forall m :: m in c.received ==> m in d.received
    requires call in d.channel <==> call in c.channel
    requires call in c.channel ==> d.channel[call] == c.channel[call]
    requires SameEntry(c, d, c.calls[call].id)
    ensures CallOk(d, call)
  {
  }

  lemma AnsweredKeeps(c: State, m: Message, id: nat)
    requires Inv(c) && !c.closed && ResponseId(m) == Some(id) && id in c.pending
    ensures Inv(Routed(c, m))
  {
    var d := Routed(c, m);
    var call := c.pending[id];
    assert EntryOk(c, id) && CallOk(c, call);
    RoutedLogs(c, m);
    forall other | In(d, other) ensures CallOk(d, other) {
      if other != call {
        assert CallOk(c, other) && !SameId(c, other, call);
        ReceivedKeepsCall(c, d, other);
      }
    }
    forall i | i in d.pending ensures EntryOk(d, i) {
      assert EntryOk(c, i);
    }
    forall a, b | In(d, a) && In(d, b) && SameId(d, a, b) ensures a == b {
      assert SameId(c, a, b);
    }
  }

  lemma UnansweredKeeps(c: State, m: Message)
    requires Inv(c) && !(ResponseId(m).Some? && ResponseId(m).value in c.pending)
    ensures Inv(Routed(c, m))
  {
    RoutedLogs(c, m);
    LogsKeep(c, Routed(c, m));
  }

  lemma LogsGrow(received: seq<Message>, m: Message)
    ensures RepliesTo(received + [m]) == RepliesTo(received) + if IsServerRequest(m) then [ReplyTo(m)] else []
    ensures BroadcastOf(received + [m])
      == BroadcastOf(received) + if !IsResponse(m) && HasName(m) then [NotificationOf(m)] else []
  {
    assert (received + [m])[..|received|] == received;
  }

  lemma RoutedLogs(c: State, m: Message)
    requires c.replies == RepliesTo(c.received) && c.broadcast == BroadcastOf(c.received)
    ensures Routed(c, m).received == c.received + [m]
    ensures Routed(c, m).replies == RepliesTo(c.received + [m])
    ensures Routed(c, m).broadcast == BroadcastOf(c.received + [m])
  {
    LogsGrow(c.received, m);
    RoutedKinds(c, m);
  }

  lemma RoutedKinds(c: State, m: Message)
    ensures Routed(c, m).received == c.received + [m]
    ensures Routed(c, m).replies == c.replies + if IsServerRequest(m) then [ReplyTo(m)] else []
    ensures Routed(c, m).broadcast == c.broadcast + if !IsResponse(m) && HasName(m) then [NotificationOf(m)] else []
  {
    assert c.replies + [] == c.replies && c.broadcast + [] == c.broadcast;
  }

  lemma LogsKeep(c: State, d: State)
    requires Inv(c)
    requires d == c.(received := d.received, replies := d.replies, broadcast := d.broadcast)
    requires forall m :: m in c.received ==> m in d.received
    requires d.replies == RepliesTo(d.received) && d.broadcast == BroadcastOf(d.received)
    ensures Inv(d)
  {
    forall call | In(d, call) ensures CallOk(d, call) {
      assert CallOk(c, call);
      ReceivedKeepsCall(c, d, call);
    }
    forall id | id in d.pending ensures EntryOk(d, id) {
      assert EntryOk(c, id);
    }
    forall a, b | In(d, a) && In(d, b) && SameId(d, a, b) ensures a == b {
      assert SameId(c, a, b);
    }
  }

  lemma IncomingKeeps(c: State, m: Message)
    requires Inv(c) && Enabled(c, Incoming(m))
    ensures Inv(Next(c, Incoming(m)))
  {
    if ResponseId(m).Some? && ResponseId(m).value in c.pending {
      AnsweredKeeps(c, m, ResponseId(m).value);
    } else {
      UnansweredKeeps(c, m);
    }
  }

  lemma DrainKeeps(c: State)
    requires Inv(c) && Enabled(c, Drain)
    ensures Inv(Next(c, Drain))
  {
    var d := Next(c, Drain);
    forall call | In(d, call) ensures CallOk(d, call) {
      assert CallOk(c, call);
      if call in Holders(c.pending) {
        var id :| id in c.pending && c.pending[id] == call;
        assert EntryOk(c, id);
      }
    }
    forall a, b | In(d, a) && In(d, b) && SameId(d, a, b) ensures a == b {
      assert SameId(c, a, b);
    }
    forall call | call in d.channel ensures In(d, call) {
      if call in Holders(c.pending) {
        var id :| id in c.pending && c.pending[id] == call;
        assert EntryOk(c, id);
      }
    }
  }

  lemma StepKeepsInv(c: State, step: Step)
    requires Inv(c) && Enabled(c, step)
    ensures Inv(Next(c, step))
  {
    match step {
      case TakeId(call) => TakeIdKeeps(c, call);
      case Register(call) => RegisterKeeps(c, call);
      case RemoveFailed(call) => RemoveKeeps(c, call);
      case Incoming(m) => IncomingKeeps(c, m);
      case Drain => DrainKeeps(c);
      case Write(call, ok) => WriteKeeps(c, call, ok);
      case Return(call) => ReturnKeeps(c, call);
      case Abandon(call) => AbandonKeeps(c, call);
    }
  }

  /** No request id goes on the wire twice, and none before its call writes it. */
  ghost predicate WrittenOnce(c: State) {
    && (forall i, j :: 0 <= i < j < |c.written| ==> c.written[i] != c.written[j])
    && (forall id :: id in c.written ==> id < c.nextId)
    && (forall call :: In(c, call) ==> NotYetWritten(c, call))
  }

  predicate NotYetWritten(c: State, call: Call)
    requires In(c, call)
  {
    var phase := c.calls[call];
    phase.Taken? || phase.Registered? || phase.WriteFailed? ==> phase.id !in c.written
  }

  lemma WriteKeepsWritten(c: State, call: Call, ok: bool)
    requires Inv(c) && WrittenOnce(c) && Enabled(c, Write(call, ok))
    ensures WrittenOnce(Next(c, Write(call, ok)))
  {
    var d := Next(c, Write(call, ok));
    assert NotYetWritten(c, call) && CallOk(c, call);
    forall other | In(d, other) ensures NotYetWritten(d, other) {
      assert NotYetWritten(c, other) && CallOk(c, other);
      assert other != call ==> !SameId(c, call, other);
    }
  }

  lemma SilentStepKeepsCall(c: State, step: Step, call: Call)
    requires Inv(c) && WrittenOnce(c) && Enabled(c, step) && !step.Write?
    requires In(Next(c, step), call)
    ensures NotYetWritten(Next(c, step), call)
  {
    assert In(c, call) ==> NotYetWritten(c, call);
  }

  lemma StepKeepsWritten(c: State, step: Step)
    requires Inv(c) && WrittenOnce(c) && Enabled(c, step)
    ensures WrittenOnce(Next(c, step))
  {
    if step.Write? {
      WriteKeepsWritten(c, step.call, step.written);
    } else {
      forall call | In(Next(c, step), call) ensures NotYetWritten(Next(c, step), call) {
        SilentStepKeepsCall(c, step, call);
      }
    }
  }

  // ---------------------------------------------------------------- whole runs

  ghost predicate Legal(c: State, steps: seq<Step>)
    decreases |steps|
  {
    steps == [] || (Enabled(c, steps[0]) && Legal(Next(c, steps[0]), steps[1..]))
  }

  ghost function After(c: State, steps: seq<Step>): State
    requires Legal(c, steps)
    decreases |steps|
  {
    if steps == [] then c else After(Next(c, steps[0]), steps[1..])
  }

  lemma {:induction false} RunKeepsInv(c: State, steps: seq<Step>)
    requires Inv(c) && WrittenOnce(c) && Legal(c, steps)
    ensures Inv(After(c, steps)) && WrittenOnce(After(c, steps))
    decreases |steps|
  {
    if steps != [] {
      StepKeepsInv(c, steps[0]);
      StepKeepsWritten(c, steps[0]);
      RunKeepsInv(Next(c, steps[0]), steps[1..]);
    }
  }

  /** In every run, two calls never share an id, and no id is written twice. */
  lemma RequestIdsAreUnique(steps: seq<Step>, a: Call, b: Call)
    requires Legal(START, steps)
    requires In(After(START, steps), a) && In(After(START, steps), b)
    ensures SameId(After(START, steps), a, b) ==> a == b
    ensures forall i, j :: 0 <= i < j < |After(START, steps).written| ==>
      After(START, steps).written[i] != After(START, steps).written[j]
  {
    RunKeepsInv(START, steps);
  }

  /** In every run, a caller is told a result or an error only when the server sent it
      in a response under that caller's own id, an error taking precedence, and told
      `Closed` only once the connection is. */
  lemma AnsweredByOwnResponse(steps: seq<Step>, call: Call)
    requires Legal(START, steps) && In(After(START, steps), call)
    requires After(START, steps).calls[call].Returned? && After(START, steps).calls[call].answer.Some?
    ensures var c := After(START, steps);
      match OutcomeOf(c.calls[call].answer.value)
      case Value(v) => exists m :: SentTo(c, call, m) && m.error.None? && m.result == Some(v)
      case Failed(e) => exists m :: SentTo(c, call, m) && m.error == Some(e)
      case Closed => c.closed
  {
    RunKeepsInv(START, steps);
    var c := After(START, steps);
    assert CallOk(c, call);
    var answer := c.calls[call].answer.value;
    if answer.Response? {
      assert SentTo(c, call, answer.message);
    }
  }

  lemma StepKeepsAnswer(c: State, step: Step, call: Call)
    requires Inv(c) && Enabled(c, step) && In(c, call)
    ensures In(Next(c, step), call) && Next(c, step).calls[call].id == c.calls[call].id
    ensures call in c.channel ==> call in Next(c, step).channel && Next(c, step).channel[call] == c.channel[call]
    ensures c.calls[call].Returned? ==> Next(c, step).calls[call] == c.calls[call]
  {
    match step {
      case Drain => DrainKeepsAnswer(c, call);
      case Incoming(m) => IncomingKeepsAnswer(c, m, call);
      case _ =>
    }
  }

  lemma DrainKeepsAnswer(c: State, call: Call)
    requires Inv(c) && In(c, call)
    ensures call in c.channel ==>
      call in Drained(c.channel, c.pending) && Drained(c.channel, c.pending)[call] == c.channel[call]
  {
    assert CallOk(c, call);
    if call in Holders(c.pending) {
      var id :| id in c.pending && c.pending[id] == call;
      assert EntryOk(c, id);
    }
  }

  lemma IncomingKeepsAnswer(c: State, m: Message, call: Call)
    requires Inv(c) && In(c, call)
    ensures Routed(c, m).calls == c.calls
    ensures call in c.channel ==> call in Routed(c, m).channel && Routed(c, m).channel[call] == c.channel[call]
  {
    assert CallOk(c, call);
    if ResponseId(m).Some? && ResponseId(m).value in c.pending {
      assert EntryOk(c, ResponseId(m).value);
    }
  }

  /** A call completes at most once: the first answer on its channel is never replaced,
      and what its caller was told never changes, whatever happens afterwards. */
  lemma {:induction false} CompletesAtMostOnce(c: State, steps: seq<Step>, call: Call)
    requires Inv(c) && WrittenOnce(c) && Legal(c, steps) && In(c, call)
    ensures var d := After(c, steps);
      && In(d, call) && d.calls[call].id == c.calls[call].id
      && (call in c.channel ==> call in d.channel && d.channel[call] == c.channel[call])
      && (c.calls[call].Returned? ==> d.calls[call] == c.calls[call])
    decreases |steps|
  {
    if steps != [] {
      StepKeepsAnswer(c, steps[0], call);
      StepKeepsInv(c, steps[0]);
      StepKeepsWritten(c, steps[0]);
      CompletesAtMostOnce(Next(c, steps[0]), steps[1..], call);
    }
  }

  /** Once a call was answered, any further response under its id, at any later time,
      leaves everything but the log of received messages as it was. */
  lemma DuplicateChangesNothing(c: State, steps: seq<Step>, call: Call, m: Message)
    requires Inv(c) && WrittenOnce(c) && Legal(c, steps) && In(c, call) && call in c.channel
    requires RespondsTo(m, c.calls[call].id)
    ensures Routed(After(c, steps), m) == After(c, steps).(received := After(c, steps).received + [m])
  {
    RunKeepsInv(c, steps);
    CompletesAtMostOnce(c, steps, call);
    assert CallOk(After(c, steps), call);
  }

  /** A response whose id is that of a waiting call completes that call, with that very
      response, and changes nothing else. */
  lemma ResponseReachesItsCaller(c: State, call: Call, m: Message)
    requires In(c, call) && Waiting(c, call) && RespondsTo(m, c.calls[call].id)
    requires c.calls[call].id <= 9223372036854775807
    ensures Routed(c, m) == c.(received := c.received + [m], pending := c.pending - {c.calls[call].id},
                               channel := c.channel[call := Response(m)])
  {
  }

  /** The message answers the call, which still waits, under an id that can be read. */
  predicate Answers(c: State, call: Call, m: Message)
    requires In(c, call)
  {
    Waiting(c, call) && RespondsTo(m, c.calls[call].id) && c.calls[call].id <= 9223372036854775807
  }

  /** A response is acted on exactly when its id is that of a call still waiting; ids from
      the 64th bit on are not read. */
  lemma ResponseActsExactly(steps: seq<Step>, m: Message)
    requires Legal(START, steps) && m.id.Some? && (m.result.Some? || m.error.Some?)
    ensures var c := After(START, steps);
      Routed(c, m) != c.(received := c.received + [m])
      <==> exists call :: In(c, call) && Answers(c, call, m)
  {
    RunKeepsInv(START, steps);
    var c := After(START, steps);
    var id := ResponseId(m);
    if id.Some? && id.value in c.pending {
      assert EntryOk(c, id.value) && CallOk(c, c.pending[id.value]);
      assert Waiting(c, c.pending[id.value]);
      assert id.value !in Routed(c, m).pending;
    }
  }

  /** A message the server sends of its own accord under a name is passed on to whoever
      listens, and when it has an id it is answered under that id. */
  lemma NamedMessageIsHandled(c: State, m: Message, name: string)
    requires m.name == Some(Str(name)) && (m.id == None || (m.result == None && m.error == None))
    ensures Routed(c, m) == c.(received := c.received + [m],
      broadcast := c.broadcast + [Notification(name, match m.params case Some(p) => p case None => Null)],
      replies := match m.id
        case Some(id) => c.replies + [Reply(id, DefaultServerResponse(name, m.params))]
        case None => c.replies)
  {
  }

  /** A message that is no response and has no name is dropped. */
  lemma NamelessMessageIsDropped(c: State, m: Message)
    requires m.id == None || (m.result == None && m.error == None)
    requires forall name :: m.name != Some(Str(name))
    ensures Routed(c, m) == c.(received := c.received + [m])
  {
  }

  /** A server that asks for two settings is given two nulls. */
  lemma EachSettingIsNull(a: Json, b: Json)
    ensures DefaultServerResponse("workspace/configuration", Some(Obj(map["items" := Arr([a, b])]))) == Arr([Null, Null])
  {
  }

  /** The message is a request of the server under this id. */
  predicate AsksUnder(m: Message, id: Json) {
    m.id == Some(id) && m.name.Some? && m.name.value.Str? && m.result == None && m.error == None
  }

  function RequestsWith(received: seq<Message>, id: Json): nat {
    if received == [] then 0
    else
      var m := received[|received| - 1];
      RequestsWith(received[..|received| - 1], id) + if AsksUnder(m, id) then 1 else 0
  }

  function RepliesWith(replies: seq<Reply>, id: Json): nat {
    if replies == [] then 0
    else RepliesWith(replies[..|replies| - 1], id) + if replies[|replies| - 1].id == id then 1 else 0
  }

  lemma RepliesGrow(replies: seq<Reply>, r: Reply, id: Json)
    ensures RepliesWith(replies + [r], id) == RepliesWith(replies, id) + if r.id == id then 1 else 0
  {
    assert (replies + [r])[..|replies|] == replies;
  }

  lemma RequestsAreAsks(m: Message, id: Json)
    ensures AsksUnder(m, id) <==> IsServerRequest(m) && ReplyTo(m).id == id
  {
  }

  lemma {:induction false} RepliesMatchRequests(received: seq<Message>, id: Json)
    ensures RepliesWith(RepliesTo(received), id) == RequestsWith(received, id)
  {
    if received != [] {
      var before, m := RepliesTo(received[..|received| - 1]), received[|received| - 1];
      RepliesMatchRequests(received[..|received| - 1], id);
      RequestsAreAsks(m, id);
      if IsServerRequest(m) {
        RepliesGrow(before, ReplyTo(m), id);
      } else {
        assert before + [] == before;
      }
    }
  }

  /** The server sent a request that `r` answers. */
  predicate IsReplyTo(received: seq<Message>, r: Reply) {
    exists m :: m in received && AsksUnder(m, r.id) && r.result == DefaultServerResponse(m.name.value.s, m.params)
  }

  lemma {:induction false} RepliesAnswer(received: seq<Message>, r: Reply)
    requires r in RepliesTo(received)
    ensures IsReplyTo(received, r)
  {
    if r in RepliesTo(received[..|received| - 1]) {
      RepliesAnswer(received[..|received| - 1], r);
    }
  }

  /** Over every run, for every id, as many replies were sent under it as the server
      sent requests under it, and every reply answers a request the server sent. */
  lemma EveryServerRequestIsAnsweredOnce(steps: seq<Step>, id: Json)
    requires Legal(START, steps)
    ensures var c := After(START, steps);
      && c.replies == RepliesTo(c.received) && c.broadcast == BroadcastOf(c.received)
      && RepliesWith(c.replies, id) == RequestsWith(c.received, id)
      && forall r :: r in c.replies ==> IsReplyTo(c.received, r)
  {
    RunKeepsInv(START, steps);
    var c := After(START, steps);
    RepliesMatchRequests(c.received, id);
    forall r | r in c.replies ensures IsReplyTo(c.received, r) {
      RepliesAnswer(c.received, r);
    }
  }

  // ---------------------------------------------------------------- the closing drain

  /** A concrete late call: it registers once the reader has stopped, writes its request,
      and has nothing to return. */
  lemma LateCallHangs()
    ensures var steps := [Drain, TakeId(0), Register(0), Write(0, true)];
      && Legal(START, steps)
      && After(START, steps).calls[0] == Awaiting(1)
      && !Enabled(After(START, steps), Return(0))
  {
    var steps := [Drain, TakeId(0), Register(0), Write(0, true)];
    var a := Next(START, Drain);
    assert a.channel == map[];
    var b := Next(a, TakeId(0));
    var c := Next(b, Register(0));
    var d := Next(c, Write(0, true));
    assert Legal(d, []) && After(d, []) == d;
    assert steps[3..] == [Write(0, true)] && steps[3..][1..] == [] && Legal(c, steps[3..]);
    assert steps[2..][1..] == steps[3..] && Legal(b, steps[2..]);
    assert steps[1..][1..] == steps[2..] && Legal(a, steps[1..]);
    assert After(START, steps) == After(a, steps[1..]) == After(b, steps[2..]) == After(c, steps[3..]) == d;
  }

  /** Once the reader stopped, a call whose request was written has an answer to return
      exactly when it had put itself in the table before the reader emptied it. */
  lemma DrainReleasesExactly(steps: seq<Step>, call: Call)
    requires Legal(START, steps)
    requires In(After(START, steps), call) && After(START, steps).calls[call].Awaiting?
    requires After(START, steps).closed
    ensures Enabled(After(START, steps), Return(call)) <==> call !in After(START, steps).late
  {
    RunKeepsInv(START, steps);
    var c := After(START, steps);
    assert CallOk(c, call);
  }

  /** A call that was in the table when the reader stopped is not late. */
  lemma {:induction false} RegisteredIsNotLate(c: State, steps: seq<Step>, call: Call)
    requires Legal(c, steps) && In(c, call) && !c.calls[call].Taken? && call !in c.late
    ensures In(After(c, steps), call) && call !in After(c, steps).late
    decreases |steps|
  {
    if steps != [] {
      RegisteredIsNotLate(Next(c, steps[0]), steps[1..], call);
    }
  }

  lemma StepKeepsLate(c: State, step: Step, call: Call)
    requires Inv(c) && Enabled(c, step) && call in c.late
    ensures call in Next(c, step).late && In(Next(c, step), call)
    ensures c.calls[call].Awaiting? ==>
      Next(c, step).calls[call] == c.calls[call] || Next(c, step).calls[call].Abandoned?
    ensures c.calls[call].Abandoned? ==> Next(c, step).calls[call].Abandoned?
  {
  }

  /** A late call is never told anything. */
  lemma {:induction false} LateIsNeverAnswered(c: State, steps: seq<Step>, call: Call)
    requires Inv(c) && WrittenOnce(c) && Legal(c, steps) && call in c.late
    ensures call in After(c, steps).late && call !in After(c, steps).channel
    ensures c.calls[call].Awaiting? ==>
      In(After(c, steps), call) && (After(c, steps).calls[call].Awaiting? || After(c, steps).calls[call].Abandoned?)
    ensures c.calls[call].Abandoned? ==> In(After(c, steps), call) && After(c, steps).calls[call].Abandoned?
    decreases |steps|
  {
    if steps != [] {
      StepKeepsInv(c, steps[0]);
      StepKeepsWritten(c, steps[0]);
      StepKeepsLate(c, steps[0], call);
      LateIsNeverAnswered(Next(c, steps[0]), steps[1..], call);
    }
  }
}
