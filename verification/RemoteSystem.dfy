/** Any number of masters, each on its own connection, reading the registers of the example slave
    while the update thread posts new values. Bytes cross each connection in order but in chunks
    of any size, and every task of the single-threaded slave is one step. */
module RemoteSystem {
  import opened Wire
  import opened Requests
  import opened Responses
  import opened Frames
  import opened Layout
  import opened Masters
  import opened Servers
  import opened RemoteCall
  import opened Transports

  /** The update thread posts 500 updates, numbered from 0. */
  const UPDATES: nat := 500

  // ---------------------------------------------------------------- states

  /** One direction of a connection: bytes that can be read, and bytes on their way. */
  datatype Channel = Channel(arrived: seq<byte>, transit: seq<byte>) {
    function Contents(): seq<byte> { arrived + transit }
    function Send(d: seq<byte>): Channel { Channel(arrived, transit + d) }
    function Deliver(k: nat): (ch: Channel)
      requires k <= |transit|
      ensures |ch.arrived| == |arrived| + k && |ch.transit| == |transit| - k
    {
      Channel(arrived + transit[..k], transit[k..])
    }
    function Drop(k: nat): Channel
      requires k <= |arrived|
    {
      Channel(arrived[k..], transit)
    }
  }

  /** A call in progress: its transaction id, and how many updates had been executed and how many
      calls had returned when it was made. */
  datatype Pending = Pending(call: Call, tid: word, invoked: nat, since: nat)

  datatype ClientPhase =
    | Idle
    | WaitHeader(pending: Pending)
    | WaitBody(pending: Pending, length: word)

  datatype ServerPhase =
    | ReadHeader
    | ReadBody(tid: word, unit: byte, length: word)
    | Stopped

  /** `handled` records the number of executed updates when the last request was handled, `clean`
      that every call made on the connection so far was faithful. */
  datatype Connection = Connection(nextTid: word, client: ClientPhase, toServer: Channel,
                                   toClient: Channel, server: ServerPhase, handled: nat, clean: bool)

  /** A call that has returned; `clean` says that it and all calls before it on its connection were
      faithful. */
  datatype Record = Record(call: Call, result: CallResult, invoked: nat, since: nat, handled: nat, returned: nat, clean: bool)

  datatype State = State(regs: seq<word>, updates: nat, conns: seq<Connection>, log: seq<Record>)

  // ---------------------------------------------------------------- steps

  /** The client side of a call that ends with `result`. */
  function Finish(s: State, c: Connection, result: CallResult): Record
    requires !c.client.Idle?
  {
    var p := c.client.pending;
    Record(p.call, result, p.invoked, p.since, c.handled, s.updates, c.clean)
  }

  datatype Action =
    | Invoke(call: Call)
    | ToServer(k: nat)
    | ToClient(k: nat)
    | ServerHeader
    | ServerBody
    | ClientHeader
    | ClientBody

  datatype Step = Accept | Update | At(i: nat, action: Action)

  predicate CanAct(c: Connection, a: Action) {
    match a
    case Invoke(_) => c.client.Idle?
    case ToServer(k) => 1 <= k <= |c.toServer.transit|
    case ToClient(k) => 1 <= k <= |c.toClient.transit|
    case ServerHeader => c.server.ReadHeader? && |c.toServer.arrived| >= HEADER_SIZE
    case ServerBody => c.server.ReadBody? && |c.toServer.arrived| >= c.server.length - 1 >= 0
    case ClientHeader => c.client.WaitHeader? && |c.toClient.arrived| >= HEADER_SIZE
    case ClientBody => c.client.WaitBody? && |c.toClient.arrived| >= c.client.length - 1 >= 0
  }

  predicate CanStep(s: State, step: Step) {
    match step
    case Accept => true
    case Update => s.updates < UPDATES
    case At(i, a) => i < |s.conns| && CanAct(s.conns[i], a)
  }

  /** `write_request` for the call; a broadcast returns without waiting for a reply. */
  function DoInvoke(s: State, c: Connection, call: Call): Connection {
    c.(nextTid := (c.nextTid + 1) % 0x1_0000,
       client := if call.unit == 0 then Idle else WaitHeader(Pending(call, c.nextTid, s.updates, |s.log|)),
       toServer := c.toServer.Send(Frame(c.nextTid, call.unit, Encode(call.Request()))),
       clean := c.clean && call.Faithful())
  }

  /** The first read of the message loop and the length test. */
  function DoServerHeader(c: Connection): Connection
    requires CanAct(c, ServerHeader)
  {
    var h := ParseHeader(c.toServer.arrived[..HEADER_SIZE]);
    var c := c.(toServer := c.toServer.Drop(HEADER_SIZE));
    if h.length < 2 then c.(toClient := c.toClient.Send(Complaint(h.transactionId, h.unitId)))
    else if 6 + h.length > BUFFER_SIZE then c.(server := Stopped)
    else c.(server := ReadBody(h.transactionId, h.unitId, h.length))
  }

  /** The second read, the decode and the handler, without interruption. */
  function DoServerBody(s: State, c: Connection): Connection
    requires CanAct(c, ServerBody)
  {
    var n := c.server.length - 1;
    match Decode(c.toServer.arrived[..n])
    case Fail(_, _) => c.(toServer := c.toServer.Drop(n), server := Stopped)
    case Ok(r, _) =>
      c.(toServer := c.toServer.Drop(n), server := ReadHeader, handled := s.updates,
         toClient := c.toClient.Send(Answer(s.regs, c.server.tid, c.server.unit, r)))
  }

  /** The first read of `read_response` and its header checks. */
  function DoClientHeader(c: Connection): Connection
    requires CanAct(c, ClientHeader)
  {
    var p := c.client.pending;
    var h := ParseHeader(c.toClient.arrived[..HEADER_SIZE]);
    var c := c.(toClient := c.toClient.Drop(HEADER_SIZE));
    if CheckHeader(h, p.tid, p.call.unit) != SUCCESS then c.(client := Idle)
    else c.(client := WaitBody(p, h.length))
  }

  /** The second read of `read_response`; the call returns. */
  function DoClientBody(c: Connection): Connection
    requires CanAct(c, ClientBody)
  {
    c.(toClient := c.toClient.Drop(c.client.length - 1), client := Idle)
  }

  function Act(s: State, c: Connection, a: Action): Connection
    requires CanAct(c, a)
  {
    match a
    case Invoke(call) => DoInvoke(s, c, call)
    case ToServer(k) => c.(toServer := c.toServer.Deliver(k))
    case ToClient(k) => c.(toClient := c.toClient.Deliver(k))
    case ServerHeader => DoServerHeader(c)
    case ServerBody => DoServerBody(s, c)
    case ClientHeader => DoClientHeader(c)
    case ClientBody => DoClientBody(c)
  }

  /** What an action adds to the log: a broadcast, a refused header or a complete reply ends a call. */
  function Logged(s: State, c: Connection, a: Action): seq<Record>
    requires CanAct(c, a)
  {
    if a.ClientHeader? then
      var p := c.client.pending;
      var ec := CheckHeader(ParseHeader(c.toClient.arrived[..HEADER_SIZE]), p.tid, p.call.unit);
      if ec != SUCCESS then [Finish(s, c, Failed(ec))] else []
    else if a.ClientBody? then
      [Finish(s, c, Conclude(c.client.pending.call, c.toClient.arrived[..c.client.length - 1]))]
    else if a.Invoke? && a.call.unit == 0 then
      var result := WordRead(READ_HOLDING_REGISTERS, a.call.size, c.nextTid, 0, c.toClient.arrived).0;
      [Record(a.call, result, s.updates, |s.log|, c.handled, s.updates, false)]
    else []
  }

  const FRESH: Connection := Connection(0, Idle, Channel([], []), Channel([], []), ReadHeader, 0, true)

  function Apply(s: State, step: Step): State
    requires CanStep(s, step)
  {
    match step
    case Accept => s.(conns := s.conns + [FRESH])
    case Update => s.(regs := seq(|s.regs|, _ => ToWord(s.updates)), updates := s.updates + 1)
    case At(i, a) =>
      s.(conns := s.conns[i := Act(s, s.conns[i], a)], log := s.log + Logged(s, s.conns[i], a))
  }

  function Start(): State { State(seq(REGISTER_COUNT, _ => 0), 0, [], []) }

  /** The state after a run, if every step of it was possible. */
  ghost predicate Reaches(s: State, steps: seq<Step>, t: State)
    decreases |steps|
  {
    if steps == [] then s == t
    else CanStep(s, steps[0]) && Reaches(Apply(s, steps[0]), steps[1..], t)
  }

  ghost predicate Reachable(s: State) { exists steps: seq<Step> :: Reaches(Start(), steps, s) }

  // ---------------------------------------------------------------- the invariant

  /** The value written by the last of `k` updates. */
  function ValueAt(k: nat): word { if k == 0 then 0 else ToWord(k - 1) }

  function RegsAt(k: nat): (r: seq<word>)
    ensures |r| == REGISTER_COUNT
  {
    seq(REGISTER_COUNT, _ => ValueAt(k))
  }

  function RequestPdu(p: Pending): seq<byte> { Encode(p.call.Request()) }

  function RequestFrame(p: Pending): seq<byte> { Frame(p.tid, p.call.unit, RequestPdu(p)) }

  function ReplyFrame(p: Pending, handled: nat): seq<byte> {
    Frame(p.tid, p.call.unit, ReplyPdu(RegsAt(handled), p.call))
  }

  /** Where the one message of a pending call can be: request on the wire, header taken by the
      slave, reply on the wire, reply header taken by the client. */
  predicate Asked(c: Connection) {
    && c.client.WaitHeader? && c.server.ReadHeader?
    && c.toServer.Contents() == RequestFrame(c.client.pending) && c.toClient.Contents() == []
  }

  predicate HalfRead(c: Connection) {
    && c.client.WaitHeader?
    && var p := c.client.pending;
       && c.server == ReadBody(p.tid, p.call.unit, ToWord(1 + |RequestPdu(p)|))
       && c.toServer.Contents() == RequestPdu(p) && c.toClient.Contents() == []
  }

  predicate Answered(c: Connection) {
    && c.client.WaitHeader? && c.server.ReadHeader? && c.toServer.Contents() == []
    && c.toClient.Contents() == ReplyFrame(c.client.pending, c.handled)
  }

  predicate HalfReturned(c: Connection) {
    && c.client.WaitBody? && c.server.ReadHeader? && c.toServer.Contents() == []
    && var pdu := ReplyPdu(RegsAt(c.handled), c.client.pending.call);
       && c.toClient.Contents() == pdu && c.client.length == ToWord(1 + |pdu|)
  }

  predicate Quiet(c: Connection) {
    c.client.Idle? && c.server.ReadHeader? && c.toServer.Contents() == [] && c.toClient.Contents() == []
  }

  /** The state of a clean connection. `now` is the number of executed updates, `ended` the number
      of returned calls. */
  predicate Sound(c: Connection, now: nat, ended: nat) {
    c.clean ==>
      || Quiet(c)
      || (&& !c.client.Idle?
          && var p := c.client.pending;
             && p.call.Faithful() && p.invoked <= now && p.since <= ended
             && (Asked(c) || HalfRead(c) || ((Answered(c) || HalfReturned(c)) && p.invoked <= c.handled <= now)))
  }

  /** A call that returned on a clean connection gave the local result for the registers as they
      were at one moment between its start and its end. */
  predicate Linearized(d: Record, now: nat) {
    && d.returned <= now
    && (d.clean ==> d.invoked <= d.handled <= d.returned && d.result == LocalRead(RegsAt(d.handled), d.call))
  }

  /** Calls that had returned before another was made returned no later than it was made. */
  predicate Ordered(log: seq<Record>, since: nat, invoked: nat) {
    since <= |log| && forall i :: 0 <= i < since ==> log[i].returned <= invoked
  }

  ghost predicate Inv(s: State) {
    && s.updates <= UPDATES
    && s.regs == RegsAt(s.updates)
    && (forall i :: 0 <= i < |s.conns| ==> Sound(s.conns[i], s.updates, |s.log|))
    && (forall i :: 0 <= i < |s.conns| && !s.conns[i].client.Idle? ==>
          Ordered(s.log, s.conns[i].client.pending.since, s.conns[i].client.pending.invoked))
    && (forall j :: 0 <= j < |s.log| ==>
          Linearized(s.log[j], s.updates) && s.log[j].since <= j && Ordered(s.log, s.log[j].since, s.log[j].invoked))
  }

  // ---------------------------------------------------------------- channels

  lemma DeliverContents(ch: Channel, k: nat)
    requires k <= |ch.transit|
    ensures ch.Deliver(k).Contents() == ch.Contents()
  {
    assert ch.transit == ch.transit[..k] + ch.transit[k..];
    Assoc(ch.arrived, ch.transit[..k], ch.transit[k..]);
  }

  lemma SendContents(ch: Channel, d: seq<byte>)
    ensures ch.Send(d).Contents() == ch.Contents() + d
  {
    Assoc(ch.arrived, ch.transit, d);
  }

  /** What has arrived is the front of the contents. */
  lemma DropContents(ch: Channel, k: nat)
    requires k <= |ch.arrived|
    ensures k <= |ch.Contents()| && ch.arrived[..k] == ch.Contents()[..k]
    ensures ch.Drop(k).Contents() == ch.Contents()[k..]
  {}

  // ---------------------------------------------------------------- one action of one connection

  lemma DeliverySound(s: State, c: Connection, a: Action)
    requires CanAct(c, a) && (a.ToServer? || a.ToClient?) && Sound(c, s.updates, |s.log|)
    ensures Sound(Act(s, c, a), s.updates, |s.log|)
  {
    hide RequestFrame, RequestPdu, ReplyFrame, ReplyPdu, RegsAt, Channel.Deliver, Channel.Contents;
    if a.ToServer? { DeliverContents(c.toServer, a.k); } else { DeliverContents(c.toClient, a.k); }
  }

  lemma InvokeSound(s: State, c: Connection, call: Call)
    requires CanAct(c, Invoke(call)) && Sound(c, s.updates, |s.log|)
    ensures Sound(DoInvoke(s, c, call), s.updates, |s.log|)
  {
    hide Frame, Encode, Channel.Send, Channel.Contents;
    var d := Frame(c.nextTid, call.unit, Encode(call.Request()));
    SendContents(c.toServer, d);
    if c.clean && call.Faithful() {
      assert [] + d == d;
      assert Asked(DoInvoke(s, c, call));
    }
  }

  lemma RequestSize(p: Pending)
    ensures |RequestPdu(p)| == 5
  {}

  lemma ServerHeaderSound(s: State, c: Connection)
    requires CanAct(c, ServerHeader) && c.clean && Sound(c, s.updates, |s.log|)
    ensures Asked(c) && HalfRead(DoServerHeader(c)) && Sound(DoServerHeader(c), s.updates, |s.log|)
  {
    hide Frame, Encode, ReplyFrame, ReplyPdu, RegsAt, Channel.Drop, ParseHeader;
    DropContents(c.toServer, HEADER_SIZE);
    hide Channel.Contents;
    assert Asked(c);
    var p := c.client.pending;
    var pdu := RequestPdu(p);
    RequestSize(p);
    hide RequestPdu;
    FrameStart(p.tid, p.call.unit, pdu, []);
    assert RequestFrame(p) + [] == RequestFrame(p) && pdu + [] == pdu;
    assert HalfRead(DoServerHeader(c));
  }

  lemma ServerBodySound(s: State, c: Connection)
    requires CanAct(c, ServerBody) && c.clean && Sound(c, s.updates, |s.log|) && s.regs == RegsAt(s.updates)
    ensures Sound(DoServerBody(s, c), s.updates, |s.log|)
  {
    hide Frame, Encode, Decode, EncodeReply, Handle, RegsAt, Channel.Drop, Channel.Send;
    assert HalfRead(c);
    var p := c.client.pending;
    var pdu := RequestPdu(p);
    RequestSize(p);
    DropContents(c.toServer, 5);
    hide Channel.Contents;
    assert pdu[..5] == pdu && pdu[5..] == [];
    assert pdu + [] == pdu;
    DecodeIffEncode(pdu, p.call.Request(), []);
    SendContents(c.toClient, ReplyFrame(p, s.updates));
    assert [] + ReplyFrame(p, s.updates) == ReplyFrame(p, s.updates);
    assert Answered(DoServerBody(s, c));
  }

  lemma ClientHeaderSound(s: State, c: Connection)
    requires CanAct(c, ClientHeader) && c.clean && Sound(c, s.updates, |s.log|)
    ensures Sound(DoClientHeader(c), s.updates, |s.log|) && Logged(s, c, ClientHeader) == []
  {
    hide Frame, Encode, RequestFrame, RequestPdu, ReplyPdu, RegsAt, Channel.Drop, ParseHeader;
    DropContents(c.toClient, HEADER_SIZE);
    hide Channel.Contents;
    assert Answered(c);
    var p := c.client.pending;
    var pdu := ReplyPdu(RegsAt(c.handled), p.call);
    FaithfulConclusion(RegsAt(c.handled), p.call);
    FrameStart(p.tid, p.call.unit, pdu, []);
    assert ReplyFrame(p, c.handled) + [] == ReplyFrame(p, c.handled) && pdu + [] == pdu;
    HeaderChecks(p.tid, p.call.unit, pdu);
    hide CheckHeader, FrameHeader;
    assert HalfReturned(DoClientHeader(c));
  }

  lemma HeaderChecks(tid: word, unit: byte, pdu: seq<byte>)
    requires 1 <= |pdu| <= 248
    ensures CheckHeader(FrameHeader(tid, unit, pdu), tid, unit) == SUCCESS
    ensures FrameHeader(tid, unit, pdu).length == ToWord(1 + |pdu|)
  {}

  lemma ClientBodySound(s: State, c: Connection)
    requires CanAct(c, ClientBody) && c.clean && Sound(c, s.updates, |s.log|)
    ensures Sound(DoClientBody(c), s.updates, |s.log|)
    ensures Logged(s, c, ClientBody) ==
            [Record(c.client.pending.call, LocalRead(RegsAt(c.handled), c.client.pending.call),
                    c.client.pending.invoked, c.client.pending.since, c.handled, s.updates, true)]
    ensures c.client.pending.invoked <= c.handled <= s.updates
  {
    hide Frame, Encode, RequestFrame, RequestPdu, ReplyFrame, ReplyPdu, RegsAt, Channel.Drop, Conclude;
    assert HalfReturned(c);
    var p := c.client.pending;
    var pdu := ReplyPdu(RegsAt(c.handled), p.call);
    FaithfulConclusion(RegsAt(c.handled), p.call);
    DropContents(c.toClient, |pdu|);
    hide Channel.Contents;
    assert pdu[..|pdu|] == pdu && pdu[|pdu|..] == [];
    assert Quiet(DoClientBody(c));
  }

  /** Only an unfaithful call makes a connection unclean, and nothing makes it clean again. */
  lemma CleanAfter(s: State, c: Connection, a: Action)
    requires CanAct(c, a)
    ensures Act(s, c, a).clean == (c.clean && (a.Invoke? ==> a.call.Faithful()))
  {
    hide Complaint, Answer, Decode, CheckHeader, ParseHeader, Frame, Encode;
  }

  /** Every action keeps a connection sound. */
  lemma ActSound(s: State, c: Connection, a: Action)
    requires CanAct(c, a) && Sound(c, s.updates, |s.log|) && s.regs == RegsAt(s.updates)
    ensures Sound(Act(s, c, a), s.updates, |s.log|)
  {
    CleanAfter(s, c, a);
    if !c.clean { return; }
    hide Sound, RegsAt, DoInvoke, DoServerHeader, DoServerBody, DoClientHeader, DoClientBody;
    match a {
      case Invoke(call) => InvokeSound(s, c, call);
      case ToServer(_) => DeliverySound(s, c, a);
      case ToClient(_) => DeliverySound(s, c, a);
      case ServerHeader => ServerHeaderSound(s, c);
      case ServerBody => ServerBodySound(s, c);
      case ClientHeader => ClientHeaderSound(s, c);
      case ClientBody => ClientBodySound(s, c);
    }
  }

  /** An action that returns a call leaves the client idle; if it returns a call of a clean
      connection, the result is the local one for the registers when the slave handled it. */
  lemma LoggedSound(s: State, c: Connection, a: Action)
    requires CanAct(c, a) && Sound(c, s.updates, |s.log|)
    ensures |Logged(s, c, a)| <= 1
    ensures Logged(s, c, a) != [] ==>
              var d := Logged(s, c, a)[0];
              && Act(s, c, a).client.Idle? && Linearized(d, s.updates)
              && if a.Invoke? then d.since == |s.log| && d.invoked == s.updates
                 else !c.client.Idle? && d.since == c.client.pending.since && d.invoked == c.client.pending.invoked
  {
    hide Sound, RegsAt, Conclude, LocalRead, CheckHeader, ParseHeader, WordRead, Frame, Encode;
    if a.ClientHeader? && c.clean { ClientHeaderSound(s, c); }
    if a.ClientBody? && c.clean { ClientBodySound(s, c); }
  }

  lemma SoundLater(c: Connection, now: nat, ended: nat, now': nat, ended': nat)
    requires Sound(c, now, ended) && now <= now' && ended <= ended'
    ensures Sound(c, now', ended')
  {
    hide Asked, HalfRead, Answered, HalfReturned;
  }

  /** The pending call of a connection changes only by being made or by returning. */
  lemma PendingKept(s: State, c: Connection, a: Action)
    requires CanAct(c, a) && !a.Invoke? && !Act(s, c, a).client.Idle?
    ensures !c.client.Idle? && Act(s, c, a).client.pending == c.client.pending
  {
    hide Complaint, Answer, Decode, CheckHeader, ParseHeader;
  }

  // ---------------------------------------------------------------- every step of the system

  lemma InvStart()
    ensures Inv(Start())
  {
    assert Start().regs == RegsAt(0);
  }

  lemma InvUpdate(s: State)
    requires Inv(s) && CanStep(s, Update)
    ensures Inv(Apply(s, Update))
  {
    hide Sound, LocalRead;
    var t := Apply(s, Update);
    assert t.regs == RegsAt(t.updates);
    forall i | 0 <= i < |t.conns| ensures Sound(t.conns[i], t.updates, |t.log|) {
      SoundLater(s.conns[i], s.updates, |s.log|, t.updates, |t.log|);
    }
  }

  lemma InvAccept(s: State)
    requires Inv(s)
    ensures Inv(Apply(s, Accept))
  {
    assert Quiet(FRESH);
    hide Sound, LocalRead, RegsAt;
    var t := Apply(s, Accept);
    forall i | 0 <= i < |t.conns| ensures Sound(t.conns[i], t.updates, |t.log|) {
      if i == |s.conns| { FreshSound(t.updates, |t.log|); }
    }
  }

  lemma FreshSound(now: nat, ended: nat)
    ensures Sound(FRESH, now, ended)
  {
    assert Quiet(FRESH);
  }

  /** Calls that return later do not matter to the order. */
  lemma OrderedLater(log: seq<Record>, more: seq<Record>, since: nat, invoked: nat)
    requires Ordered(log, since, invoked)
    ensures Ordered(log + more, since, invoked)
  {}

  lemma InvAction(s: State, i: nat, a: Action)
    requires Inv(s) && CanStep(s, At(i, a))
    ensures Inv(Apply(s, At(i, a)))
  {
    hide Sound, RegsAt, Act, CanAct, Logged, Linearized, Ordered;
    var c, t := s.conns[i], Apply(s, At(i, a));
    ActSound(s, c, a);
    LoggedSound(s, c, a);
    forall k | 0 <= k < |t.conns| ensures Sound(t.conns[k], t.updates, |t.log|) {
      SoundLater(if k == i then Act(s, c, a) else s.conns[k], s.updates, |s.log|, t.updates, |t.log|);
    }
    forall k | 0 <= k < |t.conns| && !t.conns[k].client.Idle?
      ensures Ordered(t.log, t.conns[k].client.pending.since, t.conns[k].client.pending.invoked)
    {
      var p := t.conns[k].client.pending;
      if k == i {
        if a.Invoke? { InvokeOrdered(s, c, a); } else { PendingKept(s, c, a); }
      }
      assert Ordered(s.log, p.since, p.invoked);
      OrderedLater(s.log, Logged(s, c, a), p.since, p.invoked);
    }
    LogKept(s, i, a);
  }

  lemma LogKept(s: State, i: nat, a: Action)
    requires Inv(s) && CanStep(s, At(i, a))
    ensures var t := Apply(s, At(i, a));
            forall j :: 0 <= j < |t.log| ==>
              Linearized(t.log[j], t.updates) && t.log[j].since <= j && Ordered(t.log, t.log[j].since, t.log[j].invoked)
  {
    hide Sound, RegsAt, Act, CanAct, Logged, Linearized;
    var c, t := s.conns[i], Apply(s, At(i, a));
    LoggedSound(s, c, a);
    forall j | 0 <= j < |t.log|
      ensures Linearized(t.log[j], t.updates) && t.log[j].since <= j && Ordered(t.log, t.log[j].since, t.log[j].invoked)
    {
      if j < |s.log| {
        assert t.log[j] == s.log[j];
      } else {
        if a.Invoke? { AllReturned(s); }
        assert Ordered(s.log, t.log[j].since, t.log[j].invoked);
      }
      hide Ordered;
      OrderedLater(s.log, Logged(s, c, a), t.log[j].since, t.log[j].invoked);
    }
  }

  lemma AllReturned(s: State)
    requires Inv(s)
    ensures Ordered(s.log, |s.log|, s.updates)
  {
    hide Sound, LocalRead, RegsAt;
    assert forall j :: 0 <= j < |s.log| ==> Linearized(s.log[j], s.updates);
  }

  lemma InvokeOrdered(s: State, c: Connection, a: Action)
    requires Inv(s) && CanAct(c, a) && a.Invoke? && !Act(s, c, a).client.Idle?
    ensures var p := Act(s, c, a).client.pending; Ordered(s.log, p.since, p.invoked)
  {
    hide Sound, LocalRead, RegsAt, Frame, Encode;
    AllReturned(s);
  }

  lemma InvStep(s: State, step: Step)
    requires Inv(s) && CanStep(s, step)
    ensures Inv(Apply(s, step))
  {
    hide Inv, Apply, CanAct;
    match step {
      case Accept => InvAccept(s);
      case Update => InvUpdate(s);
      case At(i, a) => InvAction(s, i, a);
    }
  }

  lemma {:induction false} InvRun(s: State, steps: seq<Step>, t: State)
    requires Inv(s) && Reaches(s, steps, t)
    ensures Inv(t)
    decreases |steps|
  {
    hide Inv, Apply, CanStep;
    if steps != [] {
      InvStep(s, steps[0]);
      InvRun(Apply(s, steps[0]), steps[1..], t);
    }
  }

  lemma ReachableInv(s: State)
    requires Reachable(s)
    ensures Inv(s)
  {
    hide Inv, Reaches;
    var steps: seq<Step> :| Reaches(Start(), steps, s);
    InvStart();
    InvRun(Start(), steps, s);
  }

  // ---------------------------------------------------------------- what every run guarantees

  /** Remote equals local, over every run: on a connection whose calls so far were faithful,
      whatever calls the other connections make, each returned call gave exactly the registers or
      the exception that a local read gives on the registers as they were at one moment between
      the start and the end of the call; so no such call ever failed on an id, a length or a
      decode. */
  lemma EveryCallLinearized(s: State, j: nat)
    requires Reachable(s) && j < |s.log| && s.log[j].clean
    ensures var d := s.log[j];
            && d.invoked <= d.handled <= d.returned <= s.updates
            && d.result == LocalRead(RegsAt(d.handled), d.call)
            && (d.result.Failed? ==> d.result.ec == ILLEGAL_DATA_VALUE || d.result.ec == ILLEGAL_DATA_ADDRESS)
            && !d.result.Lost?
  {
    hide Reachable;
    ReachableInv(s);
    assert Linearized(s.log[j], s.updates);
  }

  /** Between faithful calls nothing is left in either direction, and the slave waits for a header. */
  lemma IdleConnectionsAreEmpty(s: State, i: nat)
    requires Reachable(s) && i < |s.conns| && s.conns[i].client.Idle? && s.conns[i].clean
    ensures var c := s.conns[i];
            c.toServer == Channel([], []) && c.toClient == Channel([], []) && c.server == ReadHeader
  {
    hide Reachable;
    ReachableInv(s);
    assert Sound(s.conns[i], s.updates, |s.log|);
  }

  /** No torn reads: between tasks all registers are equal, and every successful reply carries the
      requested number of copies of one value that had been current during the call. */
  lemma NoTornReads(s: State, j: nat)
    requires Reachable(s)
    ensures s.regs == seq(REGISTER_COUNT, _ => ValueAt(s.updates))
    ensures j < |s.log| && s.log[j].clean && s.log[j].result.Values? ==>
              s.log[j].result.registers == seq(s.log[j].call.size, _ => ValueAt(s.log[j].handled))
  {
    hide Reachable;
    ReachableInv(s);
    if j < |s.log| && s.log[j].clean && s.log[j].result.Values? {
      assert Linearized(s.log[j], s.updates);
      var call := s.log[j].call;
      var ws := RegsAt(s.log[j].handled)[call.address..call.address + call.size];
      assert ws == seq(call.size, _ => ValueAt(s.log[j].handled));
    }
  }

  lemma ValuesGrow(k: nat, k': nat)
    requires k <= k' <= UPDATES
    ensures ValueAt(k) <= ValueAt(k')
  {}

  /** Reads respect real time across connections: if call `i` had returned before call `j` was
      made, `j` saw registers at least as new, so its value is at least as large. */
  lemma ReadsNeverGoBack(s: State, i: nat, j: nat)
    requires Reachable(s) && j < |s.log| && i < s.log[j].since && i < |s.log| && s.log[i].clean && s.log[j].clean
    ensures s.log[i].handled <= s.log[j].handled
    ensures s.log[i].result.Values? && s.log[j].result.Values? ==>
              forall a, b :: 0 <= a < |s.log[i].result.registers| && 0 <= b < |s.log[j].result.registers| ==>
                s.log[i].result.registers[a] <= s.log[j].result.registers[b]
  {
    hide Reachable, LocalRead, Sound;
    ReachableInv(s);
    assert Ordered(s.log, s.log[j].since, s.log[j].invoked);
    assert Linearized(s.log[i], s.updates) && Linearized(s.log[j], s.updates);
    NoTornReads(s, i);
    NoTornReads(s, j);
    ValuesGrow(s.log[i].handled, s.log[j].handled);
  }

  // ---------------------------------------------------------------- linearization points

  /** No call is made on connection `i` in the run. */
  ghost predicate NoInvoke(steps: seq<Step>, i: nat) {
    forall k :: 0 <= k < |steps| ==> !(steps[k].At? && steps[k].i == i && steps[k].action.Invoke?)
  }

  /** Runs only add to the log and to the number of updates, and a call that is pending at the end
      of a run without new calls was pending all along. */
  lemma {:induction false} PendingRun(s: State, steps: seq<Step>, t: State, i: nat)
    requires Reaches(s, steps, t) && i < |s.conns| && NoInvoke(steps, i)
    ensures s.updates <= t.updates && |s.log| <= |t.log| && t.log[..|s.log|] == s.log && i < |t.conns|
    ensures !t.conns[i].client.Idle? ==> !s.conns[i].client.Idle? && t.conns[i].client.pending == s.conns[i].client.pending
    decreases |steps|
  {
    hide Act, CanAct, Logged;
    if steps != [] {
      var step, s' := steps[0], Apply(s, steps[0]);
      PendingRun(s', steps[1..], t, i);
      assert t.log[..|s.log|] == t.log[..|s'.log|][..|s.log|];
      if step.At? && step.i == i && !s'.conns[i].client.Idle? {
        PendingKept(s, s.conns[i], step.action);
      }
    }
  }

  /** The record of a returned call tells the run: it names the call, and the updates and returned
      calls at the moment the call was made and at the moment it returned. */
  lemma RecordTellsTheRun(s: State, i: nat, call: Call, steps: seq<Step>, t: State, a: Action)
    requires CanStep(s, At(i, Invoke(call))) && call.unit != 0
    requires Reaches(Apply(s, At(i, Invoke(call))), steps, t) && NoInvoke(steps, i)
    requires CanStep(t, At(i, a)) && !a.Invoke? && Logged(t, t.conns[i], a) != []
    ensures s.updates <= t.updates && |s.log| <= |t.log| && t.log[..|s.log|] == s.log
    ensures var d := Logged(t, t.conns[i], a)[0];
            d.call == call && d.invoked == s.updates && d.since == |s.log| && d.returned == t.updates
  {
    hide Reaches, Frame, Encode, Conclude, CheckHeader, ParseHeader;
    PendingRun(Apply(s, At(i, Invoke(call))), steps, t, i);
  }

  /** The number of executed updates passes through every value in between. */
  lemma {:induction false} Moment(s: State, steps: seq<Step>, t: State, k: nat) returns (j: nat, u: State)
    requires Reaches(s, steps, t) && s.updates <= k <= t.updates
    ensures j <= |steps| && Reaches(s, steps[..j], u) && Reaches(u, steps[j..], t) && u.updates == k
    decreases |steps|
  {
    hide CanAct, Act, Logged;
    if s.updates == k {
      j, u := 0, s;
      assert steps[0..] == steps;
    } else {
      assert steps != [];
      var s' := Apply(s, steps[0]);
      j, u := Moment(s', steps[1..], t, k);
      assert steps[..j + 1][1..] == steps[1..][..j] && steps[j + 1..] == steps[1..][j..];
      j := j + 1;
    }
  }

  lemma {:induction false} ReachableRun(s: State, steps: seq<Step>, t: State)
    requires Reachable(s) && Reaches(s, steps, t)
    ensures Reachable(t)
    decreases |steps|
  {
    hide Reachable, Apply, CanStep;
    if steps != [] {
      ReachableStep(s, steps[0]);
      ReachableRun(Apply(s, steps[0]), steps[1..], t);
    }
  }

  /** Linearizability without history variables: for every call made in a reachable state and every
      run after which it returns, on a connection that is clean then, the run passes through a state
      whose registers give the returned result when read locally. */
  lemma LinearizationPoint(s: State, i: nat, call: Call, steps: seq<Step>, t: State, a: Action) returns (j: nat, u: State)
    requires Reachable(s) && CanStep(s, At(i, Invoke(call))) && call.unit != 0
    requires Reaches(Apply(s, At(i, Invoke(call))), steps, t) && NoInvoke(steps, i)
    requires CanStep(t, At(i, a)) && !a.Invoke? && Logged(t, t.conns[i], a) != [] && t.conns[i].clean
    ensures j <= |steps| && Reaches(Apply(s, At(i, Invoke(call))), steps[..j], u) && Reaches(u, steps[j..], t)
    ensures Logged(t, t.conns[i], a)[0].result == LocalRead(u.regs, call)
  {
    hide Reachable, Reaches, LocalRead, RegsAt, Sound, Act, CanAct;
    var s' := Apply(s, At(i, Invoke(call)));
    ReachableStep(s, At(i, Invoke(call)));
    ReachableRun(s', steps, t);
    ReachableInv(t);
    RecordTellsTheRun(s, i, call, steps, t, a);
    LoggedSound(t, t.conns[i], a);
    var d := Logged(t, t.conns[i], a)[0];
    assert d.clean by { LoggedClean(t, t.conns[i], a); }
    j, u := Moment(s', steps, t, d.handled);
    ReachableRun(s', steps[..j], u);
    ReachableInv(u);
  }

  lemma LoggedClean(s: State, c: Connection, a: Action)
    requires CanAct(c, a) && !a.Invoke? && Logged(s, c, a) != []
    ensures Logged(s, c, a)[0].clean == c.clean
  {
    hide Conclude, CheckHeader, ParseHeader;
  }

  /** The calls made on connection `i` in a run. */
  function InvokeCount(steps: seq<Step>, i: nat): nat {
    if steps == [] then 0 else Made(steps[0], i) + InvokeCount(steps[1..], i)
  }

  function Made(step: Step, i: nat): nat { if step.At? && step.i == i && step.action.Invoke? then 1 else 0 }

  /** Transaction ids count the calls of their connection from 0, modulo 65536. */
  lemma TransactionIdsCount(s: State, steps: seq<Step>, i: nat)
    requires Reaches(Start(), steps, s) && i < |s.conns|
    ensures s.conns[i].nextTid == InvokeCount(steps, i) % 0x1_0000
  {
    hide Reaches, InvokeCount;
    TransactionIdRun(Start(), steps, s, i);
  }

  /** The next transaction id of connection `i`, which may be still to come. */
  function TidOf(s: State, i: nat): word { if i < |s.conns| then s.conns[i].nextTid else 0 }

  lemma {:induction false} TransactionIdRun(s: State, steps: seq<Step>, t: State, i: nat)
    requires Reaches(s, steps, t)
    ensures TidOf(t, i) == (TidOf(s, i) + InvokeCount(steps, i)) % 0x1_0000
    decreases |steps|
  {
    hide Apply, CanStep, TidOf, Made;
    if steps != [] {
      var s' := Apply(s, steps[0]);
      TransactionIdStep(s, steps[0], i);
      TransactionIdRun(s', steps[1..], t, i);
      AddAfterWrap(TidOf(s, i) + Made(steps[0], i), InvokeCount(steps[1..], i));
    }
  }

  lemma TransactionIdStep(s: State, step: Step, i: nat)
    requires CanStep(s, step)
    ensures TidOf(Apply(s, step), i) == (TidOf(s, i) + Made(step, i)) % 0x1_0000
  {
    hide Act, CanAct, Logged;
    if step.At? { NextTidAfter(s, s.conns[step.i], step.action); }
  }

  lemma AddAfterWrap(a: nat, b: nat)
    ensures (a % 0x1_0000 + b) % 0x1_0000 == (a + b) % 0x1_0000
  {}

  lemma NextTidAfter(s: State, c: Connection, a: Action)
    requires CanAct(c, a)
    ensures Act(s, c, a).nextTid == (c.nextTid + if a.Invoke? then 1 else 0) % 0x1_0000
  {
    hide Complaint, Answer, Decode, CheckHeader, ParseHeader, Frame, Encode;
  }

  // ---------------------------------------------------------------- the slave's side

  /** The requests `qs` are on their way to the slave, whole or with the first header taken. */
  ghost predicate Queued(c: Connection, qs: seq<Sent>) {
    && (forall i :: 0 <= i < |qs| ==> qs[i].request.Plain? && qs[i].request.Consistent())
    && match c.server
       case ReadHeader => c.toServer.Contents() == RequestStream(qs)
       case ReadBody(tid, unit, length) =>
         && qs != [] && tid == qs[0].tid && unit == qs[0].unit && length == 6
         && c.toServer.Contents() == Encode(qs[0].request) + RequestStream(qs[1..])
       case Stopped => false
  }

  /** The slave reads on frame boundaries. */
  ghost predicate SlaveInStep(c: Connection) { exists qs: seq<Sent> :: Queued(c, qs) }

  lemma {:induction false} RequestStreamSnoc(qs: seq<Sent>, q: Sent)
    ensures RequestStream(qs + [q]) == RequestStream(qs) + Frame(q.tid, q.unit, Encode(q.request))
  {
    hide Frame, Encode;
    var f := Frame(q.tid, q.unit, Encode(q.request));
    if qs == [] {
      assert [q][1..] == [] && [] + [q] == [q];
      assert f + [] == f && [] + f == f;
    } else {
      assert (qs + [q])[1..] == qs[1..] + [q];
      RequestStreamSnoc(qs[1..], q);
      Assoc(Frame(qs[0].tid, qs[0].unit, Encode(qs[0].request)), RequestStream(qs[1..]), f);
    }
  }

  lemma QueuedInvoke(s: State, c: Connection, call: Call, qs: seq<Sent>)
    requires Queued(c, qs)
    ensures Queued(DoInvoke(s, c, call), qs + [Sent(c.nextTid, call.unit, call.Request())])
  {
    hide Frame, Encode, RequestStream, Channel.Send, Channel.Contents;
    var q := Sent(c.nextTid, call.unit, call.Request());
    var f := Frame(q.tid, q.unit, Encode(q.request));
    SendContents(c.toServer, f);
    if c.server.ReadBody? {
      assert (qs + [q])[1..] == qs[1..] + [q];
      RequestStreamSnoc(qs[1..], q);
      Assoc(Encode(qs[0].request), RequestStream(qs[1..]), f);
    } else {
      RequestStreamSnoc(qs, q);
    }
  }

  lemma PlainSize(r: Request)
    requires r.Plain?
    ensures |Encode(r)| == 5
  {}

  lemma QueuedHeader(c: Connection, qs: seq<Sent>)
    requires CanAct(c, ServerHeader) && Queued(c, qs)
    ensures Queued(DoServerHeader(c), qs)
  {
    hide Frame, Encode, ParseHeader, Complaint, Channel.Drop;
    DropContents(c.toServer, HEADER_SIZE);
    hide Channel.Contents;
    var q, rest := qs[0], RequestStream(qs[1..]);
    PlainSize(q.request);
    FrameStart(q.tid, q.unit, Encode(q.request), rest);
  }

  lemma QueuedBody(s: State, c: Connection, qs: seq<Sent>)
    requires CanAct(c, ServerBody) && Queued(c, qs)
    ensures qs != [] && Queued(DoServerBody(s, c), qs[1..])
  {
    hide Frame, Encode, Decode, Answer, Channel.Drop, Channel.Send;
    DropContents(c.toServer, 5);
    hide Channel.Contents;
    var pdu, rest := Encode(qs[0].request), RequestStream(qs[1..]);
    PlainSize(qs[0].request);
    assert (pdu + rest)[..5] == pdu && (pdu + rest)[5..] == rest;
    assert pdu + [] == pdu;
    DecodeIffEncode(pdu, qs[0].request, []);
  }

  lemma ActInStep(s: State, c: Connection, a: Action)
    requires CanAct(c, a) && SlaveInStep(c)
    ensures SlaveInStep(Act(s, c, a))
  {
    hide Queued, DoServerHeader, DoServerBody, Complaint, Answer, Frame, Encode;
    var qs: seq<Sent> :| Queued(c, qs);
    if a.Invoke? {
      QueuedInvoke(s, c, a.call, qs);
      assert Queued(Act(s, c, a), qs + [Sent(c.nextTid, a.call.unit, a.call.Request())]);
    } else if a.ServerHeader? {
      QueuedHeader(c, qs);
      assert Queued(Act(s, c, a), qs);
    } else if a.ServerBody? {
      QueuedBody(s, c, qs);
      assert Queued(Act(s, c, a), qs[1..]);
    } else {
      QueuedElsewhere(s, c, a, qs);
    }
  }

  lemma QueuedElsewhere(s: State, c: Connection, a: Action, qs: seq<Sent>)
    requires CanAct(c, a) && Queued(c, qs) && !a.Invoke? && !a.ServerHeader? && !a.ServerBody?
    ensures Queued(Act(s, c, a), qs)
  {
    hide RequestStream, Encode, ParseHeader, CheckHeader, Channel.Drop, Channel.Deliver, Channel.Contents;
    if a.ToServer? { DeliverContents(c.toServer, a.k); }
  }

  lemma {:induction false} InStepRun(s: State, steps: seq<Step>, t: State, i: nat)
    requires Reaches(s, steps, t) && (forall k :: 0 <= k < |s.conns| ==> SlaveInStep(s.conns[k])) && i < |t.conns|
    ensures SlaveInStep(t.conns[i])
    decreases |steps|
  {
    hide SlaveInStep, Act, CanAct, Logged;
    if steps != [] {
      var s' := Apply(s, steps[0]);
      forall k | 0 <= k < |s'.conns| ensures SlaveInStep(s'.conns[k]) {
        if steps[0].Accept? && k == |s.conns| {
          FreshInStep();
        } else if steps[0].At? && k == steps[0].i {
          ActInStep(s, s.conns[k], steps[0].action);
        }
      }
      InStepRun(s', steps[1..], t, i);
    }
  }

  lemma FreshInStep()
    ensures SlaveInStep(FRESH)
  {
    assert Queued(FRESH, []);
  }

  /** The message loop never stops on the traffic of masters and stays on frame boundaries, also on
      connections whose masters have made unfaithful calls. */
  lemma SlaveNeverStops(s: State, i: nat)
    requires Reachable(s) && i < |s.conns|
    ensures s.conns[i].server != Stopped && SlaveInStep(s.conns[i])
  {
    hide Reaches;
    var steps: seq<Step> :| Reaches(Start(), steps, s);
    InStepRun(Start(), steps, s, i);
  }

  /** The calls made on connection `i` in a run were all faithful. */
  ghost predicate OnlyFaithful(steps: seq<Step>, i: nat) {
    forall k :: 0 <= k < |steps| && steps[k].At? && steps[k].i == i && steps[k].action.Invoke? ==>
      steps[k].action.call.Faithful()
  }

  /** `clean` says exactly that. */
  lemma CleanIff(s: State, steps: seq<Step>, i: nat)
    requires Reaches(Start(), steps, s) && i < |s.conns|
    ensures s.conns[i].clean <==> OnlyFaithful(steps, i)
  {
    hide Reaches;
    CleanRun(Start(), steps, s, i);
  }

  lemma {:induction false} CleanRun(s: State, steps: seq<Step>, t: State, i: nat)
    requires Reaches(s, steps, t) && i < |t.conns|
    ensures t.conns[i].clean <==> (i < |s.conns| ==> s.conns[i].clean) && OnlyFaithful(steps, i)
    decreases |steps|
  {
    hide Act, CanAct, Logged, Call.Faithful;
    if steps != [] {
      var step, s' := steps[0], Apply(s, steps[0]);
      if step.At? { CleanAfter(s, s.conns[step.i], step.action); }
      CleanRun(s', steps[1..], t, i);
      assert OnlyFaithful(steps, i) <==> OnlyFaithful([step], i) && OnlyFaithful(steps[1..], i) by {
        assert steps == [step] + steps[1..];
        FaithfulConcat([step], steps[1..], i);
      }
      assert [step][0] == step;
    }
  }

  lemma FaithfulConcat(a: seq<Step>, b: seq<Step>, i: nat)
    ensures OnlyFaithful(a + b, i) <==> OnlyFaithful(a, i) && OnlyFaithful(b, i)
  {
    hide Call.Faithful;
    assert forall k :: 0 <= k < |b| ==> (a + b)[|a| + k] == b[k];
    assert forall k :: 0 <= k < |a| ==> (a + b)[k] == a[k];
  }

  // ---------------------------------------------------------------- progress

  /** How far a pending call is from its return. */
  function Rank(c: Connection): nat {
    |c.toServer.transit| + |c.toClient.transit| +
    match (c.client, c.server)
    case (Idle, _) => 0
    case (WaitBody(_, _), _) => 200
    case (WaitHeader(_), ReadBody(_, _, _)) => 800
    case (WaitHeader(_), _) => if c.toServer.Contents() != [] then 900 else 400
  }

  /** A pending call is never stuck: one of the steps of its own connection is possible. */
  lemma NeverStuck(s: State, i: nat)
    requires Reachable(s) && i < |s.conns| && !s.conns[i].client.Idle? && s.conns[i].clean
    ensures exists a: Action :: !a.Invoke? && CanAct(s.conns[i], a)
  {
    hide Reachable;
    ReachableInv(s);
    assert Sound(s.conns[i], s.updates, |s.log|);
    PendingActs(s.conns[i], s.updates, |s.log|);
  }

  lemma PendingActs(c: Connection, now: nat, ended: nat)
    requires Sound(c, now, ended) && !c.client.Idle? && c.clean
    ensures exists a: Action :: !a.Invoke? && CanAct(c, a)
  {
    hide Sound;
    if |c.toServer.transit| > 0 {
      assert CanAct(c, ToServer(1));
    } else if |c.toClient.transit| > 0 {
      assert CanAct(c, ToClient(1));
    } else {
      AllArrived(c.toServer);
      AllArrived(c.toClient);
      ArrivedActs(c, now, ended);
    }
  }

  lemma ArrivedActs(c: Connection, now: nat, ended: nat)
    requires Sound(c, now, ended) && !c.client.Idle? && c.clean
    requires c.toServer.Contents() == c.toServer.arrived && c.toClient.Contents() == c.toClient.arrived
    ensures exists a: Action :: !a.Invoke? && CanAct(c, a)
  {
    hide RequestPdu, ReplyPdu, RegsAt, Frame, Channel.Contents, Conclude, LocalRead;
    var p := c.client.pending;
    FaithfulConclusion(RegsAt(c.handled), p.call);
    RequestSize(p);
    if Asked(c) {
      assert CanAct(c, ServerHeader);
    } else if HalfRead(c) {
      assert CanAct(c, ServerBody);
    } else if Answered(c) {
      assert CanAct(c, ClientHeader);
    } else {
      assert CanAct(c, ClientBody);
    }
  }

  lemma AllArrived(ch: Channel)
    requires |ch.transit| == 0
    ensures ch.Contents() == ch.arrived
  {}

  /** Every step of its connection brings a pending call closer to its return. */
  lemma EveryStepAdvances(s: State, i: nat, a: Action)
    requires Reachable(s) && i < |s.conns| && !s.conns[i].client.Idle? && s.conns[i].clean && CanAct(s.conns[i], a)
    ensures Rank(Act(s, s.conns[i], a)) < Rank(s.conns[i])
  {
    hide Reachable;
    ReachableInv(s);
    assert Sound(s.conns[i], s.updates, |s.log|);
    ActAdvances(s, s.conns[i], a);
  }

  lemma ActAdvances(s: State, c: Connection, a: Action)
    requires CanAct(c, a) && Sound(c, s.updates, |s.log|) && s.regs == RegsAt(s.updates) && !c.client.Idle? && c.clean
    ensures Rank(Act(s, c, a)) < Rank(c)
  {
    hide Frame, Encode, Decode, ReplyPdu, RegsAt, ParseHeader, CheckHeader, Answer;
    match a {
      case ToServer(k) => DeliverContents(c.toServer, k);
      case ToClient(k) => DeliverContents(c.toClient, k);
      case ServerHeader => ServerHeaderAdvances(s, c);
      case ServerBody => ServerBodyAdvances(s, c);
      case ClientHeader => ClientHeaderSound(s, c);
      case ClientBody =>
    }
  }

  lemma ServerHeaderAdvances(s: State, c: Connection)
    requires CanAct(c, ServerHeader) && c.clean && Sound(c, s.updates, |s.log|) && !c.client.Idle?
    ensures Rank(DoServerHeader(c)) < Rank(c)
  {
    hide Frame, Encode, ReplyPdu, RegsAt, ParseHeader, Complaint;
    ServerHeaderSound(s, c);
  }

  lemma ServerBodyAdvances(s: State, c: Connection)
    requires CanAct(c, ServerBody) && c.clean && Sound(c, s.updates, |s.log|) && s.regs == RegsAt(s.updates)
    ensures Rank(DoServerBody(s, c)) < Rank(c)
  {
    hide Frame, Encode, Decode, ReplyPdu, RegsAt, EncodeReply, Handle;
    ServerBodySound(s, c);
    var t := DoServerBody(s, c);
    assert HalfRead(c);
    assert Answered(t);
    FaithfulConclusion(RegsAt(t.handled), t.client.pending.call);
  }

  lemma {:induction false} ReachesSnoc(s: State, steps: seq<Step>, t: State, step: Step)
    requires Reaches(s, steps, t) && CanStep(t, step)
    ensures Reaches(s, steps + [step], Apply(t, step))
    decreases |steps|
  {
    hide Apply, CanStep;
    if steps == [] {
      assert ([step])[1..] == [];
    } else {
      assert (steps + [step])[1..] == steps[1..] + [step];
      ReachesSnoc(Apply(s, steps[0]), steps[1..], t, step);
    }
  }

  lemma ReachableStep(s: State, step: Step)
    requires Reachable(s) && CanStep(s, step)
    ensures Reachable(Apply(s, step))
  {
    hide Reaches, Apply, CanStep;
    var steps: seq<Step> :| Reaches(Start(), steps, s);
    ReachesSnoc(Start(), steps, s, step);
  }

  /** From every reachable state a pending call can be driven to its return by steps of its own
      connection alone, in at most `Rank` of them, and then exactly that call is logged. */
  lemma {:induction false} EveryCallCanReturn(s: State, i: nat) returns (steps: seq<Step>, t: State)
    requires Reachable(s) && i < |s.conns| && !s.conns[i].client.Idle? && s.conns[i].clean
    ensures Reaches(s, steps, t) && |steps| <= Rank(s.conns[i])
    ensures i < |t.conns| && t.conns[i].client.Idle? && t.updates == s.updates
    ensures |t.log| == |s.log| + 1 && t.log[..|s.log|] == s.log && t.log[|s.log|].call == s.conns[i].client.pending.call
    decreases Rank(s.conns[i])
  {
    hide Reachable, CanAct, Act, Rank, Logged;
    var c := s.conns[i];
    NeverStuck(s, i);
    var a: Action :| !a.Invoke? && CanAct(c, a);
    var s' := Apply(s, At(i, a));
    ReachableStep(s, At(i, a));
    EveryStepAdvances(s, i, a);
    LoggedByAction(s, i, a);
    if s'.conns[i].client.Idle? {
      steps, t := [At(i, a)], s';
      assert steps[1..] == [];
    } else {
      PendingKept(s, c, a);
      CleanAfter(s, c, a);
      var rest;
      rest, t := EveryCallCanReturn(s', i);
      steps := [At(i, a)] + rest;
      assert steps[1..] == rest;
    }
  }

  lemma LoggedByAction(s: State, i: nat, a: Action)
    requires Reachable(s) && i < |s.conns| && !s.conns[i].client.Idle? && s.conns[i].clean && CanAct(s.conns[i], a)
    ensures var c := s.conns[i];
            if Act(s, c, a).client.Idle? then |Logged(s, c, a)| == 1 && Logged(s, c, a)[0].call == c.client.pending.call
            else Logged(s, c, a) == []
  {
    hide Reachable, Decode, Complaint, Answer, ParseHeader, Conclude;
    ReachableInv(s);
    var c := s.conns[i];
    assert Sound(c, s.updates, |s.log|);
    hide Sound;
    if a.ClientHeader? { ClientHeaderSound(s, c); }
  }

  // ---------------------------------------------------------------- the steps are the code

  /** The slave's two steps are one pass of its message loop over what has arrived. */
  lemma ServerStepsAreOnePass(s: State, c: Connection, tid: word, unit: byte, r: Request, rest: seq<byte>)
    requires c.server.ReadHeader? && NextRequest(c.toServer.arrived) == Whole(tid, unit, r, rest)
    ensures CanAct(c, ServerHeader) && CanAct(DoServerHeader(c), ServerBody)
    ensures var t := DoServerBody(s, DoServerHeader(c));
            && t.toServer.arrived == rest && t.server.ReadHeader?
            && t.toClient == c.toClient.Send(Answer(s.regs, tid, unit, r))
  {
    hide Decode, ParseHeader, Answer;
    var arrived := c.toServer.arrived;
    var h := ParseHeader(arrived[..HEADER_SIZE]);
    assert arrived[HEADER_SIZE..6 + h.length] == arrived[HEADER_SIZE..][..h.length - 1];
    assert arrived[6 + h.length..] == arrived[HEADER_SIZE..][h.length - 1..];
  }

  /** The client's two steps are the master's word read over what has arrived. */
  lemma ClientStepsAreWordRead(s: State, c: Connection, pdu: seq<byte>, rest: seq<byte>)
    requires c.client.WaitHeader?
    requires AwaitReply(c.client.pending.tid, c.client.pending.call.unit, c.toClient.arrived) == (Body(pdu), rest)
    ensures CanAct(c, ClientHeader) && CanAct(DoClientHeader(c), ClientBody)
    ensures var t, p := DoClientHeader(c), c.client.pending;
            && DoClientBody(t).toClient.arrived == rest
            && Logged(s, c, ClientHeader) == [] && |Logged(s, t, ClientBody)| == 1
            && (Logged(s, t, ClientBody)[0].result, rest)
               == WordRead(READ_HOLDING_REGISTERS, p.call.size, p.tid, p.call.unit, c.toClient.arrived)
  {
    hide ParseHeader, Conclude, WordRead;
    var p, arrived := c.client.pending, c.toClient.arrived;
    var h := ParseHeader(arrived[..HEADER_SIZE]);
    assert arrived[HEADER_SIZE..6 + h.length] == arrived[HEADER_SIZE..][..h.length - 1];
    assert arrived[6 + h.length..] == arrived[HEADER_SIZE..][h.length - 1..];
    ConcludeIsWordRead(p.call, p.tid, arrived, pdu, rest);
  }

  /** Nothing but missing bytes holds a step back: a connection can always be accepted, 500 updates
      can run at any time, any number of bytes in transit can arrive, an idle client can make any
      call, and a read that has all its bytes can complete. */
  lemma EveryScheduleAllowed(s: State, i: nat, k: nat, call: Call)
    requires i < |s.conns|
    ensures CanStep(s, Accept) && (CanStep(s, Update) <==> s.updates < 500)
    ensures var c := s.conns[i];
            && (CanStep(s, At(i, ToServer(k))) <==> 1 <= k <= |c.toServer.transit|)
            && (CanStep(s, At(i, ToClient(k))) <==> 1 <= k <= |c.toClient.transit|)
            && (CanStep(s, At(i, Invoke(call))) <==> c.client.Idle?)
            && (c.server.ReadHeader? ==> (CanStep(s, At(i, ServerHeader)) <==> |c.toServer.arrived| >= 7))
            && (c.client.WaitHeader? ==> (CanStep(s, At(i, ClientHeader)) <==> |c.toClient.arrived| >= 7))
            && (c.server.ReadBody? && c.server.length >= 1 ==>
                  (CanStep(s, At(i, ServerBody)) <==> |c.toServer.arrived| >= c.server.length - 1))
            && (c.client.WaitBody? && c.client.length >= 1 ==>
                  (CanStep(s, At(i, ClientBody)) <==> |c.toClient.arrived| >= c.client.length - 1))
  {}

  /** The slave's header step on any seven bytes. */
  lemma ServerHeaderBytes(c: Connection)
    requires CanAct(c, ServerHeader)
    ensures var x, t := c.toServer.arrived, DoServerHeader(c);
            && t.toServer == Channel(x[7..], c.toServer.transit) && t.client == c.client && t.handled == c.handled
            && t.server == (if WordAt(x, 4) < 2 then ReadHeader
                            else if WordAt(x, 4) > 314 then Stopped
                            else ReadBody(WordAt(x, 0), x[6], WordAt(x, 4)))
            && t.toClient == if WordAt(x, 4) < 2 then c.toClient.Send([x[0], x[1], 0, 0, 0, 3, x[6], 0x80, 0x11]) else c.toClient
  {
    hide ParseHeader, WordAt, Complaint;
    var x := c.toServer.arrived;
    ParsedBytes(x);
    if WordAt(x, 4) < 2 { ComplaintBytes(x, x[6]); }
  }

  /** The slave's body step ends the loop on a body that does not decode. */
  lemma ServerBodyStops(s: State, c: Connection)
    requires CanAct(c, ServerBody) && Decode(c.toServer.arrived[..c.server.length - 1]).Fail?
    ensures DoServerBody(s, c) == c.(toServer := Channel(c.toServer.arrived[c.server.length - 1..], c.toServer.transit), server := Stopped)
  {
    hide Decode;
  }

  /** The client's header step on any seven bytes: the call goes on with a matching header, and
      otherwise returns the error of the header checks. */
  lemma ClientHeaderBytes(s: State, c: Connection)
    requires CanAct(c, ClientHeader)
    ensures var x, p, t := c.toClient.arrived, c.client.pending, DoClientHeader(c);
            var ec := HeaderCode(p.tid, p.call.unit, x);
            && t == c.(toClient := Channel(x[7..], c.toClient.transit),
                       client := if ec == 0 then WaitBody(p, WordAt(x, 4)) else Idle)
            && Logged(s, c, ClientHeader) ==
               if ec == 0 then []
               else [Record(p.call, Failed(ec), p.invoked, p.since, c.handled, s.updates, c.clean)]
  {
    hide ParseHeader, WordAt;
    ParsedBytes(c.toClient.arrived);
  }

  /** A broadcast returns zeros at once, up to 127 registers, and leaves the client idle. */
  lemma BroadcastStep(s: State, c: Connection, call: Call)
    requires CanAct(c, Invoke(call)) && call.unit == 0
    ensures DoInvoke(s, c, call).client.Idle? && |Logged(s, c, Invoke(call))| == 1
    ensures Logged(s, c, Invoke(call))[0].result
            == if call.size <= 127 then Values(BytesWords(ZeroBytes(2 * call.size))) else Failed(0x0C)
  {
    hide WordRead, Frame, Encode;
    BroadcastWordRead(READ_HOLDING_REGISTERS, call.size, c.nextTid, c.toClient.arrived);
  }

  /** The update step is the posted update of the server: it changes the registers and nothing else. */
  lemma UpdateStepIsPosted(s: State)
    requires CanStep(s, Update)
    ensures Apply(s, Update) == s.(regs := AfterUpdates(s.regs, [s.updates]), updates := s.updates + 1)
    ensures Apply(s, Update).regs == seq(|s.regs|, _ => s.updates)
  {
    LastUpdateCounts(s.regs, [s.updates]);
    assert Apply(s, Update).regs == seq(|s.regs|, _ => s.updates % 0x1_0000);
    assert AfterUpdates(s.regs, [s.updates]) == seq(|s.regs|, _ => s.updates % 0x1_0000);
  }
}
