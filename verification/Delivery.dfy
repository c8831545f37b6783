/** Chat messages in one process: which arrivals reach the application, and what becomes of the
    acknowledgement every send waits for. */
module Delivery {
  import opened Collections
  import opened Text
  import opened SeedSets
  import opened SeenMessages

  const U64: nat := 0x1_0000_0000_0000_0000

  datatype Message = Message(sender: string, receiver: string, requestId: nat, timestamp: nat, text: string)

  /** The bytes hashed into the key of a message. The request id is not among them. */
  function DedupText(m: Message): string {
    m.sender + "|" + m.receiver + "|" + m.text + "|" + LittleEndian(m.timestamp, 16)
  }

  function MessageKey(h: Hasher, m: Message): string {
    h(DedupText(m))
  }

  function AckKey(id: nat): string {
    "ack:" + Decimal(id)
  }

  // ---------------------------------------------------------------- one process

  /** A send takes an id, registers it, sends, waits for the acknowledgement or the timeout, and cleans up. */
  datatype Stage = Allocated | Sending | Waiting | Woken(delivered: bool) | Ended(delivered: bool)

  /** One call of the send handler. `told` is what stands in its one-shot channel. */
  datatype Call = Call(id: nat, stage: Stage, told: bool)

  /** `pending` maps a request id to the call whose channel is stored under it. */
  datatype State = State(seen: set<string>, pending: map<nat, nat>, nextId: nat, calls: seq<Call>)

  datatype Event =
    | MessageArrives(m: Message)
    | AckArrives(id: nat)
    | SendStarts
    | Registers(call: nat)
    | SendFails(call: nat)
    | SendWorks(call: nat)
    | Wakes(call: nat)
    | CleansUp(call: nat)

  datatype Outcome = Duplicate | OwnEcho | Delivered(message: Message) | NotForUs | Confirmed(call: nat) | Forwarded(ack: nat) | Silent

  datatype Process = Process(me: string, h: Hasher)

  const START := State({}, map[], 1, [])

  function OnMessage(p: Process, s: State, m: Message): (State, Outcome) {
    var seen := See(s.seen, MessageKey(p.h, m));
    (s.(seen := seen.keys),
     if !seen.accepted then Duplicate
     else if m.sender == p.me then OwnEcho
     else if m.receiver == p.me then Delivered(m)
     else NotForUs)
  }

  /** The receiving end of the channel lives until the waiting task has woken up. */
  function Tell(calls: seq<Call>, c: nat): seq<Call> {
    if c < |calls| && (calls[c].stage.Sending? || calls[c].stage.Waiting?) then calls[c := calls[c].(told := true)] else calls
  }

  function OnAck(s: State, id: nat): (State, Outcome) {
    var seen := See(s.seen, AckKey(id));
    var s' := s.(seen := seen.keys);
    if !seen.accepted then (s', Duplicate)
    else if id in s.pending then
      (s'.(pending := s.pending - {id}, calls := Tell(s.calls, s.pending[id])), Confirmed(s.pending[id]))
    else (s', Forwarded(id))
  }

  function Start(s: State): State {
    s.(nextId := (s.nextId + 1) % U64, calls := s.calls + [Call(s.nextId, Allocated, false)])
  }

  function Move(s: State, c: nat, stage: Stage): State
    requires c < |s.calls|
  {
    s.(calls := s.calls[c := s.calls[c].(stage := stage)])
  }

  function Register(s: State, c: nat): State
    requires c < |s.calls|
  {
    Move(s, c, Sending).(pending := s.pending[s.calls[c].id := c])
  }

  /** Drops the entry stored under the call's id, and ends the call. */
  function Finish(s: State, c: nat, delivered: bool): State
    requires c < |s.calls|
  {
    Move(s, c, Ended(delivered)).(pending := s.pending - {s.calls[c].id})
  }

  /** What a step of the send handler does; a step that is not the call's next one cannot happen. */
  function OnCall(s: State, e: Event): State {
    match e
    case SendStarts => Start(s)
    case Registers(c) => if c < |s.calls| && s.calls[c].stage == Allocated then Register(s, c) else s
    case SendFails(c) => if c < |s.calls| && s.calls[c].stage == Sending then Finish(s, c, false) else s
    case SendWorks(c) => if c < |s.calls| && s.calls[c].stage == Sending then Move(s, c, Waiting) else s
    case Wakes(c) => if c < |s.calls| && s.calls[c].stage == Waiting then Move(s, c, Woken(s.calls[c].told)) else s
    case CleansUp(c) => if c < |s.calls| && s.calls[c].stage.Woken? then Finish(s, c, s.calls[c].stage.delivered) else s
    case _ => s
  }

  function Next(p: Process, s: State, e: Event): (State, Outcome) {
    match e
    case MessageArrives(m) => OnMessage(p, s, m)
    case AckArrives(id) => OnAck(s, id)
    case _ => (OnCall(s, e), Silent)
  }

  class Messenger {
    const process: Process
    var seen: set<string>
    var pending: map<nat, nat>
    var nextId: nat
    var calls: seq<Call>

    constructor (process: Process)
      ensures this.process == process && Value() == START
      ensures seen == {} && pending == map[] && nextId == 1 && calls == []
    {
      this.process, seen, pending, nextId, calls := process, {}, map[], 1, [];
    }

    function Value(): State
      reads this
    {
      State(seen, pending, nextId, calls)
    }

    /** Duplicate check shared by both handlers. */
    method CheckSeen(key: string) returns (isNew: bool)
      modifies this`seen
      ensures Seen(seen, isNew) == See(old(seen), key)
      ensures isNew <==> key !in old(seen)
      ensures isNew ==> seen == (if |old(seen) + {key}| > 10_000 then {} else old(seen) + {key})
    {
      if key in seen {
        return false;
      }
      seen := seen + {key};
      if |seen| > SEEN_MESSAGES_MAX {
        seen := {};
      }
      isNew := true;
    }

    method HandleMessage(m: Message) returns (out: Outcome)
      modifies this`seen
      ensures (Value(), out) == Next(process, old(Value()), MessageArrives(m))
      ensures out == if MessageKey(process.h, m) in old(seen) then Duplicate
                     else if m.sender == process.me then OwnEcho
                     else if m.receiver == process.me then Delivered(m)
                     else NotForUs
    {
      var isNew := CheckSeen(MessageKey(process.h, m));
      if !isNew {
        return Duplicate;
      }
      if m.sender == process.me {
        return OwnEcho;
      }
      out := if m.receiver == process.me then Delivered(m) else NotForUs;
    }

    method HandleAck(id: nat) returns (out: Outcome)
      modifies this
      ensures (Value(), out) == Next(process, old(Value()), AckArrives(id))
      ensures out == if AckKey(id) in old(seen) then Duplicate
                     else if id in old(pending) then Confirmed(old(pending)[id])
                     else Forwarded(id)
      ensures pending == if out == Duplicate then old(pending) else old(pending) - {id}
    {
      var isNew := CheckSeen(AckKey(id));
      if !isNew {
        return Duplicate;
      }
      if id in pending {
        var c := pending[id];
        pending := pending - {id};
        if c < |calls| && (calls[c].stage.Sending? || calls[c].stage.Waiting?) {
          calls := calls[c := calls[c].(told := true)];
        }
        return Confirmed(c);
      }
      out := Forwarded(id);
    }

    /** The atomic counter hands out the next id; the call is numbered by its place in `calls`. */
    method StartSend() returns (c: nat)
      modifies this
      ensures Value() == Next(process, old(Value()), SendStarts).0
      ensures c == |old(calls)| && calls == old(calls) + [Call(old(nextId), Allocated, false)]
      ensures nextId == (old(nextId) + 1) % 0x1_0000_0000_0000_0000 && pending == old(pending) && seen == old(seen)
    {
      var id := nextId;
      nextId := (nextId + 1) % U64;
      c := |calls|;
      calls := calls + [Call(id, Allocated, false)];
    }

    method RegisterAck(c: nat)
      requires c < |calls| && calls[c].stage == Allocated
      modifies this
      ensures Value() == Next(process, old(Value()), Registers(c)).0
      ensures pending == old(pending)[calls[c].id := c]
      ensures calls == old(calls)[c := old(calls)[c].(stage := Sending)]
    {
      pending := pending[calls[c].id := c];
      calls := calls[c := calls[c].(stage := Sending)];
    }

    /** Ends the send phase: without one successful send the entry goes and the caller gets an error. */
    method EndSend(c: nat, sentOk: bool)
      requires c < |calls| && calls[c].stage == Sending
      modifies this
      ensures Value() == Next(process, old(Value()), if sentOk then SendWorks(c) else SendFails(c)).0
      ensures pending == if sentOk then old(pending) else old(pending) - {calls[c].id}
      ensures calls == old(calls)[c := old(calls)[c].(stage := if sentOk then Waiting else Ended(false))]
    {
      if !sentOk {
        pending := pending - {calls[c].id};
        calls := calls[c := calls[c].(stage := Ended(false))];
        return;
      }
      calls := calls[c := calls[c].(stage := Waiting)];
    }

    /** The background task wakes up on its channel or on the timeout. */
    method WakeUp(c: nat) returns (delivered: bool)
      requires c < |calls| && calls[c].stage == Waiting
      modifies this
      ensures Value() == Next(process, old(Value()), Wakes(c)).0
      ensures delivered == old(calls[c].told) && pending == old(pending)
      ensures calls == old(calls)[c := old(calls)[c].(stage := Woken(delivered))]
    {
      delivered := calls[c].told;
      calls := calls[c := calls[c].(stage := Woken(delivered))];
    }

    method CleanUp(c: nat)
      requires c < |calls| && calls[c].stage.Woken?
      modifies this
      ensures Value() == Next(process, old(Value()), CleansUp(c)).0
      ensures pending == old(pending) - {calls[c].id}
      ensures calls == old(calls)[c := old(calls)[c].(stage := Ended(old(calls)[c].stage.delivered))]
    {
      pending := pending - {calls[c].id};
      calls := calls[c := calls[c].(stage := Ended(calls[c].stage.delivered))];
    }
  }

  /** A step of the send handler that is not the call's next one cannot happen. */
  lemma CallSteps(s: State, c: nat)
    ensures var ok := c < |s.calls|;
            && (!(ok && s.calls[c].stage == Allocated) ==> OnCall(s, Registers(c)) == s)
            && (!(ok && s.calls[c].stage == Sending) ==> OnCall(s, SendFails(c)) == s == OnCall(s, SendWorks(c)))
            && (!(ok && s.calls[c].stage == Waiting) ==> OnCall(s, Wakes(c)) == s)
            && (!(ok && s.calls[c].stage.Woken?) ==> OnCall(s, CleansUp(c)) == s)
  {
  }

  // ---------------------------------------------------------------- runs

  function After(p: Process, es: seq<Event>): State {
    if es == [] then START else Next(p, After(p, es[..|es| - 1]), es[|es| - 1]).0
  }

  function Last(p: Process, es: seq<Event>): Outcome
    requires es != []
  {
    Next(p, After(p, es[..|es| - 1]), es[|es| - 1]).1
  }

  /** The keys the run offered to the seen set, in order. */
  function Keys(p: Process, es: seq<Event>): seq<string> {
    if es == [] then []
    else
      Keys(p, es[..|es| - 1]) +
      match es[|es| - 1]
      case MessageArrives(m) => [MessageKey(p.h, m)]
      case AckArrives(id) => [AckKey(id)]
      case _ => []
  }

  /** How many messages with a key the application got. */
  function Deliveries(p: Process, es: seq<Event>, key: string): nat {
    if es == [] then 0
    else
      var out := Last(p, es);
      Deliveries(p, es[..|es| - 1], key) + if out.Delivered? && MessageKey(p.h, out.message) == key then 1 else 0
  }

  /** How often an acknowledgement of an id was confirmed or forwarded. */
  function AckActions(p: Process, es: seq<Event>, id: nat): nat {
    if es == [] then 0
    else AckActions(p, es[..|es| - 1], id) + if es[|es| - 1] == AckArrives(id) && Last(p, es) != Duplicate then 1 else 0
  }

  /** How often a call was told that its message arrived. */
  function Confirmations(p: Process, es: seq<Event>, c: nat): nat {
    if es == [] then 0
    else Confirmations(p, es[..|es| - 1], c) + if Last(p, es) == Confirmed(c) then 1 else 0
  }

  function ConfirmationsOfId(p: Process, es: seq<Event>, id: nat): nat {
    if es == [] then 0
    else
      ConfirmationsOfId(p, es[..|es| - 1], id) + if es[|es| - 1] == AckArrives(id) && Last(p, es).Confirmed? then 1 else 0
  }

  // ---------------------------------------------------------------- duplicates over runs

  lemma CallStepSeen(s: State, e: Event)
    ensures OnCall(s, e).seen == s.seen
  {
  }

  lemma StepSeen(p: Process, s: State, e: Event)
    ensures Next(p, s, e).0.seen
         == match e
            case MessageArrives(m) => See(s.seen, MessageKey(p.h, m)).keys
            case AckArrives(id) => See(s.seen, AckKey(id)).keys
            case _ => s.seen
  {
    CallStepSeen(s, e);
    hide OnCall, See;
  }

  lemma SeenSnoc(keys: seq<string>, key: string)
    ensures SeenAfter(keys + [key]) == See(SeenAfter(keys), key).keys
    ensures PassesAtEnd(keys + [key]) == See(SeenAfter(keys), key).accepted
    ensures forall k :: Passes(keys + [key], k) == Passes(keys, k) + if k == key && See(SeenAfter(keys), key).accepted then 1 else 0
  {
    hide See;
    assert (keys + [key])[..|keys|] == keys;
  }

  lemma {:induction false} SeenOfRun(p: Process, es: seq<Event>)
    ensures After(p, es).seen == SeenAfter(Keys(p, es))
  {
    hide Next, See;
    if es != [] {
      var front, e := es[..|es| - 1], es[|es| - 1];
      SeenOfRun(p, front);
      StepSeen(p, After(p, front), e);
      match e
      case MessageArrives(m) => SeenSnoc(Keys(p, front), MessageKey(p.h, m));
      case AckArrives(id) => SeenSnoc(Keys(p, front), AckKey(id));
      case _ => assert Keys(p, front) + [] == Keys(p, front);
    }
  }

  /** The shared set holds at most 10,000 keys after every step of every run. */
  lemma SeenBounded(p: Process, es: seq<Event>)
    ensures |After(p, es).seen| <= SEEN_MESSAGES_MAX
  {
    SeenOfRun(p, es);
    SetBounded(Keys(p, es));
  }

  lemma DeliveredOnlyIfPasses(p: Process, s: State, e: Event)
    ensures var out := Next(p, s, e).1;
            out.Delivered? ==> e == MessageArrives(out.message) && See(s.seen, MessageKey(p.h, out.message)).accepted
  {
    hide OnCall, See;
  }

  lemma {:induction false} DeliveriesWithinPasses(p: Process, es: seq<Event>, key: string)
    ensures Deliveries(p, es, key) <= Passes(Keys(p, es), key)
  {
    hide See, Passes, Next;
    if es != [] {
      var front, e := es[..|es| - 1], es[|es| - 1];
      DeliveriesWithinPasses(p, front, key);
      SeenOfRun(p, front);
      DeliveredOnlyIfPasses(p, After(p, front), e);
      match e
      case MessageArrives(m) => SeenSnoc(Keys(p, front), MessageKey(p.h, m));
      case AckArrives(id) => SeenSnoc(Keys(p, front), AckKey(id));
      case _ => assert Keys(p, front) + [] == Keys(p, front);
    }
  }

  /** The application gets a message at most once per period between two clears of the set. */
  lemma DeliveredAtMostOncePerClear(p: Process, es: seq<Event>, key: string)
    ensures Deliveries(p, es, key) <= 1 + Clears(Keys(p, es))
  {
    DeliveriesWithinPasses(p, es, key);
    PassesAtMostOncePerClear(Keys(p, es), key);
  }

  /** An arrival reaches the application exactly if it is from another node, for this one, and its key was
      not offered since the last clear. */
  lemma DeliveredExactly(p: Process, es: seq<Event>, m: Message)
    ensures Last(p, es + [MessageArrives(m)]) == Delivered(m)
       <==> m.sender != p.me && m.receiver == p.me && MessageKey(p.h, m) !in OpenBlock(Keys(p, es))
  {
    hide See;
    assert (es + [MessageArrives(m)])[..|es|] == es;
    SeenOfRun(p, es);
    PassesExactly(Keys(p, es), MessageKey(p.h, m));
    SeenSnoc(Keys(p, es), MessageKey(p.h, m));
  }

  // ---------------------------------------------------------------- keys

  /** All that matters here of digests printed in hexadecimal: there is no colon in them. */
  ghost predicate HexDigests(h: Hasher) {
    forall x, i | 0 <= i < |h(x)| :: h(x)[i] != ':'
  }

  /** Reads bytes back, least significant first. */
  function FromBytes(s: string): int {
    if s == "" then 0 else s[0] as int + 256 * FromBytes(s[1..])
  }

  function Range(bytes: nat): nat {
    if bytes == 0 then 1 else 256 * Range(bytes - 1)
  }

  lemma {:induction false} BytesRoundTrip(n: nat, k: nat)
    requires n < Range(k)
    ensures FromBytes(LittleEndian(n, k)) == n
    decreases k
  {
    if k > 0 {
      BytesRoundTrip(n / 256, k - 1);
      assert LittleEndian(n, k)[1..] == LittleEndian(n / 256, k - 1);
    }
  }

  lemma NoBarWithin(a: string, x: string, i: nat)
    requires '|' !in a && i < |a + "|" + x| && (a + "|" + x)[i] == '|'
    ensures i >= |a|
  {
  }

  /** A name without the separator is read back from in front of it. */
  lemma SplitAtBar(a: string, b: string, x: string, y: string)
    requires '|' !in a && '|' !in b
    requires a + "|" + x == b + "|" + y
    ensures a == b && x == y
  {
    var s := a + "|" + x;
    assert s[|a|] == '|' && s[|b|] == '|';
    NoBarWithin(a, x, |b|);
    NoBarWithin(b, y, |a|);
    assert s[..|a|] == a && s[..|b|] == b;
    assert s[|a| + 1..] == x && s[|b| + 1..] == y;
  }

  lemma SameTail(a: string, b: string, x: string, y: string)
    requires |x| == |y| && a + x == b + y
    ensures a == b && x == y
  {
    assert (a + x)[..|a|] == a && (b + y)[..|b|] == b;
    assert (a + x)[|a|..] == x && (b + y)[|b|..] == y;
  }

  /** Two messages whose node names hold no bar have the same key exactly if they agree on sender, receiver,
      text and timestamp. The text itself may hold bars. */
  lemma KeyIdentifiesMessage(h: Hasher, m: Message, m': Message)
    requires NoCollision(h, DedupText(m), DedupText(m'))
    requires m.timestamp < Range(16) && m'.timestamp < Range(16)
    requires forall x | x in {m, m'} :: '|' !in x.sender && '|' !in x.receiver
    ensures MessageKey(h, m) == MessageKey(h, m') <==> m.(requestId := 0) == m'.(requestId := 0)
  {
    if MessageKey(h, m) == MessageKey(h, m') {
      TextIdentifiesMessage(m, m');
    }
  }

  function AfterReceiver(m: Message): string {
    m.text + "|" + LittleEndian(m.timestamp, 16)
  }

  lemma Regroup(m: Message)
    ensures DedupText(m) == m.sender + "|" + (m.receiver + "|" + AfterReceiver(m))
  {
    hide LittleEndian;
  }

  lemma TextIdentifiesMessage(m: Message, m': Message)
    requires DedupText(m) == DedupText(m')
    requires m.timestamp < Range(16) && m'.timestamp < Range(16)
    requires forall x | x in {m, m'} :: '|' !in x.sender && '|' !in x.receiver
    ensures m.(requestId := 0) == m'.(requestId := 0)
  {
    Regroup(m);
    Regroup(m');
    assert m in {m, m'} && m' in {m, m'};
    LittleEndianLength(m.timestamp, 16);
    LittleEndianLength(m'.timestamp, 16);
    BytesRoundTrip(m.timestamp, 16);
    BytesRoundTrip(m'.timestamp, 16);
    hide DedupText, LittleEndian, Range, FromBytes;
    SplitAtBar(m.sender, m'.sender, m.receiver + "|" + AfterReceiver(m), m'.receiver + "|" + AfterReceiver(m'));
    SplitAtBar(m.receiver, m'.receiver, AfterReceiver(m), AfterReceiver(m'));
    SameTail(m.text + "|", m'.text + "|", LittleEndian(m.timestamp, 16), LittleEndian(m'.timestamp, 16));
    SameTail(m.text, m'.text, "|", "|");
  }

  predicate SameParts(m: Message, m': Message) {
    m.sender == m'.sender && m.receiver == m'.receiver && m.text == m'.text
  }

  predicate HasBar(m: Message) {
    '|' in m.sender || '|' in m.receiver || '|' in m.text
  }

  lemma SplitBar(s: string) returns (u: string, v: string)
    requires '|' in s
    ensures s == u + "|" + v
  {
    var i :| 0 <= i < |s| && s[i] == '|';
    u, v := s[..i], s[i + 1..];
  }

  function Joined(s: string, r: string, t: string): string {
    s + "|" + r + "|" + t
  }

  lemma JoinedText(m: Message)
    ensures DedupText(m) == Joined(m.sender, m.receiver, m.text) + ("|" + LittleEndian(m.timestamp, 16))
    ensures |"|" + LittleEndian(m.timestamp, 16)| == 17
  {
    LittleEndianLength(m.timestamp, 16);
    hide LittleEndian;
  }

  /** A bar in any part of a message lets another message take its key: the part is split at the bar. */
  lemma BarConfuses(h: Hasher, m: Message) returns (m': Message)
    requires HasBar(m)
    ensures DedupText(m') == DedupText(m) && MessageKey(h, m') == MessageKey(h, m) && !SameParts(m', m)
  {
    if '|' in m.sender {
      var u, v := SplitBar(m.sender);
      m' := m.(sender := u, receiver := v + "|" + m.receiver);
      FourParts(u, v, m.receiver, m.text);
    } else if '|' in m.receiver {
      var u, v := SplitBar(m.receiver);
      m' := m.(receiver := u, text := v + "|" + m.text);
      FourParts(m.sender, u, v, m.text);
    } else {
      var u, v := SplitBar(m.text);
      m' := m.(sender := m.sender + "|" + m.receiver, receiver := u, text := v);
      FourParts(m.sender, m.receiver, u, v);
    }
    hide DedupText, Joined;
    JoinedText(m);
    JoinedText(m');
  }

  /** Four parts joined by bars can be read as three in three ways. */
  lemma FourParts(a: string, b: string, c: string, d: string)
    ensures Joined(a + "|" + b, c, d) == Joined(a, b + "|" + c, d) == Joined(a, b, c + "|" + d)
  {
  }

  /** Joined without bars inside, three parts are the only ones that give the text. */
  lemma PartsUnique(s: string, r: string, t: string, s': string, r': string, t': string)
    requires '|' !in s && '|' !in r && '|' !in t && Joined(s, r, t) == Joined(s', r', t')
    ensures s == s' && r == r' && t == t'
  {
    var x := Joined(s, r, t);
    BarsOfJoined(s, r, t);
    JoinedHasBars(s', r', t');
    assert |s'| == |s| && |r'| == |r|;
    assert x[..|s|] == s && x[..|s'|] == s';
    assert x[|s| + 1..|s| + 1 + |r|] == r && x[|s'| + 1..|s'| + 1 + |r'|] == r';
    assert x[|s| + 2 + |r|..] == t && x[|s'| + 2 + |r'|..] == t';
  }

  lemma JoinedHasBars(s: string, r: string, t: string)
    ensures |Joined(s, r, t)| == |s| + |r| + |t| + 2
    ensures Joined(s, r, t)[|s|] == '|' && Joined(s, r, t)[|s| + 1 + |r|] == '|'
  {
  }

  lemma BarsOfJoined(s: string, r: string, t: string)
    requires '|' !in s && '|' !in r && '|' !in t
    ensures forall i | 0 <= i < |Joined(s, r, t)| && Joined(s, r, t)[i] == '|' :: i == |s| || i == |s| + 1 + |r|
  {
  }

  /** A message shares its key's text with a message of other sender, receiver or text exactly if one of these
      three holds a bar. */
  lemma ConfusedExactly(m: Message)
    ensures (exists m' :: DedupText(m') == DedupText(m) && !SameParts(m', m)) <==> HasBar(m)
  {
    hide DedupText;
    if HasBar(m) {
      var m' := BarConfuses(x => x, m);
    }
    if m' :| DedupText(m') == DedupText(m) && !SameParts(m', m) {
      JoinedText(m);
      JoinedText(m');
      hide Joined, LittleEndian;
      SameTail(Joined(m.sender, m.receiver, m.text), Joined(m'.sender, m'.receiver, m'.text),
               "|" + LittleEndian(m.timestamp, 16), "|" + LittleEndian(m'.timestamp, 16));
      if !HasBar(m) {
        PartsUnique(m.sender, m.receiver, m.text, m'.sender, m'.receiver, m'.text);
      }
    }
  }

  lemma KeysApart(h: Hasher, m: Message, id: nat)
    requires HexDigests(h)
    ensures MessageKey(h, m) != AckKey(id)
  {
    assert AckKey(id)[3] == ':';
  }

  lemma AckKeyInjective(id: nat, id': nat)
    requires AckKey(id) == AckKey(id')
    ensures id == id'
  {
    assert AckKey(id)[4..] == Decimal(id) && AckKey(id')[4..] == Decimal(id');
    DecimalInjective(id, id');
  }

  /** Messages and acknowledgements share the set without disturbing each other's keys: an acknowledgement
      acts exactly as often as its own key passes. */
  lemma {:induction false} AckActsOncePerPass(p: Process, es: seq<Event>, id: nat)
    requires HexDigests(p.h)
    ensures AckActions(p, es, id) == Passes(Keys(p, es), AckKey(id)) <= 1 + Clears(Keys(p, es))
  {
    PassesAtMostOncePerClear(Keys(p, es), AckKey(id));
    hide See, Passes, Clears, AckKey, MessageKey, HexDigests;
    if es != [] {
      var front, e := es[..|es| - 1], es[|es| - 1];
      AckActsOncePerPass(p, front, id);
      SeenOfRun(p, front);
      match e
      case MessageArrives(m) =>
        KeysApart(p.h, m, id);
        SeenSnoc(Keys(p, front), MessageKey(p.h, m));
      case AckArrives(other) =>
        if AckKey(other) == AckKey(id) { AckKeyInjective(other, id); }
        SeenSnoc(Keys(p, front), AckKey(other));
      case _ => assert Keys(p, front) + [] == Keys(p, front);
    } else {
      assert Keys(p, es) == [];
      NoPasses(AckKey(id));
    }
  }

  lemma NoPasses(key: string)
    ensures Passes([], key) == 0
  {
  }

  // ---------------------------------------------------------------- acknowledgements over runs

  /** The id of the c-th call: 1, 2, ..., 2^64 - 1, 0, 1, ... */
  function IdOf(c: nat): nat {
    (1 + c) % U64
  }

  predicate Live(stage: Stage) {
    stage.Sending? || stage.Waiting? || stage.Woken?
  }

  /** Call c has its channel in the pending table. */
  predicate Holds(s: State, c: nat) {
    IdOf(c) in s.pending && s.pending[IdOf(c)] == c
  }

  ghost predicate Inv(s: State) {
    && s.nextId == IdOf(|s.calls|)
    && (forall c | 0 <= c < |s.calls| :: s.calls[c].id == IdOf(c))
    && (forall id | id in s.pending ::
          s.pending[id] < |s.calls| && id == IdOf(s.pending[id]) && Live(s.calls[s.pending[id]].stage))
    && (forall c | 0 <= c < |s.calls| && s.calls[c].stage in {Woken(true), Ended(true)} :: s.calls[c].told)
  }

  lemma IdSuccessor(c: nat)
    ensures (IdOf(c) + 1) % U64 == IdOf(c + 1)
  {
  }

  lemma StartKeepsInv(s: State)
    requires Inv(s)
    ensures Inv(Start(s))
  {
    IdSuccessor(|s.calls|);
    hide IdOf;
  }

  lemma CallKeepsInv(s: State, e: Event)
    requires Inv(s)
    ensures Inv(OnCall(s, e))
  {
    if e == SendStarts {
      StartKeepsInv(s);
    }
    hide IdOf, Start;
  }

  lemma AckKeepsInv(s: State, id: nat)
    requires Inv(s)
    ensures Inv(OnAck(s, id).0)
  {
    hide IdOf, See, AckKey;
  }

  lemma StepKeepsInv(p: Process, s: State, e: Event)
    requires Inv(s)
    ensures Inv(Next(p, s, e).0)
  {
    match e
    case MessageArrives(m) => hide IdOf, See; hide MessageKey;
    case AckArrives(id) => AckKeepsInv(s, id);
    case _ => CallKeepsInv(s, e);
  }

  /** In every reachable state the entries of the pending table belong to calls that are still live. */
  lemma {:induction false} PendingIsLive(p: Process, es: seq<Event>)
    ensures Inv(After(p, es))
  {
    if es != [] {
      hide Next, Inv;
      PendingIsLive(p, es[..|es| - 1]);
      StepKeepsInv(p, After(p, es[..|es| - 1]), es[|es| - 1]);
    }
  }

  /** Nothing leaks: once every call has ended the table is empty. */
  lemma NothingLeaks(p: Process, es: seq<Event>)
    requires forall c | 0 <= c < |After(p, es).calls| :: After(p, es).calls[c].stage.Ended?
    ensures After(p, es).pending == map[]
  {
    PendingIsLive(p, es);
    hide After, IdOf;
  }

  /** The call has registered its channel. */
  predicate Registered(s: State, c: nat) {
    c < |s.calls| && s.calls[c].stage != Allocated
  }

  function Budget(s: State, c: nat): nat {
    (if Registered(s, c) then 1 else 0) - if Holds(s, c) && Registered(s, c) then 1 else 0
  }

  lemma CallKeepsBudget(s: State, e: Event, c: nat)
    requires Inv(s)
    ensures Budget(s, c) <= Budget(OnCall(s, e), c)
  {
    hide IdOf;
  }

  lemma AckUsesBudget(s: State, id: nat, c: nat)
    requires Inv(s)
    ensures Budget(s, c) + (if OnAck(s, id).1 == Confirmed(c) then 1 else 0) <= Budget(OnAck(s, id).0, c)
  {
    hide IdOf, See, AckKey;
  }

  lemma MessageKeepsBudget(p: Process, s: State, m: Message, c: nat)
    ensures Budget(OnMessage(p, s, m).0, c) == Budget(s, c)
    ensures !OnMessage(p, s, m).1.Confirmed?
  {
    hide IdOf, See, MessageKey;
  }

  lemma {:induction false} ConfirmationsWithinBudget(p: Process, es: seq<Event>, c: nat)
    ensures Confirmations(p, es, c) <= Budget(After(p, es), c)
  {
    if es != [] {
      var front, e := es[..|es| - 1], es[|es| - 1];
      ConfirmationsWithinBudget(p, front, c);
      PendingIsLive(p, front);
      hide Inv, Budget, OnCall, OnAck, OnMessage;
      match e
      case MessageArrives(m) => MessageKeepsBudget(p, After(p, front), m, c);
      case AckArrives(id) => AckUsesBudget(After(p, front), id, c);
      case _ => CallKeepsBudget(After(p, front), e, c);
    }
  }

  /** Every call is confirmed at most once, however sends, acknowledgements, timeouts and failures
      interleave, and whatever the seen set forgets. */
  lemma ConfirmedAtMostOnce(p: Process, es: seq<Event>, c: nat)
    ensures Confirmations(p, es, c) <= 1
  {
    ConfirmationsWithinBudget(p, es, c);
  }

  lemma IdInjective(c: nat, d: nat)
    requires c < U64 && d < U64 && IdOf(c) == IdOf(d)
    ensures c == d
  {
  }

  /** While ids are not reused, the table holds the channel of exactly the live calls that were not confirmed. */
  predicate Exact(s: State, c: nat, confirmations: nat) {
    c < |s.calls| && Live(s.calls[c].stage) ==> (Holds(s, c) <==> confirmations == 0)
  }

  lemma OtherIdsDiffer(n: nat, c: nat)
    requires c < n <= U64
    ensures forall d | 0 <= d < n && d != c :: IdOf(d) != IdOf(c)
  {
    forall d | 0 <= d < n && d != c ensures IdOf(d) != IdOf(c) {
      if IdOf(d) == IdOf(c) { IdInjective(c, d); }
    }
  }

  lemma CallKeepsExact(s: State, e: Event, c: nat, n: nat)
    requires Inv(s) && |OnCall(s, e).calls| <= U64
    requires Exact(s, c, n) && n <= Budget(s, c)
    ensures Exact(OnCall(s, e), c, n)
  {
    if c < |s.calls| {
      OtherIdsDiffer(|s.calls|, c);
    }
    hide IdOf;
  }

  lemma AckKeepsExact(s: State, id: nat, c: nat, n: nat)
    requires Inv(s) && |s.calls| <= U64 && Exact(s, c, n)
    ensures Exact(OnAck(s, id).0, c, n + if OnAck(s, id).1 == Confirmed(c) then 1 else 0)
  {
    if c < |s.calls| {
      OtherIdsDiffer(|s.calls|, c);
    }
    hide IdOf, See, AckKey;
  }

  lemma MessageKeepsExact(p: Process, s: State, m: Message, c: nat, n: nat)
    requires Exact(s, c, n)
    ensures Exact(OnMessage(p, s, m).0, c, n)
  {
    hide IdOf, See, MessageKey;
  }

  lemma CallsOnlyGrow(p: Process, s: State, e: Event)
    ensures |s.calls| <= |Next(p, s, e).0.calls|
  {
    hide See, AckKey, MessageKey;
  }

  lemma {:induction false} ExactInRun(p: Process, es: seq<Event>, c: nat)
    requires |After(p, es).calls| <= U64
    ensures Exact(After(p, es), c, Confirmations(p, es, c))
  {
    if es != [] {
      var front, e := es[..|es| - 1], es[|es| - 1];
      CallsOnlyGrow(p, After(p, front), e);
      ExactInRun(p, front, c);
      PendingIsLive(p, front);
      ConfirmationsWithinBudget(p, front, c);
      hide Inv, Budget, Exact, OnCall, OnAck, OnMessage;
      match e
      case MessageArrives(m) =>
        MessageKeepsExact(p, After(p, front), m, c, Confirmations(p, front, c));
        MessageKeepsBudget(p, After(p, front), m, c);
      case AckArrives(id) => AckKeepsExact(After(p, front), id, c, Confirmations(p, front, c));
      case _ => CallKeepsExact(After(p, front), e, c, Confirmations(p, front, c));
    }
  }

  /** With at most 2^64 calls so far, the table maps a call's id to that call exactly while the call is live
      and unconfirmed, and holds nothing under its id otherwise. */
  lemma PendingExactly(p: Process, es: seq<Event>, c: nat)
    requires c < |After(p, es).calls| <= U64
    ensures IdOf(c) in After(p, es).pending <==> Live(After(p, es).calls[c].stage) && Confirmations(p, es, c) == 0
    ensures IdOf(c) in After(p, es).pending ==> After(p, es).pending[IdOf(c)] == c
  {
    ExactInRun(p, es, c);
    PendingIsLive(p, es);
    OtherIdsDiffer(|After(p, es).calls|, c);
    hide IdOf, After, Confirmations;
  }

  /** An acknowledgement is honoured exactly if its key was not offered since the last clear of the seen set,
      and its call is live and not yet confirmed. */
  lemma HonouredExactly(p: Process, es: seq<Event>, c: nat)
    requires c < |After(p, es).calls| <= U64
    ensures Last(p, es + [AckArrives(IdOf(c))]) == Confirmed(c)
       <==> && AckKey(IdOf(c)) !in OpenBlock(Keys(p, es))
            && Live(After(p, es).calls[c].stage)
            && Confirmations(p, es, c) == 0
  {
    PendingExactly(p, es, c);
    SeenOfRun(p, es);
    PassesExactly(Keys(p, es), AckKey(IdOf(c)));
    SeenSnoc(Keys(p, es), AckKey(IdOf(c)));
    assert (es + [AckArrives(IdOf(c))])[..|es|] == es;
    hide See, IdOf, AckKey, Confirmations, After;
  }

  lemma ConfirmedById(s: State, id: nat, c: nat)
    requires Inv(s) && |s.calls| <= U64 && c < U64
    ensures OnAck(s, id).1 == Confirmed(c) <==> OnAck(s, id).1.Confirmed? && id == IdOf(c)
  {
    if id in s.pending && id == IdOf(c) {
      IdInjective(c, s.pending[id]);
    }
    hide IdOf, See, AckKey;
  }

  lemma OnlyAcksConfirm(p: Process, s: State, e: Event)
    ensures Next(p, s, e).1.Confirmed? ==> e.AckArrives?
  {
    hide See, AckKey, MessageKey, OnCall;
  }

  lemma {:induction false} IdOfCall(p: Process, es: seq<Event>, c: nat)
    requires |After(p, es).calls| <= U64 && c < U64
    ensures ConfirmationsOfId(p, es, IdOf(c)) == Confirmations(p, es, c)
  {
    if es != [] {
      var front, e := es[..|es| - 1], es[|es| - 1];
      CallsOnlyGrow(p, After(p, front), e);
      IdOfCall(p, front, c);
      PendingIsLive(p, front);
      OnlyAcksConfirm(p, After(p, front), e);
      hide Inv, OnAck, OnCall, OnMessage, IdOf;
      if e.AckArrives? {
        ConfirmedById(After(p, front), e.id, c);
      }
    }
  }

  lemma CallWithId(id: nat) returns (c: nat)
    requires id < U64
    ensures c < U64 && IdOf(c) == id
  {
    c := if id == 0 then U64 - 1 else id - 1;
  }

  /** So every request id is confirmed at most once while ids are not reused. */
  lemma IdConfirmedAtMostOnce(p: Process, es: seq<Event>, id: nat)
    requires |After(p, es).calls| <= U64 && id < U64
    ensures ConfirmationsOfId(p, es, id) <= 1
  {
    var c := CallWithId(id);
    hide IdOf, After, Confirmations, ConfirmationsOfId;
    IdOfCall(p, es, c);
    ConfirmedAtMostOnce(p, es, c);
  }

  lemma CallKeepsTold(s: State, e: Event, c: nat)
    ensures c < |OnCall(s, e).calls| && OnCall(s, e).calls[c].told ==> c < |s.calls| && s.calls[c].told
  {
  }

  lemma AckTells(s: State, id: nat, c: nat)
    ensures c < |OnAck(s, id).0.calls| && OnAck(s, id).0.calls[c].told
        ==> OnAck(s, id).1 == Confirmed(c) || (c < |s.calls| && s.calls[c].told)
  {
    hide See, AckKey;
  }

  lemma {:induction false} ToldMeansConfirmed(p: Process, es: seq<Event>, c: nat)
    requires c < |After(p, es).calls| && After(p, es).calls[c].told
    ensures Confirmations(p, es, c) == 1
  {
    ConfirmedAtMostOnce(p, es, c);
    if es != [] {
      var front, e := es[..|es| - 1], es[|es| - 1];
      var s := After(p, front);
      CallKeepsTold(s, e, c);
      if e.AckArrives? {
        AckTells(s, e.id, c);
      }
      hide OnAck, OnCall, See, MessageKey;
      if c < |s.calls| && s.calls[c].told {
        ToldMeansConfirmed(p, front, c);
      }
    }
  }

  /** A call reports its message as delivered only if an acknowledgement of its id was accepted, once. */
  lemma DeliveredMeansConfirmed(p: Process, es: seq<Event>, c: nat)
    requires c < |After(p, es).calls| && After(p, es).calls[c].stage in {Woken(true), Ended(true)}
    ensures Confirmations(p, es, c) == 1
  {
    PendingIsLive(p, es);
    ToldMeansConfirmed(p, es, c);
  }

  lemma Snoc(p: Process, es: seq<Event>, e: Event)
    ensures After(p, es + [e]) == Next(p, After(p, es), e).0
    ensures Last(p, es + [e]) == Next(p, After(p, es), e).1
    ensures forall c :: Confirmations(p, es + [e], c) == Confirmations(p, es, c) + if Last(p, es + [e]) == Confirmed(c) then 1 else 0
  {
    hide Next;
    assert (es + [e])[..|es|] == es;
  }

  /** While a call is sending or waiting, its channel says whether it was confirmed. */
  lemma ConfirmedMeansTold(p: Process, es: seq<Event>, c: nat)
    requires c < |After(p, es).calls| && (After(p, es).calls[c].stage.Sending? || After(p, es).calls[c].stage.Waiting?)
    ensures After(p, es).calls[c].told <==> Confirmations(p, es, c) == 1
  {
    if After(p, es).calls[c].told {
      ToldMeansConfirmed(p, es, c);
    } else {
      NotToldNotConfirmed(p, es, c);
    }
  }

  predicate Open(s: State, c: nat) {
    c < |s.calls| && (s.calls[c].stage.Sending? || s.calls[c].stage.Waiting?)
  }

  lemma CallStaysOpen(s: State, e: Event, c: nat)
    requires Open(OnCall(s, e), c) && !OnCall(s, e).calls[c].told
    ensures Registered(s, c) ==> Open(s, c) && !s.calls[c].told
  {
  }

  lemma AckOpen(s: State, id: nat, c: nat)
    requires Open(OnAck(s, id).0, c) && !OnAck(s, id).0.calls[c].told
    ensures Open(s, c) && !s.calls[c].told && OnAck(s, id).1 != Confirmed(c)
  {
    hide See, AckKey;
  }

  lemma {:induction false} NotToldNotConfirmed(p: Process, es: seq<Event>, c: nat)
    requires Open(After(p, es), c) && !After(p, es).calls[c].told
    ensures Confirmations(p, es, c) == 0
  {
    if es != [] {
      var front, e := es[..|es| - 1], es[|es| - 1];
      var s := After(p, front);
      ConfirmationsWithinBudget(p, front, c);
      OnlyAcksConfirm(p, s, e);
      match e
      case AckArrives(id) =>
        AckOpen(s, id, c);
        NotToldNotConfirmed(p, front, c);
      case MessageArrives(m) =>
        MessageKeepsBudget(p, s, m, c);
        NotToldNotConfirmed(p, front, c);
      case _ =>
        CallStaysOpen(s, e, c);
        if Registered(s, c) {
          NotToldNotConfirmed(p, front, c);
        }
    }
  }

  lemma StepWakes(p: Process, s: State, c: nat)
    requires c < |s.calls| && s.calls[c].stage == Waiting
    ensures var s' := Next(p, s, Wakes(c)).0; c < |s'.calls| && s'.calls[c].stage == Woken(s.calls[c].told)
  {
  }

  /** A waiting call wakes up as delivered exactly if it was confirmed by then. */
  lemma WakesExactly(p: Process, es: seq<Event>, c: nat)
    requires c < |After(p, es).calls| && After(p, es).calls[c].stage == Waiting
    ensures var s := After(p, es + [Wakes(c)]);
            c < |s.calls| && s.calls[c].stage == Woken(Confirmations(p, es, c) == 1)
  {
    ConfirmedMeansTold(p, es, c);
    Snoc(p, es, Wakes(c));
    StepWakes(p, After(p, es), c);
    hide After, Confirmations, Next;
  }

  /** The k-th event of the run wakes the call. */
  predicate WakesAt(p: Process, es: seq<Event>, k: nat, c: nat)
    requires k < |es|
  {
    var s := After(p, es[..k]);
    es[k] == Wakes(c) && c < |s.calls| && s.calls[c].stage == Waiting
  }

  /** What a call reports once it has woken up or ended. */
  function Report(s: State, c: nat): Option<bool> {
    if c < |s.calls| && (s.calls[c].stage.Woken? || s.calls[c].stage.Ended?) then Some(s.calls[c].stage.delivered) else None
  }

  predicate IsWaiting(s: State, c: nat) {
    c < |s.calls| && s.calls[c].stage == Waiting
  }

  /** A call reports when it is woken, what its channel holds; otherwise it keeps silent, or fails, or repeats itself. */
  lemma StepReport(p: Process, s: State, e: Event, c: nat)
    ensures e == Wakes(c) && IsWaiting(s, c) ==> Report(s, c) == None && Report(Next(p, s, e).0, c) == Some(s.calls[c].told)
    ensures !(e == Wakes(c) && IsWaiting(s, c)) ==>
      Report(Next(p, s, e).0, c) == Report(s, c) || (Report(s, c) == None && Report(Next(p, s, e).0, c) == Some(false))
  {
    hide See, AckKey, MessageKey;
  }

  predicate NeverWoken(p: Process, es: seq<Event>, c: nat) {
    forall k | 0 <= k < |es| :: !WakesAt(p, es, k, c)
  }

  /** The event that woke the call came after its confirmation. */
  predicate WokenConfirmed(p: Process, es: seq<Event>, c: nat) {
    exists k | 0 <= k < |es| :: WakesAt(p, es, k, c) && Confirmations(p, es[..k], c) == 1
  }

  lemma WokenSnoc(p: Process, front: seq<Event>, e: Event, c: nat)
    ensures var es := front + [e];
            && (NeverWoken(p, es, c) <==> NeverWoken(p, front, c) && !WakesAt(p, es, |front|, c))
            && (WokenConfirmed(p, es, c) <==>
                  WokenConfirmed(p, front, c) || (WakesAt(p, es, |front|, c) && Confirmations(p, front, c) == 1))
  {
    hide After, Confirmations;
    var es := front + [e];
    assert es[..|front|] == front;
    forall k | 0 <= k < |front|
      ensures WakesAt(p, es, k, c) == WakesAt(p, front, k, c) && es[..k] == front[..k]
    {
      assert es[..k] == front[..k] && es[k] == front[k];
    }
    hide WakesAt;
  }

  lemma WakesLast(p: Process, front: seq<Event>, e: Event, c: nat)
    ensures var s := After(p, front);
            WakesAt(p, front + [e], |front|, c) <==> e == Wakes(c) && IsWaiting(s, c)
  {
    hide After;
    assert (front + [e])[..|front|] == front;
  }

  lemma NeverNotConfirmed(p: Process, es: seq<Event>, c: nat)
    ensures NeverWoken(p, es, c) ==> !WokenConfirmed(p, es, c)
  {
  }

  /** Over every run: as long as a call neither woke up nor ended, no event has woken it; from then on it reports
      its message as delivered exactly if its confirmation came before the event that woke it. */
  lemma {:induction false} EndsDeliveredExactly(p: Process, es: seq<Event>, c: nat)
    ensures match Report(After(p, es), c)
            case None => NeverWoken(p, es, c)
            case Some(delivered) => delivered <==> WokenConfirmed(p, es, c)
  {
    if es != [] {
      var front, e := es[..|es| - 1], es[|es| - 1];
      assert es == front + [e];
      var s := After(p, front);
      EndsDeliveredExactly(p, front, c);
      if IsWaiting(s, c) {
        ConfirmedMeansTold(p, front, c);
      }
      hide WokenConfirmed, NeverWoken, WakesAt, Confirmations, Next, Report, After;
      Snoc(p, front, e);
      StepReport(p, s, e, c);
      WakesLast(p, front, e, c);
      WokenSnoc(p, front, e, c);
      NeverNotConfirmed(p, front, c);
    } else {
      assert Report(After(p, es), c) == None;
    }
  }

  /** The converse fails: an acknowledgement between the timeout and the clean-up is accepted, yet the call
      ends as not delivered. */
  lemma ConfirmedTooLate(p: Process) returns (es: seq<Event>)
    ensures |After(p, es).calls| == 1 && After(p, es).calls[0].stage == Ended(false)
    ensures Confirmations(p, es, 0) == 1
  {
    es := [];
    Snoc(p, es, SendStarts); es := es + [SendStarts];
    Snoc(p, es, Registers(0)); es := es + [Registers(0)];
    Snoc(p, es, SendWorks(0)); es := es + [SendWorks(0)];
    Snoc(p, es, Wakes(0)); es := es + [Wakes(0)];
    assert After(p, es) == State({}, map[1 := 0], 2, [Call(1, Woken(false), false)]);
    Snoc(p, es, AckArrives(1)); es := es + [AckArrives(1)];
    Snoc(p, es, CleansUp(0)); es := es + [CleansUp(0)];
  }

  /** Ids are counted per process, but the key of an acknowledgement is only the id: after another process's
      acknowledgement with the same id passed through, this process's own one is dropped. */
  lemma ForeignAckBlocks(p: Process) returns (es: seq<Event>)
    ensures |After(p, es).calls| == 1 && After(p, es).calls[0].stage == Waiting && Holds(After(p, es), 0)
    ensures Last(p, es + [AckArrives(IdOf(0))]) == Duplicate
  {
    es := [];
    Snoc(p, es, AckArrives(1)); es := es + [AckArrives(1)];
    assert After(p, es) == State({AckKey(1)}, map[], 1, []);
    hide AckKey;
    Snoc(p, es, SendStarts); es := es + [SendStarts];
    Snoc(p, es, Registers(0)); es := es + [Registers(0)];
    Snoc(p, es, SendWorks(0)); es := es + [SendWorks(0)];
    assert After(p, es) == State({AckKey(1)}, map[1 := 0], 2, [Call(1, Waiting, false)]);
    Snoc(p, es, AckArrives(1));
  }
}
