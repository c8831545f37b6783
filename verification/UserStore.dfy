/** Local user data: one chat log per contact, and profiles behind a cache. */
module UserStores {
  import opened Collections

  const U64: nat := 0x1_0000_0000_0000_0000

  datatype ChatMessage = ChatMessage(
    id: nat,
    contactAddress: string,
    content: string,
    isSent: bool,
    status: string,
    timestamp: int)

  type ChatLog = seq<ChatMessage>

  /** A new message, before the log gives it an id. */
  datatype Draft = Draft(content: string, isSent: bool, status: string, now: int)

  function NextId(log: ChatLog): nat {
    if log == [] then 1 else (log[|log| - 1].id + 1) % U64
  }

  function Stamp(log: ChatLog, contact: string, d: Draft): ChatMessage {
    ChatMessage(NextId(log), contact, d.content, d.isSent, d.status, d.now)
  }

  predicate IsUnread(m: ChatMessage) {
    !m.isSent && m.status == "received"
  }

  function CountUnread(log: ChatLog): nat {
    if log == [] then 0 else CountUnread(log[..|log| - 1]) + if IsUnread(log[|log| - 1]) then 1 else 0
  }

  function MarkOne(m: ChatMessage): ChatMessage {
    if IsUnread(m) then m.(status := "read") else m
  }

  /** The newest sent message gets the status; without one, nothing changes. */
  function WithSentStatus(log: ChatLog, status: string): ChatLog {
    if log == [] then []
    else
      var last := log[|log| - 1];
      if last.isSent then log[..|log| - 1] + [last.(status := status)]
      else WithSentStatus(log[..|log| - 1], status) + [last]
  }

  function LogOf(chats: map<string, ChatLog>, contact: string): ChatLog {
    if contact in chats then chats[contact] else []
  }

  // ---------------------------------------------------------------- profiles

  datatype UserProfile = UserProfile(
    name: string,
    notes: string,
    avatarPath: Option<string>,
    addedAt: int,
    nickname: string,
    gender: string,
    age: nat,
    country: string,
    ethnicity: string,
    bloodType: string,
    heightCm: nat,
    weightKg: nat,
    education: string,
    homeAddress: string)

  function DefaultProfile(now: int): UserProfile {
    UserProfile("", "", None, now, "", "", 0, "", "", "", 0, 0, "", "")
  }

  /** What disk and cache hold. A profile that was never saved may still be cached. */
  datatype Profiles = Profiles(disk: map<string, UserProfile>, cache: map<string, UserProfile>)

  function Loaded(ps: Profiles, address: string, now: int): UserProfile {
    if address in ps.cache then ps.cache[address]
    else if address in ps.disk then ps.disk[address]
    else DefaultProfile(now)
  }

  datatype ProfileOp = Save(address: string, profile: UserProfile) | Load(address: string, now: int) | ClearCache

  function OnProfile(ps: Profiles, op: ProfileOp): Profiles {
    match op
    case Save(a, p) => Profiles(ps.disk[a := p], ps.cache[a := p])
    case Load(a, now) => ps.(cache := ps.cache[a := Loaded(ps, a, now)])
    case ClearCache => ps.(cache := map[])
  }

  // ---------------------------------------------------------------- the store

  datatype ChatOp = Add(draft: Draft) | UpdateSent(status: string) | MarkRead

  function OnLog(log: ChatLog, contact: string, op: ChatOp): ChatLog {
    match op
    case Add(d) => log + [Stamp(log, contact, d)]
    case UpdateSent(status) => WithSentStatus(log, status)
    case MarkRead => Map(MarkOne, log)
  }

  /** The log with its first i messages marked. */
  function MarkedUpTo(log: ChatLog, i: nat): ChatLog
    requires i <= |log|
  {
    Map(MarkOne, log[..i]) + log[i..]
  }

  lemma MarkNext(log: ChatLog, i: nat)
    requires i < |log|
    ensures MarkedUpTo(log, i)[i] == log[i]
    ensures MarkedUpTo(log, i + 1)
         == if IsUnread(log[i]) then MarkedUpTo(log, i)[i := log[i].(status := "read")] else MarkedUpTo(log, i)
  {
    assert MarkOne(log[i]) == if IsUnread(log[i]) then log[i].(status := "read") else log[i];
    hide MarkOne, IsUnread;
    assert log[..i + 1] == log[..i] + [log[i]];
    MapAppend(MarkOne, log[..i], [log[i]]);
    assert log[i..] == [log[i]] + log[i + 1..];
  }

  lemma AllMarked(log: ChatLog)
    ensures MarkedUpTo(log, 0) == log && MarkedUpTo(log, |log|) == Map(MarkOne, log)
  {
    assert log[..|log|] == log;
  }

  /** The loop of `mark_as_read`, and whether it changed anything. */
  method MarkMessages(log: ChatLog) returns (msgs: ChatLog, changed: bool)
    ensures msgs == Map(MarkOne, log) && (!changed ==> msgs == log)
  {
    msgs, changed := log, false;
    AllMarked(log);
    hide MarkedUpTo, Map, MarkOne;
    var i := 0;
    while i < |msgs|
      invariant 0 <= i <= |msgs| == |log|
      invariant msgs == MarkedUpTo(log, i)
      invariant !changed ==> msgs == log
    {
      MarkNext(log, i);
      if !msgs[i].isSent && msgs[i].status == "received" {
        msgs := msgs[i := msgs[i].(status := "read")];
        changed := true;
      }
      i := i + 1;
    }
  }

  class UserStore {
    var chats: map<string, ChatLog>
    var profileFiles: map<string, UserProfile>
    var profileCache: map<string, UserProfile>

    constructor ()
      ensures chats == map[] && profileFiles == map[] && profileCache == map[]
    {
      chats, profileFiles, profileCache := map[], map[], map[];
    }

    function ProfileState(): Profiles
      reads this
    {
      Profiles(profileFiles, profileCache)
    }

    method AddMessage(contact: string, d: Draft) returns (m: ChatMessage)
      modifies this`chats
      ensures LogOf(chats, contact) == OnLog(LogOf(old(chats), contact), contact, Add(d))
      ensures forall other | other != contact :: LogOf(chats, other) == LogOf(old(chats), other)
      ensures LogOf(chats, contact) == LogOf(old(chats), contact) + [m]
      ensures m == ChatMessage(m.id, contact, d.content, d.isSent, d.status, d.now)
    {
      var msgs := LogOf(chats, contact);
      var nextId := if msgs == [] then 1 else (msgs[|msgs| - 1].id + 1) % U64;
      m := ChatMessage(nextId, contact, d.content, d.isSent, d.status, d.now);
      msgs := msgs + [m];
      chats := chats[contact := msgs];
    }

    /** Searches from the end; the file is written only if a sent message was found. */
    method UpdateLastSentStatus(contact: string, newStatus: string)
      modifies this`chats
      ensures LogOf(chats, contact) == OnLog(LogOf(old(chats), contact), contact, UpdateSent(newStatus))
      ensures |LogOf(chats, contact)| == |LogOf(old(chats), contact)|
      ensures forall i | 0 <= i < |LogOf(chats, contact)| ::
                var was := LogOf(old(chats), contact);
                LogOf(chats, contact)[i] == if was[i].isSent && (forall k | i < k < |was| :: !was[k].isSent)
                                            then was[i].(status := newStatus) else was[i]
      ensures forall other | other != contact :: LogOf(chats, other) == LogOf(old(chats), other)
    {
      var msgs := LogOf(chats, contact);
      var i := |msgs|;
      while i > 0 && !msgs[i - 1].isSent
        invariant 0 <= i <= |msgs|
        invariant forall k | i <= k < |msgs| :: !msgs[k].isSent
      {
        i := i - 1;
      }
      UpdatesAt(msgs, newStatus, i);
      if i > 0 {
        chats := chats[contact := msgs[i - 1 := msgs[i - 1].(status := newStatus)]];
      }
    }

    method MarkAsRead(contact: string)
      modifies this`chats
      ensures LogOf(chats, contact) == OnLog(LogOf(old(chats), contact), contact, MarkRead)
      ensures |LogOf(chats, contact)| == |LogOf(old(chats), contact)|
      ensures forall i | 0 <= i < |LogOf(chats, contact)| ::
                var was := LogOf(old(chats), contact)[i];
                LogOf(chats, contact)[i] == if !was.isSent && was.status == "received" then was.(status := "read") else was
      ensures forall other | other != contact :: LogOf(chats, other) == LogOf(old(chats), other)
    {
      var msgs, changed := MarkMessages(LogOf(chats, contact));
      if changed {
        chats := chats[contact := msgs];
      }
    }

    method GetUnreadCount(contact: string) returns (n: nat)
      ensures n == CountUnread(LogOf(chats, contact))
    {
      var msgs := LogOf(chats, contact);
      n := 0;
      var i := 0;
      while i < |msgs|
        invariant 0 <= i <= |msgs|
        invariant n == CountUnread(msgs[..i])
      {
        assert msgs[..i + 1][..i] == msgs[..i];
        if !msgs[i].isSent && msgs[i].status == "received" {
          n := n + 1;
        }
        i := i + 1;
      }
      assert msgs[..i] == msgs;
    }

    method SaveProfile(address: string, profile: UserProfile)
      modifies this`profileFiles, this`profileCache
      ensures ProfileState() == OnProfile(old(ProfileState()), Save(address, profile))
      ensures profileFiles == old(profileFiles)[address := profile] && profileCache == old(profileCache)[address := profile]
    {
      profileFiles := profileFiles[address := profile];
      profileCache := profileCache[address := profile];
    }

    method LoadProfile(address: string, now: int) returns (profile: UserProfile)
      modifies this`profileCache
      ensures profile == Loaded(old(ProfileState()), address, now)
      ensures address in old(profileCache) ==> profile == old(profileCache)[address] && profileCache == old(profileCache)
      ensures address !in old(profileCache) && address in profileFiles ==> profile == profileFiles[address]
      ensures address !in old(profileCache) && address !in profileFiles ==>
                profile == UserProfile("", "", None, now, "", "", 0, "", "", "", 0, 0, "", "")
      ensures ProfileState() == OnProfile(old(ProfileState()), Load(address, now))
    {
      if address in profileCache {
        profile := profileCache[address];
        assert profileCache[address := profile] == profileCache;
        return;
      }
      profile := if address in profileFiles then profileFiles[address] else DefaultProfile(now);
      profileCache := profileCache[address := profile];
    }

    method ClearProfileCache()
      modifies this`profileCache
      ensures ProfileState() == OnProfile(old(ProfileState()), ClearCache)
      ensures profileCache == map[]
    {
      profileCache := map[];
    }
  }

  lemma {:induction false} UpdatesAt(log: ChatLog, status: string, i: nat)
    requires i <= |log| && forall k | i <= k < |log| :: !log[k].isSent
    requires i > 0 ==> log[i - 1].isSent
    ensures WithSentStatus(log, status) == if i > 0 then log[i - 1 := log[i - 1].(status := status)] else log
    decreases |log|
  {
    if i < |log| {
      UpdatesAt(log[..|log| - 1], status, i);
    }
  }

  // ---------------------------------------------------------------- chat logs over runs

  datatype ChatCall = ChatCall(contact: string, op: ChatOp)

  /** The log of one contact after a run of calls for any contacts. */
  function LogAfter(calls: seq<ChatCall>, contact: string): ChatLog {
    if calls == [] then []
    else
      var log, c := LogAfter(calls[..|calls| - 1], contact), calls[|calls| - 1];
      if c.contact == contact then OnLog(log, contact, c.op) else log
  }

  /** What was added for a contact, in order. */
  function AddsFor(calls: seq<ChatCall>, contact: string): seq<Draft> {
    if calls == [] then []
    else
      var c := calls[|calls| - 1];
      AddsFor(calls[..|calls| - 1], contact) + if c.contact == contact && c.op.Add? then [c.op.draft] else []
  }

  /** The messages received from a contact since its log was last marked as read. */
  function ReceivedSinceRead(calls: seq<ChatCall>, contact: string): nat {
    if calls == [] then 0
    else
      var n, c := ReceivedSinceRead(calls[..|calls| - 1], contact), calls[|calls| - 1];
      if c.contact != contact then n
      else
        match c.op
        case Add(d) => n + if !d.isSent && d.status == "received" then 1 else 0
        case UpdateSent(_) => n
        case MarkRead => 0
  }

  /** Everything of a message but its status. */
  predicate SameButStatus(m: ChatMessage, m': ChatMessage) {
    m.(status := "") == m'.(status := "")
  }

  lemma {:induction false} StatusUpdateKeeps(log: ChatLog, status: string)
    ensures |WithSentStatus(log, status)| == |log|
    ensures forall i | 0 <= i < |log| :: SameButStatus(WithSentStatus(log, status)[i], log[i])
  {
    if log != [] {
      StatusUpdateKeeps(log[..|log| - 1], status);
    }
  }

  /** No call but `add_message` touches anything but statuses. */
  lemma UpdatesKeepMessages(log: ChatLog, contact: string, op: ChatOp)
    requires !op.Add?
    ensures |OnLog(log, contact, op)| == |log|
    ensures forall i | 0 <= i < |log| :: SameButStatus(OnLog(log, contact, op)[i], log[i])
  {
    if op.UpdateSent? {
      StatusUpdateKeeps(log, op.status);
    }
    hide WithSentStatus;
  }

  /** The message a draft becomes at a position of the log, whatever its status by now. */
  predicate Records(m: ChatMessage, i: nat, contact: string, d: Draft) {
    SameButStatus(m, ChatMessage(i + 1, contact, d.content, d.isSent, "", d.now))
  }

  /** After any run the log holds what was added, in order, under the ids 1 to n. */
  lemma {:induction false} LogIsWhatWasAdded(calls: seq<ChatCall>, contact: string)
    requires |calls| < U64
    ensures |LogAfter(calls, contact)| == |AddsFor(calls, contact)| <= |calls|
    ensures forall i | 0 <= i < |AddsFor(calls, contact)| ::
              Records(LogAfter(calls, contact)[i], i, contact, AddsFor(calls, contact)[i])
  {
    if calls != [] {
      var front, c := calls[..|calls| - 1], calls[|calls| - 1];
      LogIsWhatWasAdded(front, contact);
      var log := LogAfter(front, contact);
      if c.contact == contact {
        if c.op.Add? {
          NextIdInOrder(log, contact, AddsFor(front, contact));
        } else {
          UpdatesKeepMessages(log, contact, c.op);
          assert AddsFor(calls, contact) == AddsFor(front, contact);
          hide OnLog;
          forall i | 0 <= i < |log|
            ensures Records(OnLog(log, contact, c.op)[i], i, contact, AddsFor(front, contact)[i])
          {
            assert SameButStatus(OnLog(log, contact, c.op)[i], log[i]);
          }
        }
      }
    }
  }

  lemma NextIdInOrder(log: ChatLog, contact: string, ds: seq<Draft>)
    requires |log| == |ds| < U64 - 1
    requires forall i | 0 <= i < |ds| :: Records(log[i], i, contact, ds[i])
    ensures NextId(log) == |log| + 1
  {
    if log != [] {
      assert Records(log[|log| - 1], |log| - 1, contact, ds[|log| - 1]);
    }
  }

  lemma CountSnoc(log: ChatLog, m: ChatMessage)
    ensures CountUnread(log + [m]) == CountUnread(log) + if IsUnread(m) then 1 else 0
  {
    assert (log + [m])[..|log|] == log;
  }

  lemma {:induction false} StatusUpdateKeepsUnread(log: ChatLog, status: string)
    ensures CountUnread(WithSentStatus(log, status)) == CountUnread(log)
  {
    if log != [] {
      var front, last := log[..|log| - 1], log[|log| - 1];
      StatusUpdateKeepsUnread(front, status);
      CountSnoc(front, last.(status := status));
      CountSnoc(WithSentStatus(front, status), last);
    }
  }

  lemma {:induction false} NoneUnreadAfterMark(log: ChatLog)
    ensures CountUnread(Map(MarkOne, log)) == 0
  {
    if log != [] {
      var front := log[..|log| - 1];
      NoneUnreadAfterMark(front);
      assert Map(MarkOne, log)[..|log| - 1] == Map(MarkOne, front);
    }
  }

  /** The unread count is the number of messages received since the log was last marked as read; status
      updates of sent messages and calls for other contacts do not move it. */
  lemma {:induction false} UnreadSinceRead(calls: seq<ChatCall>, contact: string)
    ensures CountUnread(LogAfter(calls, contact)) == ReceivedSinceRead(calls, contact)
  {
    if calls != [] {
      var front, c := calls[..|calls| - 1], calls[|calls| - 1];
      UnreadSinceRead(front, contact);
      var log := LogAfter(front, contact);
      match c.op
      case Add(d) => CountSnoc(log, Stamp(log, contact, d));
      case UpdateSent(status) => StatusUpdateKeepsUnread(log, status);
      case MarkRead => NoneUnreadAfterMark(log);
    }
  }

  // ---------------------------------------------------------------- profiles over runs

  function ProfilesAfter(ops: seq<ProfileOp>): Profiles {
    if ops == [] then Profiles(map[], map[]) else OnProfile(ProfilesAfter(ops[..|ops| - 1]), ops[|ops| - 1])
  }

  function LastSaved(ops: seq<ProfileOp>, address: string): Option<UserProfile> {
    if ops == [] then None
    else
      var op := ops[|ops| - 1];
      if op.Save? && op.address == address then Some(op.profile) else LastSaved(ops[..|ops| - 1], address)
  }

  /** When an address was first loaded after the last clear of the cache. */
  function FirstLoad(ops: seq<ProfileOp>, address: string): Option<int> {
    if ops == [] then None
    else
      var first, op := FirstLoad(ops[..|ops| - 1], address), ops[|ops| - 1];
      match op
      case Save(_, _) => first
      case Load(a, now) => if a == address && first == None then Some(now) else first
      case ClearCache => None
  }

  /** What the next load has to return. */
  function Expected(ops: seq<ProfileOp>, address: string, now: int): UserProfile {
    match LastSaved(ops, address)
    case Some(p) => p
    case None => DefaultProfile(match FirstLoad(ops, address) case Some(t) => t case None => now)
  }

  lemma {:induction false} CacheAgrees(ops: seq<ProfileOp>, address: string)
    ensures var ps := ProfilesAfter(ops);
            && (address in ps.disk <==> LastSaved(ops, address).Some?)
            && (address in ps.disk ==> ps.disk[address] == LastSaved(ops, address).value)
            && (address in ps.disk && address in ps.cache ==> ps.cache[address] == ps.disk[address])
            && (address !in ps.disk ==> (address in ps.cache <==> FirstLoad(ops, address).Some?))
            && (address !in ps.disk && address in ps.cache ==> ps.cache[address] == DefaultProfile(FirstLoad(ops, address).value))
  {
    if ops != [] {
      CacheAgrees(ops[..|ops| - 1], address);
      hide DefaultProfile;
    }
  }

  /** For calls one after another, a load returns what the last save stored, cache or no cache. Without a save
      it returns the default profile, dated by the first load since the cache was last cleared. */
  lemma LoadReturnsLastSaved(ops: seq<ProfileOp>, address: string, now: int)
    ensures Loaded(ProfilesAfter(ops), address, now) == Expected(ops, address, now)
  {
    CacheAgrees(ops, address);
    hide DefaultProfile, ProfilesAfter;
  }
}
