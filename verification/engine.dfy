/**
 * The command dispatcher, modelled as logic only: the state effect and the
 * outward effects (listener calls and storage writes) of each command, the
 * countdown as explicit ticks of a single timer slot, the deferred
 * show-results step, the listener registry and the routing of storage keys.
 */
module SyncEngine {
  import opened Wrappers
  import opened Tally
  import opened Session
  import Text

  /** The identity of a registered callback (functions compare by reference). */
  type Callback = nat

  datatype ChatMessage = ChatMessage(id: string, user: string, message: string, timestamp: int, isTeacher: bool)

  /** What a step makes happen outside the service: a listener called for an
      event, a storage key written, or a full resynchronisation from storage. */
  datatype Effect = Invoke(callback: Callback, event: string) | Save(key: string) | SyncFromStorage

  datatype Service = Service(
    store: PollState,
    listeners: map<string, seq<Callback>>,
    pollTimer: Option<int>,   // the running interval and its `timeLeft`
    pendingReveals: nat,      // show-results timeouts scheduled and not yet fired
    chatMessages: seq<ChatMessage>)

  datatype Step = Step(service: Service, effects: seq<Effect>)

  /** The fields of `emit`'s loosely typed payload; a missing field reads empty. */
  datatype Data = Data(
    name: string, studentName: string, question: string, options: seq<string>,
    maxTime: int, option: string, user: string, message: string, isTeacher: bool)

  const Prefix := "poll_"
  const EventPrefix := "event_"

  /** The key `saveToStorage(key)` writes. */
  function StorageKey(key: string): string {
    Prefix + key
  }

  /** The key `broadcast(event)` writes for other tabs. */
  function EventKey(event: string): string {
    StorageKey(EventPrefix + event)
  }

  // ---------------------------------------------------------------- listeners

  /** `listeners[event] || []`. */
  function Registered(ls: map<string, seq<Callback>>, event: string): seq<Callback> {
    if event in ls then ls[event] else []
  }

  /** `callbacks.filter(cb => cb !== callback)`. */
  function Drop(cbs: seq<Callback>, cb: Callback): (r: seq<Callback>)
    ensures cb !in r
    ensures forall c :: c != cb ==> multiset(r)[c] == multiset(cbs)[c]
  {
    if |cbs| == 0 then []
    else
      assert cbs == [cbs[0]] + cbs[1..];
      (if cbs[0] == cb then [] else [cbs[0]]) + Drop(cbs[1..], cb)
  }

  /** `on(event, callback)`: append, without looking for an earlier copy. */
  function On(svc: Service, event: string, cb: Callback): (r: Service)
    ensures Registered(r.listeners, event) == Registered(svc.listeners, event) + [cb]
    ensures forall e :: e != event ==> Registered(r.listeners, e) == Registered(svc.listeners, e)
    ensures r.(listeners := svc.listeners) == svc
  {
    svc.(listeners := svc.listeners[event := Registered(svc.listeners, event) + [cb]])
  }

  /** `off(event, callback)`: remove every copy of `callback` for `event`. */
  function Off(svc: Service, event: string, cb: Callback): (r: Service)
    ensures Registered(r.listeners, event) == Drop(Registered(svc.listeners, event), cb)
    ensures forall e :: e != event ==> Registered(r.listeners, e) == Registered(svc.listeners, e)
    ensures r.(listeners := svc.listeners) == svc
  {
    if event in svc.listeners then svc.(listeners := svc.listeners[event := Drop(svc.listeners[event], cb)])
    else svc
  }

  /** `broadcast(event)`: call the event's listeners in registration order,
      then write the event key for other tabs. */
  function Broadcast(svc: Service, event: string): (r: seq<Effect>)
    ensures |r| == |Registered(svc.listeners, event)| + 1
    ensures forall i :: 0 <= i < |r| - 1 ==> r[i] == Invoke(Registered(svc.listeners, event)[i], event)
    ensures r[|r| - 1] == Save(EventKey(event))
  {
    var cbs := Registered(svc.listeners, event);
    seq(|cbs|, i requires 0 <= i < |cbs| => Invoke(cbs[i], event)) + [Save(EventKey(event))]
  }

  // ---------------------------------------------------------------- timers

  /** `startPollTimer(maxTime)`: cancel any running interval, start one at
      `maxTime` and publish the time. */
  function StartPollTimer(svc: Service, maxTime: int): (r: Step)
    ensures r.service.pollTimer == Some(maxTime)
  {
    Step(svc.(pollTimer := Some(maxTime), store := SetTimeRemaining(svc.store, maxTime)),
         [Save(StorageKey("timeRemaining"))])
  }

  /** `endPollTimer()`: stop the interval, end the poll and show the results. */
  function EndPollTimer(svc: Service): (r: Step)
    ensures r.service.pollTimer.None?
  {
    var s := svc.(pollTimer := None, store := SetShowResults(EndPoll(svc.store), true));
    Step(s, [Save(StorageKey("pollActive")), Save(StorageKey("showResults"))]
            + Broadcast(s, "pollEnded") + Broadcast(s, "showResults"))
  }

  /** One firing of the one-second interval. Without a running interval there
      is nothing to fire. */
  function Tick(svc: Service): (r: Step)
    ensures svc.pollTimer.None? ==> r == Step(svc, [])
  {
    match svc.pollTimer
    case None => Step(svc, [])
    case Some(left) =>
      var t := left - 1;
      var s := svc.(pollTimer := Some(t), store := SetTimeRemaining(svc.store, t));
      var effects := [Save(StorageKey("timeRemaining"))] + Broadcast(s, "timeUpdate");
      if t <= 0 then
        var e := EndPollTimer(s);
        Step(e.service, effects + e.effects)
      else Step(s, effects)
  }

  /** `k` firings in a row. */
  function Ticks(svc: Service, k: nat): Service
    decreases k
  {
    if k == 0 then svc else Ticks(Tick(svc).service, k - 1)
  }

  /** The all-answered test of `checkIfAllAnswered`. */
  predicate AllAnswered(ss: seq<Student>) {
    |ss| > 0 && forall i :: 0 <= i < |ss| ==> ss[i].hasAnswered
  }

  /** `checkIfAllAnswered()`: schedule a deferred show-results when the roster
      is non-empty and everyone has answered. It does not end the poll. */
  function CheckIfAllAnswered(svc: Service): (r: Service)
    ensures r.store == svc.store
  {
    if AllAnswered(svc.store.students) then svc.(pendingReveals := svc.pendingReveals + 1) else svc
  }

  /** The deferred body scheduled by `checkIfAllAnswered`, when it fires. */
  function Reveal(svc: Service): (r: Step)
    ensures svc.pendingReveals == 0 ==> r == Step(svc, [])
    ensures svc.pendingReveals > 0 ==>
      && r.service.pendingReveals == svc.pendingReveals - 1
      && r.service.store == svc.store.(showResults := true)
      && r.service.(pendingReveals := svc.pendingReveals, store := svc.store) == svc
      && |r.effects| > 0 && r.effects[|r.effects| - 1] == Save(StorageKey("showResults"))
  {
    if svc.pendingReveals == 0 then Step(svc, [])
    else
      var s := svc.(pendingReveals := svc.pendingReveals - 1, store := SetShowResults(svc.store, true));
      Step(s, Broadcast(s, "showResults") + [Save(StorageKey("showResults"))])
  }

  // ---------------------------------------------------------------- commands

  /** The command names `emit` handles. */
  const Commands: set<string> :=
    {"requestJoin", "approveStudent", "rejectStudent", "createPoll", "submitVote",
     "removeStudent", "removePoll", "sendMessage"}

  /** `requestJoin`: an unknown name is queued and announced. Only approved
      and pending names are checked here; the reducer also checks kicked ones. */
  function HandleRequestJoin(svc: Service, data: Data, now: int): Step {
    var st := svc.store;
    if data.name !in StudentNames(st.students) && data.name !in PendingNames(st.pendingStudents) then
      var s := svc.(store := AddPendingStudent(st, data.name, now));
      Step(s, Broadcast(s, "studentJoinRequest") + [Save(StorageKey("pendingStudents"))])
    else Step(svc, [])
  }

  /** `approveStudent`. */
  function HandleApprove(svc: Service, data: Data): Step {
    var s := svc.(store := ApproveStudent(svc.store, data.studentName));
    Step(s, Broadcast(s, "studentApproved")
            + [Save(StorageKey("students")), Save(StorageKey("pendingStudents"))])
  }

  /** `rejectStudent`. */
  function HandleReject(svc: Service, data: Data): Step {
    var s := svc.(store := RejectStudent(svc.store, data.studentName));
    Step(s, Broadcast(s, "studentRejected") + [Save(StorageKey("pendingStudents"))])
  }

  /** `createPoll`: open the poll with results hidden, then start the countdown. */
  function HandleCreatePoll(svc: Service, data: Data, now: int): Step {
    var s := svc.(store := SetShowResults(CreatePoll(svc.store, data.question, data.options, data.maxTime, now), false));
    var t := StartPollTimer(s, data.maxTime);
    Step(t.service, Broadcast(s, "newPoll")
            + [Save(StorageKey("currentPoll")), Save(StorageKey("pollActive")), Save(StorageKey("showResults"))]
            + t.effects)
  }

  /** `submitVote`: record the vote, then check whether everyone has answered. */
  function HandleSubmitVote(svc: Service, data: Data): Step {
    var s := svc.(store := SubmitVote(svc.store, data.studentName, data.option));
    Step(CheckIfAllAnswered(s), Broadcast(s, "voteSubmitted") + [Save(StorageKey("pollVotes"))])
  }

  /** `removeStudent`. */
  function HandleRemoveStudent(svc: Service, data: Data): Step {
    var s := svc.(store := RemoveStudent(svc.store, data.studentName));
    Step(s, Broadcast(s, "studentRemoved") + [Save(StorageKey("students"))])
  }

  /** `removePoll`: stop the countdown, then clear the poll with `clearPoll`. */
  function HandleRemovePoll(svc: Service): Step {
    var e := EndPollTimer(svc);
    var s := e.service.(store := ClearPoll(e.service.store));
    Step(s, e.effects + Broadcast(s, "pollRemoved")
            + [Save(StorageKey("currentPoll")), Save(StorageKey("pollActive"))])
  }

  /** `sendMessage`: append to the chat log, with the timestamp's text as id. */
  function HandleSendMessage(svc: Service, data: Data, now: int): Step {
    var m := ChatMessage(Text.IntToString(now), data.user, data.message, now, data.isTeacher);
    var s := svc.(chatMessages := svc.chatMessages + [m]);
    Step(s, Broadcast(s, "newMessage") + [Save(StorageKey("chatMessages"))])
  }

  /** `emit(event, data)`, with `now` standing for `Date.now()`. Unknown
      commands are ignored. */
  function Emit(svc: Service, event: string, data: Data, now: int): (r: Step)
    ensures event !in Commands ==> r == Step(svc, [])
  {
    if event == "requestJoin" then HandleRequestJoin(svc, data, now)
    else if event == "approveStudent" then HandleApprove(svc, data)
    else if event == "rejectStudent" then HandleReject(svc, data)
    else if event == "createPoll" then HandleCreatePoll(svc, data, now)
    else if event == "submitVote" then HandleSubmitVote(svc, data)
    else if event == "removeStudent" then HandleRemoveStudent(svc, data)
    else if event == "removePoll" then HandleRemovePoll(svc)
    else if event == "sendMessage" then HandleSendMessage(svc, data, now)
    else Step(svc, [])
  }

  // ---------------------------------------------------------------- storage events

  /** How another tab's storage write is handled. */
  datatype Route = Ignore | ReplayEvent(event: string) | SyncSnapshot

  /** The key routing of `handleStorageChange`: keys outside `poll_` are
      ignored; `poll_event_<e>` replays event `e`; any other `poll_` key
      triggers a resynchronisation. */
  function RouteKey(key: Option<string>): (r: Route)
    ensures r == Ignore <==> key.None? || !Text.StartsWith(key.value, Prefix)
  {
    match key
    case None => Ignore
    case Some(k) =>
      if !Text.StartsWith(k, Prefix) then Ignore
      else
        var rest := Text.ReplaceFirst(k, Prefix, "");
        if Text.StartsWith(rest, EventPrefix) then ReplayEvent(Text.ReplaceFirst(rest, EventPrefix, ""))
        else SyncSnapshot
  }

  /** `handleStorageChange`: a replayed event calls its local listeners in order
      when the written value carries data. */
  function HandleStorageChange(svc: Service, key: Option<string>, hasData: bool): (r: seq<Effect>)
    ensures RouteKey(key) == Ignore ==> r == []
  {
    match RouteKey(key)
    case Ignore => []
    case ReplayEvent(e) =>
      if hasData then
        var cbs := Registered(svc.listeners, e);
        seq(|cbs|, i requires 0 <= i < |cbs| => Invoke(cbs[i], e))
      else []
    case SyncSnapshot => [SyncFromStorage]
  }
}
