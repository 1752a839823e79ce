/** Properties of the command dispatcher: the listener registry, the storage
    key round trip, the countdown, and what each command does to the store. */
module SyncEngineProperties {
  import opened Wrappers
  import opened Tally
  import opened Session
  import opened SessionProperties
  import opened SyncEngine
  import Text

  // ---------------------------------------------------------------- listeners

  lemma {:induction false} DropAbsent(cbs: seq<Callback>, cb: Callback)
    requires cb !in cbs
    ensures Drop(cbs, cb) == cbs
    decreases |cbs|
  {
    if |cbs| > 0 {
      DropAbsent(cbs[1..], cb);
      assert cbs == [cbs[0]] + cbs[1..];
    }
  }

  lemma DropHead(cbs: seq<Callback>, cb: Callback)
    requires |cbs| > 0
    ensures Drop(cbs, cb) == (if cbs[0] == cb then [] else [cbs[0]]) + Drop(cbs[1..], cb)
  {
  }

  lemma {:induction false} DropAppend(a: seq<Callback>, b: seq<Callback>, cb: Callback)
    ensures Drop(a + b, cb) == Drop(a, cb) + Drop(b, cb)
    decreases |a|
  {
    if |a| == 0 {
      assert a + b == b;
    } else {
      var head := if a[0] == cb then [] else [a[0]];
      calc {
        Drop(a + b, cb);
      == { DropHead(a + b, cb); assert (a + b)[1..] == a[1..] + b; }
        head + Drop(a[1..] + b, cb);
      == { DropAppend(a[1..], b, cb); }
        head + (Drop(a[1..], cb) + Drop(b, cb));
      == { DropHead(a, cb); }
        Drop(a, cb) + Drop(b, cb);
      }
    }
  }

  /** Registering a callback that was not registered and then unregistering
      it leaves every event's listener list as it was. */
  lemma OffUndoesOn(svc: Service, e: string, cb: Callback)
    requires cb !in Registered(svc.listeners, e)
    ensures forall e' :: Registered(Off(On(svc, e, cb), e, cb).listeners, e') == Registered(svc.listeners, e')
  {
    var before := Registered(svc.listeners, e);
    DropAppend(before, [cb], cb);
    DropAbsent(before, cb);
    assert Drop([cb], cb) == [];
  }

  /** Registration does not look for an earlier copy: registering twice makes
      a broadcast call the callback two more times. */
  lemma OnStacks(svc: Service, e: string, cb: Callback)
    ensures var cbs := Registered(On(On(svc, e, cb), e, cb).listeners, e);
      multiset(cbs)[cb] == multiset(Registered(svc.listeners, e))[cb] + 2
  {
    var before := Registered(svc.listeners, e);
    assert Registered(On(On(svc, e, cb), e, cb).listeners, e) == before + [cb] + [cb];
  }

  /** After `off`, a broadcast of the event calls that callback no more,
      however often it had been registered, and still calls every other one. */
  lemma OffSilences(svc: Service, e: string, cb: Callback)
    ensures forall i :: 0 <= i < |Broadcast(Off(svc, e, cb), e)| ==> Broadcast(Off(svc, e, cb), e)[i] != Invoke(cb, e)
    ensures forall c :: c != cb ==>
      multiset(Registered(Off(svc, e, cb).listeners, e))[c] == multiset(Registered(svc.listeners, e))[c]
  {
    var cbs := Registered(Off(svc, e, cb).listeners, e);
    assert cb !in cbs;
    forall i | 0 <= i < |Broadcast(Off(svc, e, cb), e)|
      ensures Broadcast(Off(svc, e, cb), e)[i] != Invoke(cb, e)
    {
      if i < |cbs| {
        assert Broadcast(Off(svc, e, cb), e)[i] == Invoke(cbs[i], e);
      }
    }
  }

  /** A broadcast calls the event's listeners in registration order, then
      writes the event key. */
  lemma BroadcastOrder(svc: Service, e: string)
    ensures var es := Broadcast(svc, e);
      var cbs := Registered(svc.listeners, e);
      && (forall i :: 0 <= i < |cbs| ==> es[i] == Invoke(cbs[i], e))
      && es[|es| - 1] == Save(EventKey(e))
  {
  }

  // ---------------------------------------------------------------- storage keys

  lemma StorageKeyPrefixed(k: string)
    ensures Text.StartsWith(StorageKey(k), Prefix)
    ensures Text.ReplaceFirst(StorageKey(k), Prefix, "") == k
  {
    assert StorageKey(k)[..|Prefix|] == Prefix;
    Text.ReplaceFirstStripsPrefix(Prefix, k);
  }

  /** The key a broadcast writes is read back by another tab as that event. */
  lemma RouteEventKey(e: string)
    ensures RouteKey(Some(EventKey(e))) == ReplayEvent(e)
  {
    StorageKeyPrefixed(EventPrefix + e);
    assert (EventPrefix + e)[..|EventPrefix|] == EventPrefix;
    Text.ReplaceFirstStripsPrefix(EventPrefix, e);
  }

  /** A data key written by `saveToStorage` makes another tab resynchronise. */
  lemma RouteDataKey(k: string)
    requires !Text.StartsWith(k, EventPrefix)
    ensures RouteKey(Some(StorageKey(k))) == SyncSnapshot
  {
    StorageKeyPrefixed(k);
  }

  /** A key is ignored exactly when it lacks the `poll_` prefix. */
  lemma RouteIgnoresOnlyForeignKeys(k: string)
    ensures RouteKey(Some(k)) == Ignore <==> !Text.StartsWith(k, Prefix)
  {
  }

  /** Another tab replaying a broadcast calls the same listeners in the same
      order as the broadcast does locally; only the storage write is missing. */
  lemma ReplayMatchesBroadcast(svc: Service, e: string)
    ensures HandleStorageChange(svc, Some(EventKey(e)), true) + [Save(EventKey(e))] == Broadcast(svc, e)
  {
    RouteEventKey(e);
  }

  /** Every storage write carries the `poll_` prefix. */
  ghost predicate SavesPrefixed(es: seq<Effect>) {
    forall i :: 0 <= i < |es| && es[i].Save? ==> Text.StartsWith(es[i].key, Prefix)
  }

  lemma BroadcastSavesPrefixed(svc: Service, e: string)
    ensures SavesPrefixed(Broadcast(svc, e))
  {
    StorageKeyPrefixed(EventPrefix + e);
  }

  lemma SavesPrefixedAppend(a: seq<Effect>, b: seq<Effect>)
    requires SavesPrefixed(a) && SavesPrefixed(b)
    ensures SavesPrefixed(a + b)
  {
    forall i | 0 <= i < |a + b| && (a + b)[i].Save?
      ensures Text.StartsWith((a + b)[i].key, Prefix)
    {
      if i >= |a| {
        assert (a + b)[i] == b[i - |a|];
      }
    }
  }

  lemma SavePrefixed(k: string)
    ensures SavesPrefixed([Save(StorageKey(k))])
  {
    StorageKeyPrefixed(k);
  }

  /** A broadcast followed by writes of data keys. */
  lemma BroadcastThenSaves(s: Service, e: string, keys: seq<string>, es: seq<Effect>)
    requires |es| == |keys| && forall i :: 0 <= i < |keys| ==> es[i] == Save(StorageKey(keys[i]))
    ensures SavesPrefixed(Broadcast(s, e) + es)
  {
    BroadcastSavesPrefixed(s, e);
    forall i | 0 <= i < |keys| ensures Text.StartsWith(es[i].key, Prefix) {
      StorageKeyPrefixed(keys[i]);
    }
    SavesPrefixedAppend(Broadcast(s, e), es);
  }

  lemma EndPollTimerSavesPrefixed(svc: Service)
    ensures SavesPrefixed(EndPollTimer(svc).effects)
  {
    var s := EndPollTimer(svc).service;
    var head := [Save(StorageKey("pollActive")), Save(StorageKey("showResults"))];
    StorageKeyPrefixed("pollActive");
    StorageKeyPrefixed("showResults");
    BroadcastSavesPrefixed(s, "pollEnded");
    BroadcastSavesPrefixed(s, "showResults");
    SavesPrefixedAppend(head, Broadcast(s, "pollEnded"));
    SavesPrefixedAppend(head + Broadcast(s, "pollEnded"), Broadcast(s, "showResults"));
  }

  lemma StartPollTimerSavesPrefixed(svc: Service, maxTime: int)
    ensures SavesPrefixed(StartPollTimer(svc, maxTime).effects)
  {
    StorageKeyPrefixed("timeRemaining");
  }

  lemma RequestJoinSavesPrefixed(svc: Service, data: Data, now: int)
    ensures SavesPrefixed(HandleRequestJoin(svc, data, now).effects)
  {
    var r := HandleRequestJoin(svc, data, now);
    if r.effects != [] {
      BroadcastThenSaves(r.service, "studentJoinRequest", ["pendingStudents"], [Save(StorageKey("pendingStudents"))]);
    }
  }

  lemma CreatePollSavesPrefixed(svc: Service, data: Data, now: int)
    ensures SavesPrefixed(HandleCreatePoll(svc, data, now).effects)
  {
    var s := svc.(store := SetShowResults(CreatePoll(svc.store, data.question, data.options, data.maxTime, now), false));
    var saves := [Save(StorageKey("currentPoll")), Save(StorageKey("pollActive")), Save(StorageKey("showResults"))];
    BroadcastThenSaves(s, "newPoll", ["currentPoll", "pollActive", "showResults"], saves);
    StartPollTimerSavesPrefixed(s, data.maxTime);
    SavesPrefixedAppend(Broadcast(s, "newPoll") + saves, StartPollTimer(s, data.maxTime).effects);
  }

  lemma RemovePollSavesPrefixed(svc: Service)
    ensures SavesPrefixed(HandleRemovePoll(svc).effects)
  {
    var e := EndPollTimer(svc);
    var s := e.service.(store := ClearPoll(e.service.store));
    var tail := Broadcast(s, "pollRemoved") + [Save(StorageKey("currentPoll")), Save(StorageKey("pollActive"))];
    EndPollTimerSavesPrefixed(svc);
    BroadcastThenSaves(s, "pollRemoved", ["currentPoll", "pollActive"], [Save(StorageKey("currentPoll")), Save(StorageKey("pollActive"))]);
    SavesPrefixedAppend(e.effects, tail);
    assert HandleRemovePoll(svc).effects == e.effects + tail;
  }

  /** Every key any command writes carries the `poll_` prefix. */
  lemma EmitSavesPrefixed(svc: Service, event: string, data: Data, now: int)
    ensures SavesPrefixed(Emit(svc, event, data, now).effects)
  {
    if event == "requestJoin" {
      RequestJoinSavesPrefixed(svc, data, now);
    } else if event == "approveStudent" {
      var s := HandleApprove(svc, data).service;
      BroadcastThenSaves(s, "studentApproved", ["students", "pendingStudents"],
        [Save(StorageKey("students")), Save(StorageKey("pendingStudents"))]);
    } else if event == "rejectStudent" {
      var s := HandleReject(svc, data).service;
      BroadcastThenSaves(s, "studentRejected", ["pendingStudents"], [Save(StorageKey("pendingStudents"))]);
    } else if event == "createPoll" {
      CreatePollSavesPrefixed(svc, data, now);
    } else if event == "submitVote" {
      var s := svc.(store := SubmitVote(svc.store, data.studentName, data.option));
      BroadcastThenSaves(s, "voteSubmitted", ["pollVotes"], [Save(StorageKey("pollVotes"))]);
    } else if event == "removeStudent" {
      var s := HandleRemoveStudent(svc, data).service;
      BroadcastThenSaves(s, "studentRemoved", ["students"], [Save(StorageKey("students"))]);
    } else if event == "removePoll" {
      RemovePollSavesPrefixed(svc);
    } else if event == "sendMessage" {
      var s := HandleSendMessage(svc, data, now).service;
      BroadcastThenSaves(s, "newMessage", ["chatMessages"], [Save(StorageKey("chatMessages"))]);
    }
  }

  /** Every key a command writes is one the other tabs act on: an event key
      replays, a data key resynchronises. */
  lemma EmitSavesRouted(svc: Service, event: string, data: Data, now: int)
    ensures var es := Emit(svc, event, data, now).effects;
      forall i :: 0 <= i < |es| && es[i].Save? ==> RouteKey(Some(es[i].key)) != Ignore
  {
    EmitSavesPrefixed(svc, event, data, now);
  }

  // ---------------------------------------------------------------- countdown

  lemma {:induction false} TicksSnoc(svc: Service, k: nat)
    ensures Ticks(svc, k + 1) == Tick(Ticks(svc, k)).service
    decreases k
  {
    if k > 0 {
      TicksSnoc(Tick(svc).service, k - 1);
    }
  }

  /** Starting a countdown cancels any running one: only the last start counts. */
  lemma RestartReplacesTimer(svc: Service, a: int, b: int)
    ensures StartPollTimer(StartPollTimer(svc, a).service, b).service == StartPollTimer(svc, b).service
  {
  }

  /** Before the last second, each firing takes one second off the shared
      time and leaves the poll and the roster alone. */
  lemma {:induction false} CountdownRuns(svc: Service, n: int, k: nat)
    requires svc.pollTimer == Some(n) && k < n
    ensures var s := Ticks(svc, k);
      && s.pollTimer == Some(n - k)
      && (k > 0 ==> s.store.timeRemaining == n - k)
      && s.store.currentPoll == svc.store.currentPoll
      && s.store.students == svc.store.students
      && s.store.showResults == svc.store.showResults
    decreases k
  {
    if k > 0 {
      CountdownRuns(svc, n, k - 1);
      TicksSnoc(svc, k - 1);
    }
  }

  /** A countdown started at `n >= 1` ends after exactly `n` firings: the
      interval is gone, the poll is closed, the time reads 0 and the results
      are shown. */
  lemma CountdownEnds(svc: Service, n: int)
    requires svc.pollTimer == Some(n) && n >= 1
    ensures var s := Ticks(svc, n);
      && s.pollTimer.None?
      && s.store.timeRemaining == 0
      && s.store.showResults
      && s.store.students == svc.store.students
      && (svc.store.currentPoll.Some? ==> s.store.currentPoll == Some(svc.store.currentPoll.value.(isActive := false)))
      && (svc.store.currentPoll.None? ==> s.store.currentPoll.None?)
  {
    var m := Ticks(svc, n - 1);
    CountdownRuns(svc, n, n - 1);
    TicksSnoc(svc, n - 1);
    LastTickEnds(svc, n, m);
  }

  lemma LastTickEnds(svc: Service, n: int, m: Service)
    requires svc.pollTimer == Some(n) && n >= 1
    requires m.pollTimer == Some(1) && m.store.currentPoll == svc.store.currentPoll
        && m.store.students == svc.store.students
    requires Ticks(svc, n) == Tick(m).service
    ensures var s := Ticks(svc, n);
      && s.pollTimer.None?
      && s.store.timeRemaining == 0
      && s.store.showResults
      && s.store.students == svc.store.students
      && (svc.store.currentPoll.Some? ==> s.store.currentPoll == Some(svc.store.currentPoll.value.(isActive := false)))
      && (svc.store.currentPoll.None? ==> s.store.currentPoll.None?)
  {
    LastTick(m);
  }

  /** The firing at one second left ends the poll. */
  lemma LastTick(svc: Service)
    requires svc.pollTimer == Some(1)
    ensures var s := Tick(svc).service;
      && s.pollTimer.None?
      && s.store.timeRemaining == 0
      && s.store.showResults
      && s.store.students == svc.store.students
      && (svc.store.currentPoll.Some? ==> s.store.currentPoll == Some(svc.store.currentPoll.value.(isActive := false)))
      && (svc.store.currentPoll.None? ==> s.store.currentPoll.None?)
  {
  }

  /** Once stopped, further firings change nothing. */
  lemma {:induction false} StoppedTimerIdle(svc: Service, k: nat)
    requires svc.pollTimer.None?
    ensures Ticks(svc, k) == svc
    decreases k
  {
    if k > 0 {
      StoppedTimerIdle(Tick(svc).service, k - 1);
    }
  }

  /** A time limit of zero is not refused: the first firing ends the poll with
      the time reading -1 until `endPoll` sets it to 0. */
  lemma ZeroLimitEndsAtFirstTick(svc: Service)
    requires svc.store.currentPoll.Some?
    ensures var s := Tick(StartPollTimer(svc, 0).service).service;
      s.pollTimer.None? && !s.store.currentPoll.value.isActive && s.store.timeRemaining == 0
  {
  }

  // ---------------------------------------------------------------- all answered

  /** The service's all-answered test is `checkAllStudentsVoted` applied to the
      roster size and the answered count. */
  lemma AllAnsweredAgrees(ss: seq<Student>)
    ensures AllAnswered(ss) <==> CheckAllStudentsVoted(|ss|, AnsweredCount(Answers(ss)))
  {
    assert forall i :: 0 <= i < |ss| ==> Answers(ss)[i].hasAnswered == ss[i].hasAnswered;
  }

  /** The deferred reveal shows the results but neither closes the poll nor
      stops the countdown. */
  lemma RevealKeepsPollOpen(svc: Service)
    requires svc.pendingReveals > 0
    ensures var s := Reveal(svc).service;
      && s.store.showResults
      && s.store.currentPoll == svc.store.currentPoll
      && s.pollTimer == svc.pollTimer
      && s.pendingReveals == svc.pendingReveals - 1
  {
  }

  // ---------------------------------------------------------------- commands

  /** The reducer actions each command dispatches, in order. */
  function Dispatched(st: PollState, event: string, data: Data, now: int): (r: seq<Action>)
    ensures event !in Commands ==> r == []
    ensures event != "removeStudent" ==> forall k :: 0 <= k < |r| ==> !r[k].RemoveStudentAction?
  {
    if event == "requestJoin" then
      if data.name !in StudentNames(st.students) && data.name !in PendingNames(st.pendingStudents)
      then [AddPendingStudentAction(data.name, now)] else []
    else if event == "approveStudent" then [ApproveStudentAction(data.studentName)]
    else if event == "rejectStudent" then [RejectStudentAction(data.studentName)]
    else if event == "createPoll" then
      [CreatePollAction(data.question, data.options, data.maxTime, now), SetShowResultsAction(false),
       SetTimeRemainingAction(data.maxTime)]
    else if event == "submitVote" then [SubmitVoteAction(data.studentName, data.option)]
    else if event == "removeStudent" then [RemoveStudentAction(data.studentName)]
    else if event == "removePoll" then [EndPollAction, SetShowResultsAction(true), ClearPollAction]
    else []
  }

  lemma CreatePollDispatches(svc: Service, data: Data, now: int)
    ensures Emit(svc, "createPoll", data, now).service.store == Run(svc.store, Dispatched(svc.store, "createPoll", data, now))
  {
    RunThree(svc.store, CreatePollAction(data.question, data.options, data.maxTime, now),
             SetShowResultsAction(false), SetTimeRemainingAction(data.maxTime));
  }

  lemma RemovePollDispatches(svc: Service, data: Data, now: int)
    ensures Emit(svc, "removePoll", data, now).service.store == Run(svc.store, Dispatched(svc.store, "removePoll", data, now))
  {
    RunThree(svc.store, EndPollAction, SetShowResultsAction(true), ClearPollAction);
  }

  lemma RequestJoinDispatches(svc: Service, data: Data, now: int)
    ensures Emit(svc, "requestJoin", data, now).service.store == Run(svc.store, Dispatched(svc.store, "requestJoin", data, now))
  {
    var st := svc.store;
    if data.name !in StudentNames(st.students) && data.name !in PendingNames(st.pendingStudents) {
      RunOne(st, AddPendingStudentAction(data.name, now));
    }
  }

  lemma ApproveDispatches(svc: Service, data: Data, now: int)
    ensures Emit(svc, "approveStudent", data, now).service.store == Run(svc.store, Dispatched(svc.store, "approveStudent", data, now))
  {
    RunOne(svc.store, ApproveStudentAction(data.studentName));
  }

  lemma RejectDispatches(svc: Service, data: Data, now: int)
    ensures Emit(svc, "rejectStudent", data, now).service.store == Run(svc.store, Dispatched(svc.store, "rejectStudent", data, now))
  {
    RunOne(svc.store, RejectStudentAction(data.studentName));
  }

  lemma SubmitVoteDispatches(svc: Service, data: Data, now: int)
    ensures Emit(svc, "submitVote", data, now).service.store == Run(svc.store, Dispatched(svc.store, "submitVote", data, now))
  {
    RunOne(svc.store, SubmitVoteAction(data.studentName, data.option));
  }

  lemma RemoveStudentDispatches(svc: Service, data: Data, now: int)
    ensures Emit(svc, "removeStudent", data, now).service.store == Run(svc.store, Dispatched(svc.store, "removeStudent", data, now))
  {
    RunOne(svc.store, RemoveStudentAction(data.studentName));
  }

  lemma SendMessageDispatches(svc: Service, data: Data, now: int)
    ensures Emit(svc, "sendMessage", data, now).service.store == Run(svc.store, Dispatched(svc.store, "sendMessage", data, now))
  {
  }

  /** Each command's effect on the store is its reducer dispatches run in order. */
  lemma EmitDispatches(svc: Service, event: string, data: Data, now: int)
    ensures Emit(svc, event, data, now).service.store == Run(svc.store, Dispatched(svc.store, event, data, now))
  {
    if event == "requestJoin" {
      RequestJoinDispatches(svc, data, now);
    } else if event == "approveStudent" {
      ApproveDispatches(svc, data, now);
    } else if event == "rejectStudent" {
      RejectDispatches(svc, data, now);
    } else if event == "createPoll" {
      CreatePollDispatches(svc, data, now);
    } else if event == "submitVote" {
      SubmitVoteDispatches(svc, data, now);
    } else if event == "removeStudent" {
      RemoveStudentDispatches(svc, data, now);
    } else if event == "removePoll" {
      RemovePollDispatches(svc, data, now);
    } else if event == "sendMessage" {
      SendMessageDispatches(svc, data, now);
    }
  }

  /** No command breaks the name-list invariant. */
  lemma EmitKeepsNames(svc: Service, event: string, data: Data, now: int)
    requires NamesWellFormed(svc.store)
    ensures NamesWellFormed(Emit(svc, event, data, now).service.store)
  {
    EmitDispatches(svc, event, data, now);
    RunKeepsNames(svc.store, Dispatched(svc.store, event, data, now));
  }

  /** Every command except removing a student who has voted keeps the whole
      store invariant, vote counts included. */
  lemma EmitKeepsInvariant(svc: Service, event: string, data: Data, now: int)
    requires Invariant(svc.store)
    requires !RemovesVoter(svc.store, RemoveStudentAction(data.studentName)) || event != "removeStudent"
    ensures Invariant(Emit(svc, event, data, now).service.store)
  {
    if event == "removeStudent" {
      RemoveStudentDispatches(svc, data, now);
      ReduceKeepsInvariant(svc.store, RemoveStudentAction(data.studentName));
      RunOne(svc.store, RemoveStudentAction(data.studentName));
    } else {
      EmitDispatches(svc, event, data, now);
      RunWithoutRemovalKeepsInvariant(svc.store, Dispatched(svc.store, event, data, now));
    }
  }

  /** Each firing of the countdown keeps the store invariant. */
  lemma TickKeepsInvariant(svc: Service)
    requires Invariant(svc.store)
    ensures Invariant(Tick(svc).service.store)
  {
    if svc.pollTimer.Some? {
      var t := svc.pollTimer.value - 1;
      var s1 := SetTimeRemaining(svc.store, t);
      assert Invariant(s1) by {
        ReduceKeepsInvariant(svc.store, SetTimeRemainingAction(t));
      }
      if t <= 0 {
        assert Invariant(EndPoll(s1)) by {
          ReduceKeepsInvariant(s1, EndPollAction);
        }
        assert Invariant(SetShowResults(EndPoll(s1), true)) by {
          ReduceKeepsInvariant(EndPoll(s1), SetShowResultsAction(true));
        }
      }
    }
  }

  /** A join request changes the store as `addPendingStudent` does, and is
      announced exactly when the name is neither approved nor pending. */
  lemma RequestJoinEffect(svc: Service, data: Data, now: int)
    ensures var r := Emit(svc, "requestJoin", data, now);
      && r.service.store == AddPendingStudent(svc.store, data.name, now)
      && r.service.(store := svc.store) == svc
      && (r.effects != [] <==> data.name !in StudentNames(svc.store.students) && data.name !in PendingNames(svc.store.pendingStudents))
  {
    if data.name in StudentNames(svc.store.students) || data.name in PendingNames(svc.store.pendingStudents) {
      AddPendingStudentEffect(svc.store, data.name, now);
    }
  }

  /** A kicked name asking again leaves the store alone, yet the request is
      still announced to every listener and tab. */
  lemma KickedRequestStillAnnounced(svc: Service, data: Data, now: int)
    requires data.name in svc.store.kickedStudents
    requires data.name !in StudentNames(svc.store.students) && data.name !in PendingNames(svc.store.pendingStudents)
    ensures var r := Emit(svc, "requestJoin", data, now);
      r.service == svc && Save(EventKey("studentJoinRequest")) in r.effects
  {
    var r := Emit(svc, "requestJoin", data, now);
    assert r.effects[|r.effects| - 2] == Save(EventKey("studentJoinRequest"));
  }

  /** Creating a poll opens it with results hidden and a fresh countdown of
      `maxTime` seconds. */
  lemma CreatePollCommandEffect(svc: Service, data: Data, now: int)
    ensures var s := Emit(svc, "createPoll", data, now).service;
      && s.pollTimer == Some(data.maxTime)
      && s.store.timeRemaining == data.maxTime
      && !s.store.showResults
      && s.store.currentPoll == CreatePoll(svc.store, data.question, data.options, data.maxTime, now).currentPoll
      && s.store.students == CreatePoll(svc.store, data.question, data.options, data.maxTime, now).students
  {
  }

  /** Left alone, a poll created with a limit of at least one second closes
      after exactly that many firings and shows its results. */
  lemma CreatedPollClosesOnTime(svc: Service, data: Data, now: int)
    requires data.maxTime >= 1
    ensures var s := Ticks(Emit(svc, "createPoll", data, now).service, data.maxTime);
      && s.pollTimer.None?
      && s.store.currentPoll.Some?
      && !s.store.currentPoll.value.isActive
      && s.store.currentPoll.value.question == data.question
      && s.store.showResults
      && s.store.timeRemaining == 0
  {
    CountdownEnds(Emit(svc, "createPoll", data, now).service, data.maxTime);
  }

  /** A vote schedules a reveal exactly when the roster is then non-empty and
      fully answered. */
  lemma SubmitVoteSchedulesReveal(svc: Service, data: Data, now: int)
    ensures var r := Emit(svc, "submitVote", data, now).service;
      && r.store == SubmitVote(svc.store, data.studentName, data.option)
      && (r.pendingReveals == svc.pendingReveals + 1 <==> AllAnswered(r.store.students))
      && (r.pendingReveals == svc.pendingReveals <==> !AllAnswered(r.store.students))
  {
  }

  /** Removing the poll stops the countdown and leaves no poll and no answers. */
  lemma RemovePollEffect(svc: Service, data: Data, now: int)
    ensures var s := Emit(svc, "removePoll", data, now).service;
      && s.pollTimer.None?
      && s.store.currentPoll.None?
      && !s.store.showResults
      && StudentNames(s.store.students) == StudentNames(svc.store.students)
      && AnsweredCount(Answers(s.store.students)) == 0
  {
    var s := Emit(svc, "removePoll", data, now).service;
    assert AnsweredCount(Answers(s.store.students)) == 0 by {
      assert forall i :: 0 <= i < |s.store.students| ==> !Answers(s.store.students)[i].hasAnswered;
    }
  }

  /** The chat log only grows, by one message per `sendMessage`. */
  lemma ChatAppendOnly(svc: Service, event: string, data: Data, now: int)
    ensures var r := Emit(svc, event, data, now).service;
      && (event == "sendMessage" ==>
            r.chatMessages == svc.chatMessages + [ChatMessage(Text.IntToString(now), data.user, data.message, now, data.isTeacher)])
      && (event != "sendMessage" ==> r.chatMessages == svc.chatMessages)
      && r.listeners == svc.listeners
  {
    if event == "requestJoin" {
      assert Emit(svc, event, data, now) == HandleRequestJoin(svc, data, now);
    } else if event == "createPoll" {
      assert Emit(svc, event, data, now) == HandleCreatePoll(svc, data, now);
    } else if event == "submitVote" {
      assert Emit(svc, event, data, now) == HandleSubmitVote(svc, data);
    } else if event == "removePoll" {
      assert Emit(svc, event, data, now) == HandleRemovePoll(svc);
    }
  }

  // ---------------------------------------------------------------- a class session

  const NoData := Data("", "", "", [], 0, "", "", "", false)

  const Idle := Service(InitialState, map[], None, 0, [])

  function Join(svc: Service, name: string, now: int): Service {
    var s := Emit(svc, "requestJoin", NoData.(name := name), now).service;
    Emit(s, "approveStudent", NoData.(studentName := name), now + 1).service
  }

  function Vote(svc: Service, name: string, option: string, now: int): Service {
    Emit(svc, "submitVote", NoData.(studentName := name, option := option), now).service
  }

  /** A new name asking to join and then approved lands on the roster unanswered. */
  lemma JoinAppends(svc: Service, name: string, now: int)
    requires name !in StudentNames(svc.store.students)
    requires svc.store.pendingStudents == [] && svc.store.kickedStudents == []
    ensures Join(svc, name, now) == svc.(store := svc.store.(
      students := svc.store.students + [Student(Text.IntToString(now), name, false, true, None)]))
  {
    var s := Emit(svc, "requestJoin", NoData.(name := name), now).service;
    RequestJoinEffect(svc, NoData.(name := name), now);
    assert s.store.pendingStudents == [PendingStudent(Text.IntToString(now), name, now)];
    var r := ApproveStudent(s.store, name);
    assert r.pendingStudents == [] by {
      assert |r.pendingStudents| == |PendingNames(r.pendingStudents)|;
    }
  }

  const Pair := [Student(Text.IntToString(1), "Alice", false, true, None),
                 Student(Text.IntToString(3), "Bob", false, true, None)]

  lemma AliceJoins()
    ensures Join(Idle, "Alice", 1) == Idle.(store := InitialState.(students := [Pair[0]]))
  {
    JoinAppends(Idle, "Alice", 1);
  }

  lemma BobJoins()
    ensures Join(Idle.(store := InitialState.(students := [Pair[0]])), "Bob", 3) == Idle.(store := InitialState.(students := Pair))
  {
    var s := Idle.(store := InitialState.(students := [Pair[0]]));
    assert StudentNames(s.store.students) == ["Alice"];
    JoinAppends(s, "Bob", 3);
  }

  lemma TwoJoin()
    ensures Join(Join(Idle, "Alice", 1), "Bob", 3) == Idle.(store := InitialState.(students := Pair))
  {
    AliceJoins();
    BobJoins();
  }

  /** A first vote by the roster's `i`-th student through the command. */
  lemma VoteCounts(svc: Service, i: nat, o: string, now: int)
    requires i < |svc.store.students| && forall j :: 0 <= j < i ==> svc.store.students[j].name != svc.store.students[i].name
    requires svc.store.currentPoll.Some? && svc.store.currentPoll.value.isActive && !svc.store.students[i].hasAnswered
    ensures var r := Vote(svc, svc.store.students[i].name, o, now);
      && r.store.currentPoll.Some? && r.store.currentPoll.value.isActive
      && r.store.currentPoll.value.votes == svc.store.currentPoll.value.votes[o := Lookup(svc.store.currentPoll.value.votes, o) + 1]
      && r.store.students == svc.store.students[i := svc.store.students[i].(hasAnswered := true, selectedOption := Some(o))]
      && r.pollTimer == svc.pollTimer
      && (r.pendingReveals == svc.pendingReveals + 1 <==> AllAnswered(r.store.students))
      && (r.pendingReveals == svc.pendingReveals <==> !AllAnswered(r.store.students))
  {
    SubmitVoteEffect(svc.store, svc.store.students[i].name, o, i);
    SubmitVoteSchedulesReveal(svc, NoData.(studentName := svc.store.students[i].name, option := o), now);
  }

  const Opened := Service(
    InitialState.(students := Pair, timeRemaining := 30,
                  currentPoll := Some(Poll(Text.IntToString(5), "Q", ["X", "Y"], map["X" := 0, "Y" := 0], true, 5, 30))),
    map[], Some(30), 0, [])

  /** A poll on two options opens over the approved pair. */
  lemma PollOpensOverPair()
    ensures Emit(Idle.(store := InitialState.(students := Pair)), "createPoll",
                 NoData.(question := "Q", options := ["X", "Y"], maxTime := 30), 5).service == Opened
  {
    assert ResetAnswers(Pair) == Pair;
    assert ZeroCounts(["X", "Y"]) == map["X" := 0, "Y" := 0];
  }

  /** Two students join and are approved and a poll on two options opens. */
  lemma PairOpensPoll()
    ensures Emit(Join(Join(Idle, "Alice", 1), "Bob", 3), "createPoll",
                 NoData.(question := "Q", options := ["X", "Y"], maxTime := 30), 5).service == Opened
  {
    TwoJoin();
    PollOpensOverPair();
  }

  /** The first of the pair votes: one count, no reveal yet. */
  lemma AliceVotes()
    ensures var s := Vote(Opened, "Alice", "X", 6);
      && s.store.currentPoll.Some? && s.store.currentPoll.value.isActive
      && s.store.currentPoll.value.votes == map["X" := 1, "Y" := 0]
      && |s.store.students| == 2 && s.store.students[1] == Pair[1]
      && s.store.students[0].name == "Alice"
      && s.pollTimer == Some(30) && s.pendingReveals == 0
  {
    VoteCounts(Opened, 0, "X", 6);
    var s := Vote(Opened, "Alice", "X", 6);
    assert !AllAnswered(s.store.students) by {
      assert !s.store.students[1].hasAnswered;
    }
  }

  /** The second of the pair votes for the same option: the roster is fully
      answered, so one reveal is scheduled. */
  lemma BobVotes(s: Service)
    requires s.store.currentPoll.Some? && s.store.currentPoll.value.isActive
    requires s.store.currentPoll.value.votes == map["X" := 1, "Y" := 0]
    requires |s.store.students| == 2 && s.store.students[1] == Pair[1] && s.store.students[0].name == "Alice"
    requires s.store.students[0].hasAnswered
    requires s.pollTimer == Some(30) && s.pendingReveals == 0
    ensures var r := Vote(s, "Bob", "X", 7);
      && r.store.currentPoll.Some? && r.store.currentPoll.value.isActive
      && r.store.currentPoll.value.votes == map["X" := 2, "Y" := 0]
      && r.pollTimer == Some(30) && r.pendingReveals == 1
  {
    VoteCounts(s, 1, "X", 7);
    var r := Vote(s, "Bob", "X", 7);
    assert AllAnswered(r.store.students);
  }

  /** After both students vote for the same option the counts read two and
      zero and a reveal is scheduled; when it fires the results show while the
      poll stays open and the countdown keeps running. */
  lemma EveryoneVotedRevealsEarly()
    ensures
      var s6 := Vote(Opened, "Alice", "X", 6);
      var s7 := Vote(s6, "Bob", "X", 7);
      var s8 := Reveal(s7).service;
      && s7.store.currentPoll.Some?
      && Lookup(s7.store.currentPoll.value.votes, "X") == 2
      && Lookup(s7.store.currentPoll.value.votes, "Y") == 0
      && s6.pendingReveals == 0 && s7.pendingReveals == 1
      && s8.store.showResults
      && s8.store.currentPoll.value.isActive
      && s8.pollTimer == Some(30)
  {
    AliceVotes();
    var s6 := Vote(Opened, "Alice", "X", 6);
    assert s6.store.students[0].hasAnswered by {
      VoteCounts(Opened, 0, "X", 6);
    }
    BobVotes(s6);
    RevealKeepsPollOpen(Vote(s6, "Bob", "X", 7));
  }
}
