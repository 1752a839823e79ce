/**
 * What the slice reducers promise: the admission bookkeeping keeps its name
 * lists duplicate-free and apart, the vote counts track the students' answers,
 * and the admission and voting reducers are idempotent.
 */
module SessionProperties {
  import opened Wrappers
  import opened Tally
  import opened Session

  // ---------------------------------------------------------------- invariants

  /** Pending, approved and kicked names are each duplicate-free, and no name is
      both approved and pending. */
  ghost predicate NamesWellFormed(st: PollState) {
    && Distinct(PendingNames(st.pendingStudents))
    && Distinct(StudentNames(st.students))
    && Distinct(st.kickedStudents)
    && Disjoint(StudentNames(st.students), PendingNames(st.pendingStudents))
  }

  /** A student has a selection exactly when marked as answered. */
  predicate AnswersWellShaped(st: PollState) {
    forall i :: 0 <= i < |st.students| ==> (st.students[i].hasAnswered <==> st.students[i].selectedOption.Some?)
  }

  /** The vote counts sum to the number of answered students; with no poll,
      nobody has answered. */
  ghost predicate VotesBalanced(st: PollState) {
    match st.currentPoll
    case None => AnsweredCount(Answers(st.students)) == 0
    case Some(p) => MapSum(p.votes) == AnsweredCount(Answers(st.students))
  }

  /** Each option's count is the number of students who chose it. */
  ghost predicate VotesAgree(st: PollState) {
    st.currentPoll.Some? ==>
      forall o :: Lookup(st.currentPoll.value.votes, o) == ChoiceCount(Answers(st.students), o)
  }

  ghost predicate Invariant(st: PollState) {
    NamesWellFormed(st) && AnswersWellShaped(st) && VotesBalanced(st) && VotesAgree(st)
  }

  /** The one action that can unbalance the counts: removing a student who
      has already voted. */
  predicate RemovesVoter(st: PollState, a: Action) {
    a.RemoveStudentAction? && exists i :: 0 <= i < |st.students| && st.students[i].name == a.name && st.students[i].hasAnswered
  }

  lemma InitialStateInvariant()
    ensures Invariant(InitialState)
  {
  }

  // ---------------------------------------------------------------- small facts

  lemma PendingNamesSnoc(ps: seq<PendingStudent>, p: PendingStudent)
    ensures PendingNames(ps + [p]) == PendingNames(ps) + [p.name]
  {
  }

  lemma StudentNamesSnoc(ss: seq<Student>, s: Student)
    ensures StudentNames(ss + [s]) == StudentNames(ss) + [s.name]
  {
  }

  lemma AnswersSnoc(ss: seq<Student>, s: Student)
    ensures Answers(ss + [s]) == Answers(ss) + [Answer(s.hasAnswered, s.selectedOption)]
  {
  }

  lemma ResetKeepsNames(ss: seq<Student>)
    ensures StudentNames(ResetAnswers(ss)) == StudentNames(ss)
    ensures AnsweredCount(Answers(ResetAnswers(ss))) == 0
  {
    assert forall i :: 0 <= i < |ss| ==> !Answers(ResetAnswers(ss))[i].hasAnswered;
  }

  lemma DistinctSnoc(xs: seq<string>, x: string)
    requires Distinct(xs) && x !in xs
    ensures Distinct(xs + [x])
  {
    assert multiset(xs + [x]) == multiset(xs) + multiset{x};
  }

  function AnswerOf(s: Student): Answer {
    Answer(s.hasAnswered, s.selectedOption)
  }

  /** `Answers` commutes with dropping the first student. */
  lemma AnswersTail(ss: seq<Student>)
    requires |ss| > 0
    ensures Answers(ss)[0] == AnswerOf(ss[0]) && Answers(ss)[1..] == Answers(ss[1..])
  {
  }

  /** The answered count over a non-empty roster split into head and tail. */
  lemma AnsweredHead(ss: seq<Student>)
    requires |ss| > 0
    ensures AnsweredCount(Answers(ss)) == (if ss[0].hasAnswered then 1 else 0) + AnsweredCount(Answers(ss[1..]))
  {
    AnswersTail(ss);
  }

  /** The count for `o` over a non-empty roster split into head and tail. */
  lemma ChoiceHead(ss: seq<Student>, o: string)
    requires |ss| > 0
    ensures ChoiceCount(Answers(ss), o) == Chose(AnswerOf(ss[0]), o) + ChoiceCount(Answers(ss[1..]), o)
  {
    AnswersTail(ss);
  }

  lemma WithoutStudentDrops(ss: seq<Student>, n: string)
    requires |ss| > 0 && ss[0].name == n
    ensures WithoutStudent(ss, n) == WithoutStudent(ss[1..], n)
  {
  }

  /** When the first student stays, the filtered roster starts with them. */
  lemma WithoutStudentHead(ss: seq<Student>, n: string)
    requires |ss| > 0 && ss[0].name != n
    ensures var r := WithoutStudent(ss, n);
      |r| > 0 && r[0] == ss[0] && r[1..] == WithoutStudent(ss[1..], n)
  {
    WithoutStudentKeeps(ss, n);
  }

  /** Removing students who never answered leaves the answered count alone. */
  lemma {:induction false} WithoutUnansweredKeepsAnswered(ss: seq<Student>, n: string)
    requires forall i :: 0 <= i < |ss| && ss[i].name == n ==> !ss[i].hasAnswered
    ensures AnsweredCount(Answers(WithoutStudent(ss, n))) == AnsweredCount(Answers(ss))
  {
    if |ss| > 0 {
      WithoutUnansweredKeepsAnswered(ss[1..], n);
      AnsweredHead(ss);
      if ss[0].name != n {
        WithoutStudentHead(ss, n);
        AnsweredHead(WithoutStudent(ss, n));
      } else {
        WithoutStudentDrops(ss, n);
      }
    }
  }

  /** Removing students who never answered leaves the count for `o` alone. */
  lemma {:induction false} WithoutUnansweredKeepsChoice(ss: seq<Student>, n: string, o: string)
    requires forall i :: 0 <= i < |ss| && ss[i].name == n ==> !ss[i].hasAnswered
    ensures ChoiceCount(Answers(WithoutStudent(ss, n)), o) == ChoiceCount(Answers(ss), o)
  {
    if |ss| > 0 {
      WithoutUnansweredKeepsChoice(ss[1..], n, o);
      ChoiceHead(ss, o);
      if ss[0].name != n {
        WithoutStudentHead(ss, n);
        ChoiceHead(WithoutStudent(ss, n), o);
      } else {
        WithoutStudentDrops(ss, n);
      }
    }
  }

  /** Removing students who never answered changes no count. */
  lemma WithoutUnansweredKeepsCounts(ss: seq<Student>, n: string)
    requires forall i :: 0 <= i < |ss| && ss[i].name == n ==> !ss[i].hasAnswered
    ensures AnsweredCount(Answers(WithoutStudent(ss, n))) == AnsweredCount(Answers(ss))
    ensures forall o :: ChoiceCount(Answers(WithoutStudent(ss, n)), o) == ChoiceCount(Answers(ss), o)
  {
    WithoutUnansweredKeepsAnswered(ss, n);
    forall o ensures ChoiceCount(Answers(WithoutStudent(ss, n)), o) == ChoiceCount(Answers(ss), o) {
      WithoutUnansweredKeepsChoice(ss, n, o);
    }
  }

  /** Removing students never raises the number of answered ones. */
  lemma {:induction false} WithoutStudentAnsweredAtMost(ss: seq<Student>, n: string)
    ensures AnsweredCount(Answers(WithoutStudent(ss, n))) <= AnsweredCount(Answers(ss))
  {
    if |ss| > 0 {
      WithoutStudentAnsweredAtMost(ss[1..], n);
      AnsweredHead(ss);
      if ss[0].name != n {
        WithoutStudentHead(ss, n);
        AnsweredHead(WithoutStudent(ss, n));
      } else {
        WithoutStudentDrops(ss, n);
      }
    }
  }

  // ---------------------------------------------------------------- admission

  /** A name `addPendingStudent` refuses: already pending, approved or kicked. */
  ghost predicate KnownName(st: PollState, n: string) {
    n in PendingNames(st.pendingStudents) || n in StudentNames(st.students) || n in st.kickedStudents
  }

  /** `addPendingStudent(n)` changes nothing exactly when `n` is already known;
      otherwise it appends one pending entry named `n` and touches nothing else. */
  lemma AddPendingStudentEffect(st: PollState, n: string, now: int)
    ensures AddPendingStudent(st, n, now) == st <==> KnownName(st, n)
    ensures !KnownName(st, n) ==>
      var r := AddPendingStudent(st, n, now);
      && |r.pendingStudents| == |st.pendingStudents| + 1
      && r.pendingStudents[..|st.pendingStudents|] == st.pendingStudents
      && r.pendingStudents[|st.pendingStudents|].name == n
      && r.pendingStudents[|st.pendingStudents|].timestamp == now
      && r.(pendingStudents := st.pendingStudents) == st
  {
    if !KnownName(st, n) {
      var r := AddPendingStudent(st, n, now);
      assert |r.pendingStudents| != |st.pendingStudents|;
    }
  }

  /** Asking twice to join is asking once. */
  lemma AddPendingStudentIdempotent(st: PollState, n: string, now: int, later: int)
    ensures AddPendingStudent(AddPendingStudent(st, n, now), n, later) == AddPendingStudent(st, n, now)
  {
    var r := AddPendingStudent(st, n, now);
    if !KnownName(st, n) {
      PendingNamesSnoc(st.pendingStudents, PendingStudent(Text.IntToString(now), n, now));
      assert n in PendingNames(r.pendingStudents);
    }
  }

  /** `approveStudent(n)` does nothing unless `n` is pending. If it is, one
      pending entry named `n` becomes an unanswered approved student at the end
      of the roster with that entry's id, and `n` leaves both the pending queue
      and the kicked list; every other name keeps its place in both, and no
      other field changes. */
  lemma ApproveStudentEffect(st: PollState, n: string)
    ensures n !in PendingNames(st.pendingStudents) ==> ApproveStudent(st, n) == st
    ensures n in PendingNames(st.pendingStudents) ==>
      var r := ApproveStudent(st, n);
      && (exists p :: p in st.pendingStudents && p.name == n
            && r.students == st.students + [Student(p.id, n, false, true, None)])
      && n !in PendingNames(r.pendingStudents) && n !in r.kickedStudents
      && PendingNames(r.pendingStudents) == Erase(PendingNames(st.pendingStudents), n)
      && r.kickedStudents == Erase(st.kickedStudents, n)
      && r.currentPoll == st.currentPoll
      && r.(students := st.students, pendingStudents := st.pendingStudents, kickedStudents := st.kickedStudents) == st
  {
    if n in PendingNames(st.pendingStudents) {
      var p := FindPending(st.pendingStudents, n).value;
      var r := ApproveStudent(st, n);
      assert r.students == st.students + [Student(p.id, n, false, true, None)];
      assert multiset(r.kickedStudents)[n] == 0;
    }
  }

  /** Approving twice is approving once. */
  lemma ApproveStudentIdempotent(st: PollState, n: string)
    ensures ApproveStudent(ApproveStudent(st, n), n) == ApproveStudent(st, n)
  {
  }

  /** `rejectStudent(n)` empties the queue of `n`, leaves every other pending
      entry, and leaves `n` on the kicked list exactly once; nothing else
      changes. */
  lemma RejectStudentEffect(st: PollState, n: string)
    requires Distinct(st.kickedStudents)
    ensures var r := RejectStudent(st, n);
      && n !in PendingNames(r.pendingStudents)
      && (forall p :: p in r.pendingStudents <==> p in st.pendingStudents && p.name != n)
      && multiset(r.kickedStudents)[n] == 1
      && (forall x :: x != n ==> multiset(r.kickedStudents)[x] == multiset(st.kickedStudents)[x])
      && r.students == st.students
      && r.(pendingStudents := st.pendingStudents, kickedStudents := st.kickedStudents) == st
  {
  }

  /** Rejecting twice is rejecting once. */
  lemma RejectStudentIdempotent(st: PollState, n: string)
    ensures RejectStudent(RejectStudent(st, n), n) == RejectStudent(st, n)
  {
    var r := RejectStudent(st, n);
    assert WithoutPending(r.pendingStudents, n) == r.pendingStudents by {
      WithoutPendingAbsent(r.pendingStudents, n);
    }
  }

  /** `removeStudent(n)` drops every roster entry named `n`, keeps the others
      in order, and leaves `n` on the kicked list exactly once; the poll, its
      counts and every other field are untouched. */
  lemma RemoveStudentEffect(st: PollState, n: string)
    requires Distinct(st.kickedStudents)
    ensures var r := RemoveStudent(st, n);
      && n !in StudentNames(r.students)
      && StudentNames(r.students) == Erase(StudentNames(st.students), n)
      && multiset(r.kickedStudents)[n] == 1
      && r.currentPoll == st.currentPoll && r.pendingStudents == st.pendingStudents
      && r.(students := st.students, kickedStudents := st.kickedStudents) == st
  {
  }

  /** Removing twice is removing once. */
  lemma RemoveStudentIdempotent(st: PollState, n: string)
    ensures RemoveStudent(RemoveStudent(st, n), n) == RemoveStudent(st, n)
  {
    var r := RemoveStudent(st, n);
    WithoutStudentAbsent(r.students, n);
  }

  lemma WithoutPendingKeeps(ps: seq<PendingStudent>, n: string)
    requires |ps| > 0 && ps[0].name != n
    ensures WithoutPending(ps, n) == [ps[0]] + WithoutPending(ps[1..], n)
  {
  }

  lemma {:induction false} WithoutPendingAbsent(ps: seq<PendingStudent>, n: string)
    requires n !in PendingNames(ps)
    ensures WithoutPending(ps, n) == ps
  {
    if |ps| > 0 {
      assert PendingNames(ps)[0] == ps[0].name;
      assert PendingNames(ps[1..]) == PendingNames(ps)[1..];
      WithoutPendingAbsent(ps[1..], n);
      WithoutPendingKeeps(ps, n);
    }
  }

  lemma WithoutStudentKeeps(ss: seq<Student>, n: string)
    requires |ss| > 0 && ss[0].name != n
    ensures WithoutStudent(ss, n) == [ss[0]] + WithoutStudent(ss[1..], n)
  {
  }

  lemma {:induction false} WithoutStudentAbsent(ss: seq<Student>, n: string)
    requires n !in StudentNames(ss)
    ensures WithoutStudent(ss, n) == ss
  {
    if |ss| > 0 {
      assert StudentNames(ss)[0] == ss[0].name;
      assert StudentNames(ss[1..]) == StudentNames(ss)[1..];
      WithoutStudentAbsent(ss[1..], n);
      WithoutStudentKeeps(ss, n);
    }
  }

  /** A kicked name that is not pending can never be admitted again by the
      admission reducers: joining and approving both leave the state alone. */
  lemma KickedNameStaysOut(st: PollState, n: string, now: int)
    requires n in st.kickedStudents && n !in PendingNames(st.pendingStudents)
    ensures AddPendingStudent(st, n, now) == st
    ensures ApproveStudent(AddPendingStudent(st, n, now), n) == st
  {
  }

  // ---------------------------------------------------------------- poll lifecycle

  /** `createPoll`: every option label is a key with count 0 and nothing else
      is; the poll is active; every student keeps name, id and place but loses
      any answer; the countdown is `maxTime` and the results are hidden. */
  lemma CreatePollEffect(st: PollState, question: string, options: seq<string>, maxTime: int, now: int)
    ensures var r := CreatePoll(st, question, options, maxTime, now);
      && r.currentPoll.Some?
      && var p := r.currentPoll.value;
      && p.isActive && p.options == options && p.maxTime == maxTime && p.createdAt == now
      && (forall o :: o in p.votes <==> o in options)
      && (forall o :: Lookup(p.votes, o) == 0)
      && |r.students| == |st.students|
      && (forall i :: 0 <= i < |st.students| ==>
            r.students[i].name == st.students[i].name && r.students[i].id == st.students[i].id
            && !r.students[i].hasAnswered && r.students[i].selectedOption.None?)
      && r.timeRemaining == maxTime && !r.showResults
  {
  }

  /** The state of the poll's counts after one accepted vote for `o`. */
  ghost predicate CountedOnce(before: VoteCount, after: VoteCount, o: string) {
    o in after && Lookup(after, o) == Lookup(before, o) + 1
    && forall x :: x != o ==> Lookup(after, x) == Lookup(before, x)
  }

  /** `submitVote(s, o)` where student `i` is the first one named `s`: while the
      poll is active and that student has not answered, the count for `o` goes
      up by exactly one (the key is added if missing), the student is marked
      answered with `o` selected, and nothing else changes; in every other case
      the state is unchanged. */
  lemma SubmitVoteEffect(st: PollState, s: string, o: string, i: nat)
    requires i < |st.students| && st.students[i].name == s
    requires forall j :: 0 <= j < i ==> st.students[j].name != s
    ensures var r := SubmitVote(st, s, o);
      if st.currentPoll.Some? && st.currentPoll.value.isActive && !st.students[i].hasAnswered then
        && r.currentPoll.Some?
        && CountedOnce(st.currentPoll.value.votes, r.currentPoll.value.votes, o)
        && r.currentPoll.value.(votes := st.currentPoll.value.votes) == st.currentPoll.value
        && r.students == st.students[i := st.students[i].(hasAnswered := true, selectedOption := Some(o))]
        && r.(currentPoll := st.currentPoll, students := st.students) == st
      else r == st
  {
    assert FindStudent(st.students, s) == Some(i) by {
      assert s in StudentNames(st.students);
    }
  }

  /** A vote from someone not on the roster changes nothing. */
  lemma SubmitVoteUnknownStudent(st: PollState, s: string, o: string)
    requires s !in StudentNames(st.students)
    ensures SubmitVote(st, s, o) == st
  {
  }

  /** Exactly once: after a vote, re-submitting for the same student, with any
      option, changes nothing. */
  lemma SubmitVoteResubmission(st: PollState, s: string, o: string, o': string)
    ensures SubmitVote(SubmitVote(st, s, o), s, o') == SubmitVote(st, s, o)
  {
    var r := SubmitVote(st, s, o);
    match FindStudent(st.students, s)
    case None =>
    case Some(i) =>
      if st.currentPoll.Some? && st.currentPoll.value.isActive && !st.students[i].hasAnswered {
        SubmitVoteEffect(st, s, o, i);
        SubmitVoteEffect(r, s, o', i);
      } else {
        SubmitVoteEffect(st, s, o', i);
      }
  }

  /** Once the poll has ended, votes are ignored. */
  lemma VoteAfterEndIgnored(st: PollState, s: string, o: string)
    ensures SubmitVote(EndPoll(st), s, o) == EndPoll(st)
  {
  }

  /** `clearPoll` leaves no poll, nobody answered, no countdown and hidden
      results, with the roster's names unchanged. */
  lemma ClearPollEffect(st: PollState)
    ensures var r := ClearPoll(st);
      && r.currentPoll.None? && r.timeRemaining == 0 && !r.showResults
      && StudentNames(r.students) == StudentNames(st.students)
      && AnsweredCount(Answers(r.students)) == 0
      && r.pendingStudents == st.pendingStudents && r.kickedStudents == st.kickedStudents
  {
    ResetKeepsNames(st.students);
  }

  // ---------------------------------------------------------------- preservation

  lemma AddPendingStudentKeepsNames(st: PollState, n: string, now: int)
    requires NamesWellFormed(st)
    ensures NamesWellFormed(AddPendingStudent(st, n, now))
  {
    if !KnownName(st, n) {
      PendingNamesSnoc(st.pendingStudents, PendingStudent(Text.IntToString(now), n, now));
      DistinctSnoc(PendingNames(st.pendingStudents), n);
    }
  }

  lemma ApproveStudentKeepsNames(st: PollState, n: string)
    requires NamesWellFormed(st)
    ensures NamesWellFormed(ApproveStudent(st, n))
  {
    if n in PendingNames(st.pendingStudents) {
      var p := FindPending(st.pendingStudents, n).value;
      var s := Student(p.id, p.name, false, true, None);
      StudentNamesSnoc(st.students, s);
      DistinctSnoc(StudentNames(st.students), n);
      var r := ApproveStudent(st, n);
      assert forall x :: x in PendingNames(r.pendingStudents) ==> x in PendingNames(st.pendingStudents) && x != n by {
        forall x | x in PendingNames(r.pendingStudents)
          ensures x in PendingNames(st.pendingStudents) && x != n
        {
          assert multiset(PendingNames(r.pendingStudents))[x] > 0;
        }
      }
    }
  }

  lemma RejectStudentKeepsNames(st: PollState, n: string)
    requires NamesWellFormed(st)
    ensures NamesWellFormed(RejectStudent(st, n))
  {
    var r := RejectStudent(st, n);
    if n !in st.kickedStudents {
      DistinctSnoc(st.kickedStudents, n);
    }
    assert forall x :: x in PendingNames(r.pendingStudents) ==> x in PendingNames(st.pendingStudents) by {
      forall x | x in PendingNames(r.pendingStudents) ensures x in PendingNames(st.pendingStudents) {
        assert multiset(PendingNames(r.pendingStudents))[x] > 0;
      }
    }
  }

  lemma RemoveStudentKeepsNames(st: PollState, n: string)
    requires NamesWellFormed(st)
    ensures NamesWellFormed(RemoveStudent(st, n))
  {
    var r := RemoveStudent(st, n);
    if n !in st.kickedStudents {
      DistinctSnoc(st.kickedStudents, n);
    }
    assert forall x :: x in StudentNames(r.students) ==> x in StudentNames(st.students) by {
      forall x | x in StudentNames(r.students) ensures x in StudentNames(st.students) {
        assert multiset(StudentNames(r.students))[x] > 0;
      }
    }
  }

  /** A state whose three name lists read as before keeps the name invariant. */
  lemma SameNamesKeepNames(st: PollState, r: PollState)
    requires NamesWellFormed(st)
    requires StudentNames(r.students) == StudentNames(st.students)
    requires r.pendingStudents == st.pendingStudents && r.kickedStudents == st.kickedStudents
    ensures NamesWellFormed(r)
  {
  }

  /** A state with all three name lists empty meets the name invariant. */
  lemma NoNamesWellFormed(r: PollState)
    requires r.students == [] && r.pendingStudents == [] && r.kickedStudents == []
    ensures NamesWellFormed(r)
  {
  }

  /** Which case reducer an action dispatches to, one line per action. */
  lemma ReduceCases(st: PollState, a: Action)
    ensures a.SetRoleAction? ==> Reduce(st, a) == SetRole(st, a.role)
    ensures a.SetStudentNameAction? ==> Reduce(st, a) == SetStudentName(st, a.name)
    ensures a.AddPendingStudentAction? ==> Reduce(st, a) == AddPendingStudent(st, a.name, a.now)
    ensures a.ApproveStudentAction? ==> Reduce(st, a) == ApproveStudent(st, a.name)
    ensures a.RejectStudentAction? ==> Reduce(st, a) == RejectStudent(st, a.name)
    ensures a.CreatePollAction? ==> Reduce(st, a) == CreatePoll(st, a.question, a.options, a.maxTime, a.now)
    ensures a.SubmitVoteAction? ==> Reduce(st, a) == SubmitVote(st, a.studentName, a.option)
    ensures a.SetTimeRemainingAction? ==> Reduce(st, a) == SetTimeRemaining(st, a.time)
    ensures a.EndPollAction? ==> Reduce(st, a) == EndPoll(st)
    ensures a.SetShowResultsAction? ==> Reduce(st, a) == SetShowResults(st, a.show)
    ensures a.RemoveStudentAction? ==> Reduce(st, a) == RemoveStudent(st, a.name)
    ensures a.ClearPollAction? ==> Reduce(st, a) == ClearPoll(st)
    ensures a.LeavePollAction? ==> Reduce(st, a) == LeavePoll(st)
    ensures a.ClearAllDataAction? ==> Reduce(st, a) == ClearAllData(st)
  {
  }

  /** Every reducer keeps the name lists duplicate-free and keeps approved and
      pending names apart. */
  lemma ReduceKeepsNames(st: PollState, a: Action)
    requires NamesWellFormed(st)
    ensures NamesWellFormed(Reduce(st, a))
  {
    ReduceCases(st, a);
    match a
    case SetRoleAction(role) =>
      if role == TeacherRole {
        NoNamesWellFormed(SetRole(st, role));
      } else {
        SameNamesKeepNames(st, SetRole(st, role));
      }
    case SetStudentNameAction(name) => SameNamesKeepNames(st, SetStudentName(st, name));
    case AddPendingStudentAction(name, now) => AddPendingStudentKeepsNames(st, name, now);
    case ApproveStudentAction(name) => ApproveStudentKeepsNames(st, name);
    case RejectStudentAction(name) => RejectStudentKeepsNames(st, name);
    case CreatePollAction(question, options, maxTime, now) => ResetKeepsNames(st.students);
    case SubmitVoteAction(studentName, option) => SameNamesKeepNames(st, SubmitVote(st, studentName, option));
    case SetTimeRemainingAction(time) => SameNamesKeepNames(st, SetTimeRemaining(st, time));
    case EndPollAction => SameNamesKeepNames(st, EndPoll(st));
    case SetShowResultsAction(show) => SameNamesKeepNames(st, SetShowResults(st, show));
    case RemoveStudentAction(name) => RemoveStudentKeepsNames(st, name);
    case ClearPollAction => ResetKeepsNames(st.students);
    case LeavePollAction => SameNamesKeepNames(st, LeavePoll(st));
    case ClearAllDataAction => NoNamesWellFormed(ClearAllData(st));
  }

  /** Every reducer keeps "a selection exactly when answered". */
  lemma ApproveStudentKeepsShape(st: PollState, n: string)
    requires AnswersWellShaped(st)
    ensures AnswersWellShaped(ApproveStudent(st, n))
  {
  }

  lemma SubmitVoteKeepsShape(st: PollState, n: string, o: string)
    requires AnswersWellShaped(st)
    ensures AnswersWellShaped(SubmitVote(st, n, o))
  {
  }

  lemma RemoveStudentKeepsShape(st: PollState, n: string)
    requires AnswersWellShaped(st)
    ensures AnswersWellShaped(RemoveStudent(st, n))
  {
    var r := RemoveStudent(st, n);
    assert forall i :: 0 <= i < |r.students| ==> r.students[i] in st.students;
  }

  lemma ReduceKeepsAnswerShape(st: PollState, a: Action)
    requires AnswersWellShaped(st)
    ensures AnswersWellShaped(Reduce(st, a))
  {
    ReduceCases(st, a);
    match a
    case ApproveStudentAction(name) => ApproveStudentKeepsShape(st, name);
    case SubmitVoteAction(name, option) => SubmitVoteKeepsShape(st, name, option);
    case RemoveStudentAction(name) => RemoveStudentKeepsShape(st, name);
    case CreatePollAction(question, options, maxTime, now) =>
      assert CreatePoll(st, question, options, maxTime, now).students == ResetAnswers(st.students);
    case ClearPollAction =>
    case _ =>
  }

  /** Counting one vote for `o` and marking an unanswered answer as choosing
      `o` keep counts and answers in step. */
  lemma VoteStep(votes: VoteCount, answers: seq<Answer>, i: nat, o: string, votes': VoteCount, answers': seq<Answer>)
    requires i < |answers| && !answers[i].hasAnswered
    requires votes' == votes[o := Lookup(votes, o) + 1] && answers' == answers[i := Answer(true, Some(o))]
    requires MapSum(votes) == AnsweredCount(answers)
    requires forall x :: Lookup(votes, x) == ChoiceCount(answers, x)
    ensures MapSum(votes') == AnsweredCount(answers')
    ensures forall x :: Lookup(votes', x) == ChoiceCount(answers', x)
  {
    CountsAfterUpdate(answers, i, Answer(true, Some(o)));
    MapSumIncrement(votes, o);
    forall x ensures Lookup(votes', x) == ChoiceCount(answers', x) {
      assert Chose(answers[i], x) == 0;
      assert ChoiceCount(answers', x) + Chose(answers[i], x) == ChoiceCount(answers, x) + Chose(Answer(true, Some(o)), x);
      if x == o {
        assert Lookup(votes', x) == Lookup(votes, x) + 1;
      } else {
        assert Lookup(votes', x) == Lookup(votes, x);
      }
    }
  }

  /** `Answers` commutes with replacing one student. */
  lemma AnswersUpdate(ss: seq<Student>, i: nat, s: Student)
    requires i < |ss|
    ensures Answers(ss[i := s]) == Answers(ss)[i := AnswerOf(s)]
  {
  }

  /** A state that differs by one accepted vote keeps the counts in step. */
  lemma AcceptedVoteKeepsTally(st: PollState, r: PollState, i: nat, o: string)
    requires VotesBalanced(st) && VotesAgree(st) && st.currentPoll.Some?
    requires i < |st.students| && !st.students[i].hasAnswered
    requires r.students == st.students[i := st.students[i].(hasAnswered := true, selectedOption := Some(o))]
    requires r.currentPoll == Some(st.currentPoll.value.(votes := st.currentPoll.value.votes[o := Lookup(st.currentPoll.value.votes, o) + 1]))
    ensures VotesBalanced(r) && VotesAgree(r)
  {
    var p := st.currentPoll.value;
    AnswersUpdate(st.students, i, st.students[i].(hasAnswered := true, selectedOption := Some(o)));
    VoteStep(p.votes, Answers(st.students), i, o, r.currentPoll.value.votes, Answers(r.students));
  }

  /** One vote keeps the counts in step with the answers. */
  lemma SubmitVoteKeepsTally(st: PollState, s: string, o: string)
    requires VotesBalanced(st) && VotesAgree(st)
    ensures VotesBalanced(SubmitVote(st, s, o)) && VotesAgree(SubmitVote(st, s, o))
  {
    var r := SubmitVote(st, s, o);
    var f := FindStudent(st.students, s);
    if st.currentPoll.Some? && st.currentPoll.value.isActive && f.Some? && !st.students[f.value].hasAnswered {
      AcceptedVoteKeepsTally(st, r, f.value, o);
    } else {
      assert r == st;
    }
  }

  /** Approving appends an unanswered student, which no count sees. */
  lemma ApproveStudentKeepsTally(st: PollState, n: string)
    requires VotesBalanced(st) && VotesAgree(st)
    ensures VotesBalanced(ApproveStudent(st, n)) && VotesAgree(ApproveStudent(st, n))
  {
    if n in PendingNames(st.pendingStudents) {
      var p := FindPending(st.pendingStudents, n).value;
      var s := Student(p.id, p.name, false, true, None);
      AnswersSnoc(st.students, s);
      CountsAfterAppend(Answers(st.students), AnswerOf(s));
    }
  }

  /** A fresh poll and a reset roster agree: every count and every answer is zero. */
  lemma ResetRosterAgreesWithZeroCounts(st: PollState, options: seq<string>)
    ensures AnsweredCount(Answers(ResetAnswers(st.students))) == 0
    ensures MapSum(ZeroCounts(options)) == 0
    ensures forall o :: Lookup(ZeroCounts(options), o) == ChoiceCount(Answers(ResetAnswers(st.students)), o)
  {
    ResetKeepsNames(st.students);
    MapSumAllZero(ZeroCounts(options));
    forall o ensures Lookup(ZeroCounts(options), o) == ChoiceCount(Answers(ResetAnswers(st.students)), o) {
      NoAnswerNoChoice(Answers(ResetAnswers(st.students)), o);
    }
  }

  /** Every reducer except removing a student who has voted keeps the vote
      counts equal to the answers: in total and option by option. */
  lemma ReduceKeepsTally(st: PollState, a: Action)
    requires VotesBalanced(st) && VotesAgree(st)
    requires !RemovesVoter(st, a)
    ensures VotesBalanced(Reduce(st, a)) && VotesAgree(Reduce(st, a))
  {
    ReduceCases(st, a);
    match a
    case SetRoleAction(role) =>
    case SetStudentNameAction(name) =>
    case AddPendingStudentAction(name, now) =>
    case ApproveStudentAction(name) => ApproveStudentKeepsTally(st, name);
    case RejectStudentAction(name) =>
    case CreatePollAction(question, options, maxTime, now) => ResetRosterAgreesWithZeroCounts(st, options);
    case SubmitVoteAction(studentName, option) => SubmitVoteKeepsTally(st, studentName, option);
    case SetTimeRemainingAction(time) =>
    case EndPollAction =>
    case SetShowResultsAction(show) =>
    case RemoveStudentAction(name) =>
      WithoutUnansweredKeepsCounts(st.students, name);
    case ClearPollAction => ResetKeepsNames(st.students);
    case LeavePollAction =>
    case ClearAllDataAction =>
  }

  /** The whole invariant survives every reducer but the removal of a voter. */
  lemma ReduceKeepsInvariant(st: PollState, a: Action)
    requires Invariant(st) && !RemovesVoter(st, a)
    ensures Invariant(Reduce(st, a))
  {
    ReduceKeepsNames(st, a);
    ReduceKeepsAnswerShape(st, a);
    ReduceKeepsTally(st, a);
  }

  // ---------------------------------------------------------------- runs

  /** Dispatching a sequence of actions in order. */
  function Run(st: PollState, actions: seq<Action>): PollState
    decreases |actions|
  {
    if |actions| == 0 then st else Run(Reduce(st, actions[0]), actions[1..])
  }

  lemma RunOne(st: PollState, a: Action)
    ensures Run(st, [a]) == Reduce(st, a)
  {
    assert [a][1..] == [];
  }

  lemma RunThree(st: PollState, a: Action, b: Action, c: Action)
    ensures Run(st, [a, b, c]) == Reduce(Reduce(Reduce(st, a), b), c)
  {
    assert [a, b, c][1..] == [b, c];
    assert [b, c][1..] == [c];
    RunOne(Reduce(Reduce(st, a), b), c);
  }

  lemma RunFour(st: PollState, a: Action, b: Action, c: Action, d: Action)
    ensures Run(st, [a, b, c, d]) == Reduce(Reduce(Reduce(Reduce(st, a), b), c), d)
  {
    assert [a, b, c, d][1..] == [b, c, d];
    RunThree(Reduce(st, a), b, c, d);
  }

  /** Whatever is dispatched, the name lists stay duplicate-free and apart. */
  lemma {:induction false} RunKeepsNames(st: PollState, actions: seq<Action>)
    requires NamesWellFormed(st)
    ensures NamesWellFormed(Run(st, actions))
    decreases |actions|
  {
    if |actions| > 0 {
      ReduceKeepsNames(st, actions[0]);
      RunKeepsNames(Reduce(st, actions[0]), actions[1..]);
    }
  }

  /** Without any removal, every state reached keeps the whole invariant; in
      particular the counts sum to the number of answered students. */
  lemma {:induction false} RunWithoutRemovalKeepsInvariant(st: PollState, actions: seq<Action>)
    requires Invariant(st)
    requires forall k :: 0 <= k < |actions| ==> !actions[k].RemoveStudentAction?
    ensures Invariant(Run(st, actions))
    decreases |actions|
  {
    if |actions| > 0 {
      ReduceKeepsInvariant(st, actions[0]);
      RunWithoutRemovalKeepsInvariant(Reduce(st, actions[0]), actions[1..]);
    }
  }

  /** Where counts and answers agree, the stored counts pass
      `validateVoteCounts` against the roster's own ballots and equal the
      recalculated counts, for every option label other than the empty one. */
  lemma StoredCountsValidate(st: PollState)
    requires VotesAgree(st) && st.currentPoll.Some?
    requires "" !in st.currentPoll.value.options
    ensures var p := st.currentPoll.value;
      && CountsMatch(p.options, p.votes, GetStudentVotesArray(Answers(st.students)))
      && forall o :: o in p.options ==> Lookup(p.votes, o) == Lookup(RecalculateVoteCounts(p.options, Answers(st.students)), o)
  {
  }

  // ---------------------------------------------------------------- scenarios

  /** One student joins, is approved, and votes in a fresh two-option poll. */
  const AnnVotes := [AddPendingStudentAction("Ann", 1), ApproveStudentAction("Ann"),
                     CreatePollAction("Q", ["A", "B"], 30, 2), SubmitVoteAction("Ann", "A")]

  lemma AnnAdmitted()
    ensures ApproveStudent(AddPendingStudent(InitialState, "Ann", 1), "Ann").students
      == [Student(Text.IntToString(1), "Ann", false, true, None)]
  {
    var s1 := AddPendingStudent(InitialState, "Ann", 1);
    AddPendingStudentEffect(InitialState, "Ann", 1);
    assert PendingNames(s1.pendingStudents) == ["Ann"];
  }

  lemma AnnPollOpens()
    ensures var s3 := CreatePoll(ApproveStudent(AddPendingStudent(InitialState, "Ann", 1), "Ann"), "Q", ["A", "B"], 30, 2);
      && |s3.students| == 1 && s3.students[0].name == "Ann" && !s3.students[0].hasAnswered
      && s3.currentPoll.Some? && s3.currentPoll.value.isActive
  {
    AnnAdmitted();
    CreatePollEffect(ApproveStudent(AddPendingStudent(InitialState, "Ann", 1), "Ann"), "Q", ["A", "B"], 30, 2);
  }

  lemma AnnRun()
    ensures Run(InitialState, AnnVotes)
      == SubmitVote(CreatePoll(ApproveStudent(AddPendingStudent(InitialState, "Ann", 1), "Ann"), "Q", ["A", "B"], 30, 2), "Ann", "A")
  {
    RunFour(InitialState, AnnVotes[0], AnnVotes[1], AnnVotes[2], AnnVotes[3]);
  }

  lemma AnnVotesState()
    ensures var st := Run(InitialState, AnnVotes);
      |st.students| == 1 && st.students[0].name == "Ann" && st.students[0].hasAnswered && st.currentPoll.Some?
  {
    var s3 := CreatePoll(ApproveStudent(AddPendingStudent(InitialState, "Ann", 1), "Ann"), "Q", ["A", "B"], 30, 2);
    AnnPollOpens();
    SubmitVoteEffect(s3, "Ann", "A", 0);
    AnnRun();
  }

  /** Removing a student who has voted leaves their vote counted: the counts
      then sum to more than the answered students. */
  lemma RemovingVoterUnbalances()
    ensures var st := Run(InitialState, AnnVotes);
      && Invariant(st)
      && st.currentPoll.Some?
      && MapSum(RemoveStudent(st, "Ann").currentPoll.value.votes) == 1
      && AnsweredCount(Answers(RemoveStudent(st, "Ann").students)) == 0
  {
    var st := Run(InitialState, AnnVotes);
    InitialStateInvariant();
    RunWithoutRemovalKeepsInvariant(InitialState, AnnVotes);
    AnnVotesState();
    RemovingSoleVoter(st);
  }

  lemma RemovingSoleVoter(st: PollState)
    requires VotesBalanced(st) && NamesWellFormed(st)
    requires |st.students| == 1 && st.students[0].name == "Ann" && st.students[0].hasAnswered
    requires st.currentPoll.Some?
    ensures MapSum(RemoveStudent(st, "Ann").currentPoll.value.votes) == 1
    ensures AnsweredCount(Answers(RemoveStudent(st, "Ann").students)) == 0
  {
    assert AnsweredCount(Answers(st.students)) == 1 by {
      AnsweredHead(st.students);
    }
    var r := RemoveStudent(st, "Ann");
    assert StudentNames(st.students) == ["Ann"];
    assert |r.students| == |StudentNames(r.students)|;
  }

  /** The code lets a name be approved and kicked at once: rejecting an
      approved name kicks it without removing it from the roster. */
  lemma RejectingApprovedNameOverlaps()
    ensures var st := Run(InitialState, [AddPendingStudentAction("Sam", 1), ApproveStudentAction("Sam"), RejectStudentAction("Sam")]);
      NamesWellFormed(st) && "Sam" in StudentNames(st.students) && "Sam" in st.kickedStudents
  {
    var actions := [AddPendingStudentAction("Sam", 1), ApproveStudentAction("Sam"), RejectStudentAction("Sam")];
    RunKeepsNames(InitialState, actions);
    var s1 := AddPendingStudent(InitialState, "Sam", 1);
    assert PendingNames(s1.pendingStudents) == ["Sam"];
    var s2 := ApproveStudent(s1, "Sam");
    assert StudentNames(s2.students) == ["Sam"];
    assert Run(InitialState, actions) == RejectStudent(s2, "Sam");
  }

  /** Two join requests under one name queue it once. */
  lemma DoubleRequestQueuesOnce()
    ensures var st := Run(InitialState, [AddPendingStudentAction("Sam", 1), AddPendingStudentAction("Sam", 2)]);
      PendingNames(st.pendingStudents) == ["Sam"]
  {
    var s1 := AddPendingStudent(InitialState, "Sam", 1);
    assert PendingNames(s1.pendingStudents) == ["Sam"];
  }

  /** After a rejection, asking again is refused, and approving then finds no
      pending entry, so the name stays kicked and off the roster. */
  lemma RejectedNameCannotRejoin()
    ensures var st := Run(InitialState, [AddPendingStudentAction("Sam", 1), RejectStudentAction("Sam"),
                                         AddPendingStudentAction("Sam", 2), ApproveStudentAction("Sam")]);
      st.pendingStudents == [] && st.students == [] && st.kickedStudents == ["Sam"]
  {
    var s1 := AddPendingStudent(InitialState, "Sam", 1);
    assert PendingNames(s1.pendingStudents) == ["Sam"];
    var s2 := RejectStudent(s1, "Sam");
    assert s2.pendingStudents == [] by {
      assert |s2.pendingStudents| == |PendingNames(s2.pendingStudents)|;
    }
  }

  /** The kicked list lasts only until the teacher role is chosen again or all
      data is cleared: after either, a rejected name's request is queued. */
  lemma KickedListResetReadmits(st: PollState, n: string, now: int)
    ensures var r := AddPendingStudent(SetRole(RejectStudent(st, n), TeacherRole), n, now);
      PendingNames(r.pendingStudents) == [n] && r.kickedStudents == []
    ensures var r := AddPendingStudent(ClearAllData(RejectStudent(st, n)), n, now);
      PendingNames(r.pendingStudents) == [n] && r.kickedStudents == []
  {
    var e := SetRole(RejectStudent(st, n), TeacherRole);
    assert !KnownName(e, n);
  }
}
