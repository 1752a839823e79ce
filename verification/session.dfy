/**
 * The session record and its reducers (the Redux slice `poll`). Every reducer is
 * a total function from a state to the next state; `Date.now()` is the `now`
 * parameter and the ids it produces are its decimal text.
 */
module Session {
  import opened Wrappers
  import opened Tally
  import Text

  datatype Role = TeacherRole | StudentRole

  datatype Poll = Poll(
    id: string, question: string, options: seq<string>, votes: VoteCount,
    isActive: bool, createdAt: int, maxTime: int)

  datatype Student = Student(
    id: string, name: string, hasAnswered: bool, isApproved: bool, selectedOption: Option<string>)

  datatype PendingStudent = PendingStudent(id: string, name: string, timestamp: int)

  datatype PollState = PollState(
    currentPoll: Option<Poll>,
    students: seq<Student>,
    pendingStudents: seq<PendingStudent>,
    role: Option<Role>,
    studentName: string,
    timeRemaining: int,
    showResults: bool,
    kickedStudents: seq<string>)

  const InitialState := PollState(None, [], [], None, "", 0, false, [])

  // ---------------------------------------------------------------- names

  function StudentNames(ss: seq<Student>): (r: seq<string>)
    ensures |r| == |ss| && forall i :: 0 <= i < |ss| ==> r[i] == ss[i].name
  {
    seq(|ss|, i requires 0 <= i < |ss| => ss[i].name)
  }

  function PendingNames(ps: seq<PendingStudent>): (r: seq<string>)
    ensures |r| == |ps| && forall i :: 0 <= i < |ps| ==> r[i] == ps[i].name
  {
    seq(|ps|, i requires 0 <= i < |ps| => ps[i].name)
  }

  /** The fields of each student the tally reads. */
  function Answers(ss: seq<Student>): (r: seq<Answer>)
    ensures |r| == |ss|
    ensures forall i :: 0 <= i < |ss| ==> r[i] == Answer(ss[i].hasAnswered, ss[i].selectedOption)
  {
    seq(|ss|, i requires 0 <= i < |ss| => Answer(ss[i].hasAnswered, ss[i].selectedOption))
  }

  /** No label occurs twice. */
  ghost predicate Distinct(xs: seq<string>) {
    forall x :: multiset(xs)[x] <= 1
  }

  ghost predicate Disjoint(xs: seq<string>, ys: seq<string>) {
    forall x :: x in xs ==> x !in ys
  }

  /** `names.filter(x => x !== n)`. */
  function Erase(xs: seq<string>, n: string): (r: seq<string>)
    ensures multiset(r) == multiset(xs)[n := 0]
    ensures |r| <= |xs|
  {
    if |xs| == 0 then []
    else
      assert xs == [xs[0]] + xs[1..];
      (if xs[0] == n then [] else [xs[0]]) + Erase(xs[1..], n)
  }

  lemma PendingNamesCons(p: PendingStudent, rest: seq<PendingStudent>)
    ensures PendingNames([p] + rest) == [p.name] + PendingNames(rest)
  {
  }

  lemma StudentNamesCons(s: Student, rest: seq<Student>)
    ensures StudentNames([s] + rest) == [s.name] + StudentNames(rest)
  {
  }

  /** `pendingStudents.filter(s => s.name !== n)`. */
  function WithoutPending(ps: seq<PendingStudent>, n: string): (r: seq<PendingStudent>)
    ensures PendingNames(r) == Erase(PendingNames(ps), n)
    ensures forall p :: p in r <==> p in ps && p.name != n
  {
    if |ps| == 0 then []
    else
      var rest := WithoutPending(ps[1..], n);
      PendingNamesCons(ps[0], ps[1..]);
      assert ps == [ps[0]] + ps[1..];
      if ps[0].name == n then rest
      else
        PendingNamesCons(ps[0], rest);
        [ps[0]] + rest
  }

  /** `students.filter(s => s.name !== n)`. */
  function WithoutStudent(ss: seq<Student>, n: string): (r: seq<Student>)
    ensures StudentNames(r) == Erase(StudentNames(ss), n)
    ensures forall s :: s in r <==> s in ss && s.name != n
  {
    if |ss| == 0 then []
    else
      var rest := WithoutStudent(ss[1..], n);
      StudentNamesCons(ss[0], ss[1..]);
      assert ss == [ss[0]] + ss[1..];
      if ss[0].name == n then rest
      else
        StudentNamesCons(ss[0], rest);
        [ss[0]] + rest
  }

  /** `pendingStudents.find(s => s.name === n)`: the first entry with that name. */
  function FindPending(ps: seq<PendingStudent>, n: string): (r: Option<PendingStudent>)
    ensures r.None? <==> n !in PendingNames(ps)
    ensures r.Some? ==> r.value in ps && r.value.name == n
  {
    if |ps| == 0 then None
    else if ps[0].name == n then Some(ps[0])
    else
      assert PendingNames(ps) == [ps[0].name] + PendingNames(ps[1..]);
      FindPending(ps[1..], n)
  }

  /** `students.find(s => s.name === n)`, as the position of the first match. */
  function FindStudent(ss: seq<Student>, n: string): (r: Option<nat>)
    ensures r.None? <==> n !in StudentNames(ss)
    ensures r.Some? ==> (r.value < |ss| && ss[r.value].name == n
      && forall j :: 0 <= j < r.value ==> ss[j].name != n)
  {
    if |ss| == 0 then None
    else if ss[0].name == n then Some(0)
    else
      assert StudentNames(ss)[1..] == StudentNames(ss[1..]);
      match FindStudent(ss[1..], n)
      case None => None
      case Some(i) => Some(i + 1)
  }

  /** Every student with no answer and no selection, all else kept. */
  function ResetAnswers(ss: seq<Student>): (r: seq<Student>)
    ensures |r| == |ss|
    ensures forall i :: 0 <= i < |ss| ==>
      r[i] == ss[i].(hasAnswered := false, selectedOption := None)
  {
    seq(|ss|, i requires 0 <= i < |ss| => ss[i].(hasAnswered := false, selectedOption := None))
  }

  // ---------------------------------------------------------------- reducers

  /** `setRole`: choosing the teacher role wipes the session; the student role
      only records the role. */
  function SetRole(st: PollState, role: Role): (r: PollState)
    ensures r.role == Some(role) && r.studentName == st.studentName
    ensures role == StudentRole ==> r == st.(role := Some(role))
    ensures role == TeacherRole ==>
      r == st.(role := Some(role), currentPoll := None, students := [], pendingStudents := [],
               timeRemaining := 0, showResults := false, kickedStudents := [])
  {
    if role == TeacherRole then
      st.(role := Some(role), currentPoll := None, students := [], pendingStudents := [],
          timeRemaining := 0, showResults := false, kickedStudents := [])
    else st.(role := Some(role))
  }

  function SetStudentName(st: PollState, name: string): (r: PollState)
    ensures r.studentName == name && r.(studentName := st.studentName) == st
  {
    st.(studentName := name)
  }

  /** `addPendingStudent`: queue `n` unless it is already pending, approved or
      kicked. */
  function AddPendingStudent(st: PollState, n: string, now: int): (r: PollState)
    ensures r.students == st.students && r.kickedStudents == st.kickedStudents
    ensures r.currentPoll == st.currentPoll
    ensures n in PendingNames(st.pendingStudents) ==> r == st
  {
    if n in PendingNames(st.pendingStudents) || n in StudentNames(st.students) || n in st.kickedStudents then st
    else st.(pendingStudents := st.pendingStudents + [PendingStudent(Text.IntToString(now), n, now)])
  }

  /** `approveStudent`: promote the first pending entry named `n`, if any. */
  function ApproveStudent(st: PollState, n: string): (r: PollState)
    ensures n !in PendingNames(r.pendingStudents)
    ensures r.currentPoll == st.currentPoll
  {
    match FindPending(st.pendingStudents, n)
    case None => st
    case Some(p) =>
      st.(students := st.students + [Student(p.id, p.name, false, true, None)],
          pendingStudents := WithoutPending(st.pendingStudents, n),
          kickedStudents := Erase(st.kickedStudents, n))
  }

  /** `rejectStudent`: drop every pending entry named `n` and kick the name. */
  function RejectStudent(st: PollState, n: string): (r: PollState)
    ensures n !in PendingNames(r.pendingStudents) && n in r.kickedStudents
    ensures r.students == st.students && r.currentPoll == st.currentPoll
  {
    st.(pendingStudents := WithoutPending(st.pendingStudents, n),
        kickedStudents := if n in st.kickedStudents then st.kickedStudents else st.kickedStudents + [n])
  }

  /** `createPoll`: a fresh active poll with a zero count per option label. */
  function CreatePoll(st: PollState, question: string, options: seq<string>, maxTime: int, now: int): (r: PollState)
    ensures r.currentPoll.Some? && r.currentPoll.value.isActive
    ensures r.currentPoll.value.options == options && r.currentPoll.value.question == question
    ensures r.pendingStudents == st.pendingStudents && r.kickedStudents == st.kickedStudents
  {
    var poll := Poll(Text.IntToString(now), question, options, ZeroCounts(options), true, now, maxTime);
    st.(currentPoll := Some(poll), students := ResetAnswers(st.students),
        timeRemaining := maxTime, showResults := false)
  }

  /** `submitVote`: while the poll is active, the first student named
      `studentName` who has not answered gets the vote; nothing else does.
      The option is not checked against the poll's option list. */
  function SubmitVote(st: PollState, studentName: string, option: string): (r: PollState)
    ensures r.pendingStudents == st.pendingStudents && r.kickedStudents == st.kickedStudents
    ensures StudentNames(r.students) == StudentNames(st.students)
  {
    if st.currentPoll.Some? && st.currentPoll.value.isActive then
      match FindStudent(st.students, studentName)
      case Some(i) =>
        if !st.students[i].hasAnswered then
          var poll := st.currentPoll.value;
          var votes := poll.votes[option := Lookup(poll.votes, option) + 1];
          var voted := st.students[i].(hasAnswered := true, selectedOption := Some(option));
          st.(currentPoll := Some(poll.(votes := votes)), students := st.students[i := voted])
        else st
      case None => st
    else st
  }

  function SetTimeRemaining(st: PollState, t: int): (r: PollState)
    ensures r.timeRemaining == t && r.(timeRemaining := st.timeRemaining) == st
  {
    st.(timeRemaining := t)
  }

  /** `endPoll`: close the poll and show the results; no poll, no change. */
  function EndPoll(st: PollState): (r: PollState)
    ensures st.currentPoll.None? ==> r == st
    ensures st.currentPoll.Some? ==> (r.currentPoll.Some? && !r.currentPoll.value.isActive
      && r.showResults && r.timeRemaining == 0)
    ensures st.currentPoll.Some? ==>
      && r.currentPoll.value.(isActive := st.currentPoll.value.isActive) == st.currentPoll.value
      && r.(currentPoll := st.currentPoll, showResults := st.showResults, timeRemaining := st.timeRemaining) == st
  {
    match st.currentPoll
    case None => st
    case Some(p) => st.(currentPoll := Some(p.(isActive := false)), showResults := true, timeRemaining := 0)
  }

  function SetShowResults(st: PollState, show: bool): (r: PollState)
    ensures r.showResults == show && r.(showResults := st.showResults) == st
  {
    st.(showResults := show)
  }

  /** `removeStudent`: drop every roster entry named `n` and kick the name. The
      vote counts are left as they are. */
  function RemoveStudent(st: PollState, n: string): (r: PollState)
    ensures n !in StudentNames(r.students) && n in r.kickedStudents
    ensures r.pendingStudents == st.pendingStudents && r.currentPoll == st.currentPoll
  {
    st.(students := WithoutStudent(st.students, n),
        kickedStudents := if n in st.kickedStudents then st.kickedStudents else st.kickedStudents + [n])
  }

  /** `clearPoll`: no poll, no answers, no countdown, no results. */
  function ClearPoll(st: PollState): (r: PollState)
    ensures r.currentPoll.None? && r.timeRemaining == 0 && !r.showResults
    ensures StudentNames(r.students) == StudentNames(st.students)
    ensures forall i :: 0 <= i < |r.students| ==> !r.students[i].hasAnswered && r.students[i].selectedOption.None?
  {
    st.(currentPoll := None, students := ResetAnswers(st.students), timeRemaining := 0, showResults := false)
  }

  function LeavePoll(st: PollState): (r: PollState)
    ensures r.role.None? && r.studentName == ""
    ensures r.(role := st.role, studentName := st.studentName) == st
  {
    st.(role := None, studentName := "")
  }

  /** `clearAllData`: back to the initial state, whatever the session held. */
  function ClearAllData(st: PollState): (r: PollState)
    ensures r == InitialState
    ensures r.currentPoll.None? && r.students == [] && r.pendingStudents == [] && r.kickedStudents == []
    ensures r.role.None? && r.studentName == "" && r.timeRemaining == 0 && !r.showResults
  {
    InitialState
  }

  // ---------------------------------------------------------------- actions

  /** The slice's action creators, one constructor each. */
  datatype Action =
    | SetRoleAction(role: Role)
    | SetStudentNameAction(name: string)
    | AddPendingStudentAction(name: string, now: int)
    | ApproveStudentAction(name: string)
    | RejectStudentAction(name: string)
    | CreatePollAction(question: string, options: seq<string>, maxTime: int, now: int)
    | SubmitVoteAction(studentName: string, option: string)
    | SetTimeRemainingAction(time: int)
    | EndPollAction
    | SetShowResultsAction(show: bool)
    | RemoveStudentAction(name: string)
    | ClearPollAction
    | LeavePollAction
    | ClearAllDataAction

  /** The slice reducer: dispatch an action to its case reducer. */
  function Reduce(st: PollState, a: Action): (r: PollState)
    ensures r.role != st.role ==> a.SetRoleAction? || a.LeavePollAction? || a.ClearAllDataAction?
    ensures r.studentName != st.studentName ==>
      a.SetStudentNameAction? || a.LeavePollAction? || a.ClearAllDataAction?
    ensures r.kickedStudents != st.kickedStudents ==>
      a.SetRoleAction? || a.ApproveStudentAction? || a.RejectStudentAction?
      || a.RemoveStudentAction? || a.ClearAllDataAction?
  {
    match a
    case SetRoleAction(role) => SetRole(st, role)
    case SetStudentNameAction(name) => SetStudentName(st, name)
    case AddPendingStudentAction(name, now) => AddPendingStudent(st, name, now)
    case ApproveStudentAction(name) => ApproveStudent(st, name)
    case RejectStudentAction(name) => RejectStudent(st, name)
    case CreatePollAction(question, options, maxTime, now) => CreatePoll(st, question, options, maxTime, now)
    case SubmitVoteAction(studentName, option) => SubmitVote(st, studentName, option)
    case SetTimeRemainingAction(time) => SetTimeRemaining(st, time)
    case EndPollAction => EndPoll(st)
    case SetShowResultsAction(show) => SetShowResults(st, show)
    case RemoveStudentAction(name) => RemoveStudent(st, name)
    case ClearPollAction => ClearPoll(st)
    case LeavePollAction => LeavePoll(st)
    case ClearAllDataAction => ClearAllData(st)
  }
}
