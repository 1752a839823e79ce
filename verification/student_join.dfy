/** The student's join form: the checks a typed name goes through, in order,
    before the join request is sent. */
module StudentJoinForm {
  import opened Session
  import Text

  const EmptyNameError := "Please enter your name"
  const ShortNameError := "Name must be at least 2 characters long"
  const TakenNameError := "This name is already taken. Please choose a different name."

  datatype Outcome = Rejected(error: string) | Joined(name: string)

  /** Some approved student's name equals `name` up to case. Only the roster
      is consulted, not the pending queue. */
  predicate Taken(students: seq<Student>, name: string) {
    exists i :: 0 <= i < |students| && Text.ToLower(students[i].name) == Text.ToLower(name)
  }

  /** Submitting the form with `typed` in the name field. */
  function HandleSubmit(students: seq<Student>, typed: string): (r: Outcome)
    ensures r == Rejected(EmptyNameError) <==> Text.AllSpace(typed)
    ensures r == Rejected(ShortNameError) <==> |Text.Trim(typed)| == 1
    ensures r.Joined? ==> r.name == Text.Trim(typed) && |r.name| >= 2 && !Taken(students, r.name)
    ensures r.Rejected? ==> r.error in {EmptyNameError, ShortNameError, TakenNameError}
  {
    Text.TrimEmptyIffBlank(typed);
    var name := Text.Trim(typed);
    if name == "" then Rejected(EmptyNameError)
    else if |name| < 2 then Rejected(ShortNameError)
    else if Taken(students, name) then Rejected(TakenNameError)
    else Joined(name)
  }

  /** A name is refused as taken exactly when it passes the first two checks
      and matches an approved name up to case. */
  lemma TakenExactly(students: seq<Student>, typed: string)
    ensures HandleSubmit(students, typed) == Rejected(TakenNameError) <==>
      |Text.Trim(typed)| >= 2 && Taken(students, Text.Trim(typed))
  {
  }

  /** Surrounding blanks make no difference to the outcome. */
  lemma TrimmedInputSameOutcome(students: seq<Student>, typed: string)
    ensures HandleSubmit(students, Text.Trim(typed)) == HandleSubmit(students, typed)
  {
    Text.TrimIdempotent(typed);
    Text.TrimEmptyIffBlank(typed);
    Text.TrimEmptyIffBlank(Text.Trim(typed));
  }

  /** An accepted name is not on the roster verbatim. (The form then emits
      `joinAsStudent`, a command the service ignores.) */
  lemma JoinedNameNotApproved(students: seq<Student>, typed: string)
    requires HandleSubmit(students, typed).Joined?
    ensures HandleSubmit(students, typed).name !in StudentNames(students)
  {
  }

  /** The roster's names in any mix of ASCII case are refused as taken. */
  lemma CaseVariantRefused(students: seq<Student>, i: nat, typed: string)
    requires i < |students| && |Text.Trim(typed)| >= 2
    requires Text.ToLower(students[i].name) == Text.ToLower(Text.Trim(typed))
    ensures HandleSubmit(students, typed) == Rejected(TakenNameError)
  {
  }
}
