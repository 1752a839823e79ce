/** The teacher's poll form: editing the option list within two to six
    entries, and what submitting the form sends. */
module CreatePollForm {
  import opened Wrappers
  import Text

  datatype Form = Form(question: string, options: seq<string>, maxTime: int)

  /** The `createPoll` command's payload. */
  datatype Payload = Payload(question: string, options: seq<string>, maxTime: int)

  const MinOptions := 2
  const MaxOptions := 6

  /** A fresh form: no question, two empty options, thirty seconds. */
  const Initial := Form("", ["", ""], 30)

  /** Add an empty option, unless there are six already. */
  function AddOption(f: Form): (r: Form)
    ensures |f.options| < MaxOptions ==> r.options == f.options + [""]
    ensures |f.options| >= MaxOptions ==> r == f
    ensures r.question == f.question && r.maxTime == f.maxTime
  {
    if |f.options| < MaxOptions then f.(options := f.options + [""]) else f
  }

  /** Remove the option at `index`, unless only two are left; an index
      outside the list removes nothing. */
  function RemoveOption(f: Form, index: int): (r: Form)
    ensures |f.options| > MinOptions && 0 <= index < |f.options| ==>
      |r.options| == |f.options| - 1
      && (forall i :: 0 <= i < index ==> r.options[i] == f.options[i])
      && (forall i :: index <= i < |r.options| ==> r.options[i] == f.options[i + 1])
    ensures !(|f.options| > MinOptions && 0 <= index < |f.options|) ==> r == f
    ensures r.question == f.question && r.maxTime == f.maxTime
  {
    if |f.options| > MinOptions && 0 <= index < |f.options| then
      f.(options := f.options[..index] + f.options[index + 1..])
    else f
  }

  /** Overwrite the option at `index`. */
  function UpdateOption(f: Form, index: nat, value: string): (r: Form)
    requires index < |f.options|
    ensures |r.options| == |f.options| && r.options[index] == value
    ensures forall i :: 0 <= i < |f.options| && i != index ==> r.options[i] == f.options[i]
    ensures r.question == f.question && r.maxTime == f.maxTime
  {
    f.(options := f.options[index := value])
  }

  predicate Blank(s: string) {
    Text.Trim(s) == ""
  }

  /** `options.filter(opt => opt.trim() !== '')`: the options kept untrimmed,
      in order. */
  function ValidOptions(options: seq<string>): (r: seq<string>)
    ensures |r| <= |options|
    ensures forall i :: 0 <= i < |r| ==> !Blank(r[i])
  {
    if |options| == 0 then []
    else
      assert options == [options[0]] + options[1..];
      (if Blank(options[0]) then [] else [options[0]]) + ValidOptions(options[1..])
  }

  /** Submitting: a blank question or fewer than two non-blank options sends
      nothing; otherwise the trimmed question, the non-blank options as typed,
      and the time limit as entered. */
  function HandleSubmit(f: Form): (r: Option<Payload>)
    ensures r.Some? <==> !Blank(f.question) && |ValidOptions(f.options)| >= MinOptions
    ensures r.Some? ==> r.value.question == Text.Trim(f.question) && r.value.question != ""
    ensures r.Some? ==> r.value.options == ValidOptions(f.options) && r.value.maxTime == f.maxTime
  {
    if Blank(f.question) then None
    else
      var valid := ValidOptions(f.options);
      if |valid| < MinOptions then None
      else Some(Payload(Text.Trim(f.question), valid, f.maxTime))
  }

  /** The edits the form offers. */
  datatype Edit = SetQuestion(q: string) | SetMaxTime(t: int) | Add | Remove(at: int) | Update(index: nat, value: string)

  /** Apply an edit; an update outside the list is not offered by the form
      and leaves it unchanged. */
  function Apply(f: Form, e: Edit): Form {
    match e
    case SetQuestion(q) => f.(question := q)
    case SetMaxTime(t) => f.(maxTime := t)
    case Add => AddOption(f)
    case Remove(i) => RemoveOption(f, i)
    case Update(i, v) => if i < |f.options| then UpdateOption(f, i, v) else f
  }

  function ApplyAll(f: Form, es: seq<Edit>): Form
    decreases |es|
  {
    if |es| == 0 then f else ApplyAll(Apply(f, es[0]), es[1..])
  }

  predicate OptionCountOk(f: Form) {
    MinOptions <= |f.options| <= MaxOptions
  }

  /** Every edit keeps between two and six options. */
  lemma ApplyKeepsOptionCount(f: Form, e: Edit)
    requires OptionCountOk(f)
    ensures OptionCountOk(Apply(f, e))
  {
  }

  /** Whatever the teacher does, the form holds two to six options, so a
      submitted poll has two to six options. */
  lemma {:induction false} EditsKeepOptionCount(es: seq<Edit>)
    ensures OptionCountOk(ApplyAll(Initial, es))
    ensures var r := HandleSubmit(ApplyAll(Initial, es));
      r.Some? ==> MinOptions <= |r.value.options| <= MaxOptions
  {
    ApplyAllKeeps(Initial, es);
  }

  lemma {:induction false} ApplyAllKeeps(f: Form, es: seq<Edit>)
    requires OptionCountOk(f)
    ensures OptionCountOk(ApplyAll(f, es))
    decreases |es|
  {
    if |es| > 0 {
      ApplyKeepsOptionCount(f, es[0]);
      ApplyAllKeeps(Apply(f, es[0]), es[1..]);
    }
  }

  /** The options sent are exactly the non-blank options typed, each as
      often as it was typed. */
  lemma {:induction false} ValidOptionsCounts(options: seq<string>)
    ensures forall o :: multiset(ValidOptions(options))[o] == (if Blank(o) then 0 else multiset(options)[o])
    decreases |options|
  {
    if |options| > 0 {
      var head := if Blank(options[0]) then [] else [options[0]];
      ValidOptionsCounts(options[1..]);
      ValidOptionsStep(options);
      ValidOptionsCountsCons(options, head, ValidOptions(options[1..]), ValidOptions(options));
    }
  }

  /** The induction step of `ValidOptionsCounts`: the head's share `head` in
      front of what the tail keeps (`kept`) gives the counts for the whole. */
  lemma ValidOptionsCountsCons(options: seq<string>, head: seq<string>, kept: seq<string>, r: seq<string>)
    requires |options| > 0 && head == (if Blank(options[0]) then [] else [options[0]])
    requires forall o :: multiset(kept)[o] == (if Blank(o) then 0 else multiset(options[1..])[o])
    requires r == head + kept
    ensures forall o :: multiset(r)[o] == (if Blank(o) then 0 else multiset(options)[o])
  {
    var x, rest := options[0], options[1..];
    assert options == [x] + rest;
    forall o ensures multiset(r)[o] == (if Blank(o) then 0 else multiset(options)[o]) {
      assert multiset(r)[o] == multiset(head)[o] + multiset(kept)[o];
      assert multiset(options)[o] == multiset([x])[o] + multiset(rest)[o];
      if o == x {
        assert multiset(head)[o] == (if Blank(o) then 0 else 1);
      } else {
        assert multiset(head)[o] == 0;
      }
    }
  }

  lemma ValidOptionsStep(options: seq<string>)
    requires |options| > 0
    ensures ValidOptions(options) == (if Blank(options[0]) then [] else [options[0]]) + ValidOptions(options[1..])
  {
  }

  /** One step of the filter on `a + b` and on `a`, with the head's share
      `head` named. */
  lemma ValidOptionsConsAppend(a: seq<string>, b: seq<string>, head: seq<string>)
    requires |a| > 0
    requires head == (if Blank(a[0]) then [] else [a[0]])
    ensures ValidOptions(a + b) == head + ValidOptions(a[1..] + b)
    ensures ValidOptions(a) == head + ValidOptions(a[1..])
  {
    assert (a + b)[1..] == a[1..] + b;
    ValidOptionsStep(a + b);
    ValidOptionsStep(a);
  }

  lemma Associate(x: seq<string>, y: seq<string>, z: seq<string>)
    ensures x + (y + z) == (x + y) + z
  {
  }

  /** The filter distributes over concatenation, so the options sent keep the
      order in which they were typed. */
  lemma {:induction false} ValidOptionsAppend(a: seq<string>, b: seq<string>)
    ensures ValidOptions(a + b) == ValidOptions(a) + ValidOptions(b)
    decreases |a|
  {
    if |a| == 0 {
      assert a + b == b;
    } else {
      var head := if Blank(a[0]) then [] else [a[0]];
      ValidOptionsAppend(a[1..], b);
      ValidOptionsConsAppend(a, b, head);
      Associate(head, ValidOptions(a[1..]), ValidOptions(b));
    }
  }

  lemma ValidOptionsKeepsHead(options: seq<string>)
    requires |options| > 0 && !Blank(options[0])
    ensures ValidOptions(options) == [options[0]] + ValidOptions(options[1..])
  {
  }

  lemma {:induction false} ValidOptionsKeepsNonBlank(options: seq<string>)
    requires forall i :: 0 <= i < |options| ==> !Blank(options[i])
    ensures ValidOptions(options) == options
    decreases |options|
  {
    if |options| > 0 {
      assert !Blank(options[0]);
      ValidOptionsKeepsNonBlank(options[1..]);
      ValidOptionsKeepsHead(options);
    }
  }

  /** Re-entering a sent payload into the form and submitting sends the same
      payload again: what is sent is already in submitted form. */
  lemma ResubmitSamePayload(f: Form)
    requires HandleSubmit(f).Some?
    ensures var p := HandleSubmit(f).value;
      HandleSubmit(Form(p.question, p.options, p.maxTime)) == Some(p)
  {
    var p := HandleSubmit(f).value;
    Text.TrimIdempotent(f.question);
    ValidOptionsKeepsNonBlank(p.options);
  }

  lemma PlainOptionsKept()
    ensures ValidOptions(["A", "B"]) == ["A", "B"]
  {
    var opts := ["A", "B"];
    assert !Blank("B") by { Text.TrimUnpadded("B"); }
    assert ValidOptions(opts[1..]) == ["B"] by {
      assert opts[1..] == ["B"];
      ValidOptionsKeepsHead(["B"]);
      assert ["B"][1..] == [];
    }
    assert !Blank("A") by { Text.TrimUnpadded("A"); }
    ValidOptionsKeepsHead(opts);
  }

  /** The time limit is passed on as entered, even outside ten to three hundred. */
  lemma TimeLimitUnchecked(t: int)
    ensures HandleSubmit(Form("Q", ["A", "B"], t)) == Some(Payload("Q", ["A", "B"], t))
  {
    Text.TrimUnpadded("Q");
    PlainOptionsKept();
  }
}
