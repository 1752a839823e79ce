/** What the results panel and the teacher's countdown show. */
module ResultsView {
  import opened Wrappers
  import opened Tally
  import opened Session
  import SessionProperties
  import Text

  /** One option's line: its 1-based position, label, count, rounded
      percentage and the "N vote(s)" caption. */
  datatype Row = Row(position: nat, option: string, votes: nat, percentage: int, caption: string)

  datatype Panel = Panel(question: string, totalVotes: nat, rows: seq<Row>)

  /** "1 vote", otherwise "N votes": the plural `s` is there exactly when the
      count is not one. */
  function Caption(votes: nat): (r: string)
    ensures |r| >= 6
    ensures r[|r| - 1] == 's' <==> votes != 1
    ensures Text.StartsWith(r, Text.NatToString(votes))
  {
    Text.NatToString(votes) + " vote" + (if votes != 1 then "s" else "")
  }

  /** The caption reads back: the count in decimal, then " vote" exactly for
      one vote and " votes" otherwise. */
  lemma CaptionReadsBack(votes: nat)
    ensures var d := Text.NatToString(votes);
      var r := Caption(votes);
      && AllDigits(r[..|d|]) && Text.ParseDigits(r[..|d|]) == votes
      && (r[|d|..] == " vote" <==> votes == 1)
      && (r[|d|..] == " votes" <==> votes != 1)
  {
    var d := Text.NatToString(votes);
    var r := Caption(votes);
    assert r[..|d|] == d;
    Text.NatToStringRoundTrip(votes);
    assert r[|d|..] == " vote" + (if votes != 1 then "s" else "");
  }

  /** The results panel: nothing without a poll; otherwise one row per option
      in order, against the sum of all stored counts. */
  ghost function Render(st: PollState): (r: Option<Panel>)
    ensures r.None? <==> st.currentPoll.None?
    ensures r.Some? ==> |r.value.rows| == |st.currentPoll.value.options|
    ensures r.Some? ==> r.value.totalVotes == MapSum(st.currentPoll.value.votes)
    ensures r.Some? ==> forall i :: 0 <= i < |r.value.rows| ==> r.value.rows[i].caption == Caption(r.value.rows[i].votes)
  {
    match st.currentPoll
    case None => None
    case Some(p) =>
      var total := MapSum(p.votes);
      Some(Panel(p.question, total,
        seq(|p.options|, i requires 0 <= i < |p.options| =>
          var v := Lookup(p.votes, p.options[i]);
          Row(i + 1, p.options[i], v, Percentage(v, total), Caption(v)))))
  }

  /** The panel agrees row for row with `calculateFromVoteCounts`, and its
      percentages lie between 0 and 100. */
  lemma RenderAgreesWithCalculation(st: PollState)
    requires st.currentPoll.Some?
    ensures var p := st.currentPoll.value;
      var panel := Render(st).value;
      var stats := CalculateFromVoteCounts(p.options, p.votes);
      && panel.totalVotes == stats.totalVotes
      && forall i :: 0 <= i < |panel.rows| ==>
           && panel.rows[i].option == stats.results[i].option
           && panel.rows[i].votes == stats.results[i].votes
           && panel.rows[i].percentage == stats.results[i].percentage
           && 0 <= panel.rows[i].percentage <= 100
           && panel.rows[i].position == i + 1
  {
    var p := st.currentPoll.value;
    var panel := Render(st).value;
    forall i | 0 <= i < |panel.rows| ensures 0 <= panel.rows[i].percentage <= 100 {
      LookupAtMostSum(p.votes, p.options[i]);
      PercentageBounds(Lookup(p.votes, p.options[i]), MapSum(p.votes));
    }
  }

  /** While counts and answers agree, the panel's total is the number of
      students who have answered. */
  lemma RenderTotalIsAnswered(st: PollState)
    requires st.currentPoll.Some? && SessionProperties.VotesBalanced(st)
    ensures Render(st).value.totalVotes == AnsweredCount(Answers(st.students))
  {
  }

  // ---------------------------------------------------------------- countdown

  /** `a % 60` in JavaScript: the remainder takes the sign of the dividend,
      and it is congruent to `a` modulo 60. */
  function JsRem60(a: int): (r: int)
    ensures a >= 0 ==> 0 <= r < 60
    ensures a < 0 ==> -60 < r <= 0
    ensures r % 60 == a % 60
  {
    if a >= 0 then a % 60 else -((-a) % 60)
  }

  /** The teacher's clock: floored minutes and the JavaScript remainder of the
      seconds, each padded to two characters with zeros. */
  function FormatCountdown(t: int): (r: string)
    ensures |r| >= 5
    ensures 0 <= t < 6000 ==> |r| == 5 && r[2] == ':'
  {
    Text.PadStart(Text.IntToString(t / 60), 2, '0') + ":" + Text.PadStart(Text.IntToString(JsRem60(t)), 2, '0')
  }

  /** The clock shows only while the poll is open. */
  function Countdown(st: PollState): (r: Option<string>)
    ensures r.Some? <==> st.currentPoll.Some? && st.currentPoll.value.isActive
  {
    if st.currentPoll.Some? && st.currentPoll.value.isActive then Some(FormatCountdown(st.timeRemaining)) else None
  }

  predicate AllDigits(s: string) {
    forall i :: 0 <= i < |s| ==> Text.IsDigit(s[i])
  }

  /** A number below 100, zero-padded to two digits, reads back as itself. */
  lemma TwoDigits(n: nat)
    requires n < 100
    ensures var p := Text.PadStart(Text.IntToString(n), 2, '0');
      |p| == 2 && AllDigits(p) && Text.ParseDigits(p) == n
  {
    var s := Text.NatToString(n);
    var p := Text.PadStart(s, 2, '0');
    Text.NatToStringRoundTrip(n);
    if n < 10 {
      assert p == "0" + s;
      Text.ParseDigitsLeadingZero(s);
    }
  }

  /** Below 100 minutes the clock reads `MM:SS` and reading it back gives the
      time remaining. */
  lemma CountdownReadsBack(t: int)
    requires 0 <= t < 6000
    ensures var r := FormatCountdown(t);
      && |r| == 5 && r[2] == ':' && AllDigits(r[..2]) && AllDigits(r[3..])
      && Text.ParseDigits(r[..2]) * 60 + Text.ParseDigits(r[3..]) == t
  {
    TwoDigits(t / 60);
    TwoDigits(t % 60);
    var r := FormatCountdown(t);
    assert r[..2] == Text.PadStart(Text.IntToString(t / 60), 2, '0');
    assert r[3..] == Text.PadStart(Text.IntToString(t % 60), 2, '0');
  }

  /** A negative time, which a negative limit produces, shows a minus sign on
      both fields. */
  lemma NegativeTimeShowsSigns(t: int)
    requires -60 < t < 0
    ensures FormatCountdown(t) == "-1:-" + Text.NatToString(-t)
  {
    assert t / 60 == -1;
    assert Text.IntToString(-1) == "-1" by { assert Text.NatToString(1) == "1"; }
    assert JsRem60(t) == t;
    var sec := Text.IntToString(t);
    assert sec == "-" + Text.NatToString(-t);
    assert Text.PadStart(sec, 2, '0') == sec;
  }
}
