/**
 * Vote tally: the pure counting helpers of the poll. A vote-count object is a
 * map from option label to count; a missing key reads as zero (`votes[o] || 0`).
 */
module Tally {
  import opened Wrappers

  type VoteCount = map<string, nat>

  /** One row of a result table. */
  datatype OptionResult = OptionResult(option: string, votes: nat, percentage: int)

  datatype PollStats = PollStats(totalVotes: nat, results: seq<OptionResult>, voteCounts: VoteCount)

  /** The two student fields the tally reads. */
  datatype Answer = Answer(hasAnswered: bool, selectedOption: Option<string>)

  datatype VotingProgress = VotingProgress(
    votedStudents: int, totalStudents: int, remainingStudents: int,
    completionPercentage: int, isComplete: bool)

  /** `m[o] || 0`. */
  function Lookup(m: VoteCount, o: string): nat {
    if o in m then m[o] else 0
  }

  /** The sum of all values of a vote-count object, whatever its keys. */
  ghost function MapSum(m: VoteCount): nat
    decreases |m|
  {
    if m == map[] then 0
    else
      var k :| k in m;
      m[k] + MapSum(m - {k})
  }

  /** The sum does not depend on which key is taken out first. */
  lemma {:induction false} MapSumRemove(m: VoteCount, k: string)
    requires k in m
    ensures MapSum(m) == m[k] + MapSum(m - {k})
    decreases |m|
  {
    var j :| j in m && MapSum(m) == m[j] + MapSum(m - {j});
    if j != k {
      MapSumRemove(m - {j}, k);
      MapSumRemove(m - {k}, j);
      assert m - {j} - {k} == m - {k} - {j};
    }
  }

  /** Raising one count by one (adding the key if absent) raises the sum by one. */
  lemma MapSumIncrement(m: VoteCount, o: string)
    ensures MapSum(m[o := Lookup(m, o) + 1]) == MapSum(m) + 1
  {
    var m' := m[o := Lookup(m, o) + 1];
    MapSumRemove(m', o);
    if o in m {
      MapSumRemove(m, o);
      assert m' - {o} == m - {o};
    } else {
      assert m' - {o} == m;
    }
  }

  /** A map whose every count is zero sums to zero. */
  lemma {:induction false} MapSumAllZero(m: VoteCount)
    requires forall k :: k in m ==> m[k] == 0
    ensures MapSum(m) == 0
    decreases |m|
  {
    if m != map[] {
      var k :| k in m;
      MapSumRemove(m, k);
      MapSumAllZero(m - {k});
    }
  }

  /** No single count exceeds the total. */
  lemma LookupAtMostSum(m: VoteCount, o: string)
    ensures Lookup(m, o) <= MapSum(m)
  {
    if o in m {
      MapSumRemove(m, o);
    }
  }

  /** `Math.round(v / t * 100)` when `t > 0`, and 0 otherwise, computed exactly:
      the integer nearest to 100v/t, halves rounded up. */
  function Percentage(v: int, t: int): (r: int)
    ensures t <= 0 ==> r == 0
    ensures t > 0 ==> 2 * t * r <= 200 * v + t < 2 * t * r + 2 * t
  {
    if t > 0 then (200 * v + t) / (2 * t) else 0
  }

  lemma {:induction false} MulMonotone(d: int, x: int, y: int)
    requires d >= 0 && x <= y
    ensures d * x <= d * y
    decreases y - x
  {
    if x < y {
      MulMonotone(d, x, y - 1);
    }
  }

  /** Integer division by a positive divisor is bracketed by multiples. */
  lemma DivBetween(a: int, d: int, lo: int, hi: int)
    requires d > 0 && d * lo <= a < d * hi
    ensures lo <= a / d < hi
  {
    var q := a / d;
    assert d * q <= a < d * q + d;
    if q >= hi {
      MulMonotone(d, hi, q);
    }
    if q < lo {
      MulMonotone(d, q + 1, lo);
    }
  }

  /** A share of a whole is a percentage between 0 and 100; all of it is 100
      and none of it is 0. */
  lemma PercentageBounds(v: int, t: int)
    requires 0 <= v <= t
    ensures 0 <= Percentage(v, t) <= 100
    ensures t > 0 && v == t ==> Percentage(v, t) == 100
    ensures v == 0 ==> Percentage(v, t) == 0
  {
    if t > 0 {
      var a, d := 200 * v + t, 2 * t;
      if v == t {
        DivBetween(a, d, 100, 101);
      } else if v == 0 {
        DivBetween(a, d, 0, 1);
      } else {
        DivBetween(a, d, 0, 101);
      }
    }
  }

  /** The counting loop of `calculatePollResults`: each ballot whose label is
      already a key raises that key by one; other ballots are skipped. */
  function CountBallots(init: VoteCount, ballots: seq<string>): (r: VoteCount)
    ensures r.Keys == init.Keys
    ensures forall o :: o in r ==> r[o] == init[o] + multiset(ballots)[o]
  {
    if |ballots| == 0 then init
    else
      var c := CountBallots(init, ballots[..|ballots| - 1]);
      var b := ballots[|ballots| - 1];
      assert ballots == ballots[..|ballots| - 1] + [b];
      if b in c then c[b := c[b] + 1] else c
  }

  /** The keys every option gets before counting: each option label with 0. */
  function ZeroCounts(options: seq<string>): (r: VoteCount)
    ensures r.Keys == set o | o in options
    ensures forall o :: o in r ==> r[o] == 0
  {
    map o | o in options :: 0
  }

  /** The result table: one row per option, in option order. */
  function ResultRows(options: seq<string>, counts: VoteCount, total: nat): (r: seq<OptionResult>)
    ensures |r| == |options|
    ensures forall i :: 0 <= i < |options| ==> r[i].option == options[i] && r[i].votes == Lookup(counts, options[i])
    ensures forall i :: 0 <= i < |options| ==> r[i].percentage == Percentage(r[i].votes, total)
  {
    seq(|options|, i requires 0 <= i < |options| => OptionResult(options[i], Lookup(counts, options[i]), Percentage(Lookup(counts, options[i]), total)))
  }

  /** `calculatePollResults(options, votes)`. Every option is a key; each count
      is the number of ballots equal to it; ballots naming no option are not
      counted but still make up `totalVotes`; percentages are shares of it. */
  function CalculatePollResults(options: seq<string>, votes: seq<string>): (r: PollStats)
    ensures r.voteCounts.Keys == set o | o in options
    ensures forall o :: o in options ==> r.voteCounts[o] == multiset(votes)[o]
    ensures r.totalVotes == |votes|
    ensures |r.results| == |options|
    ensures forall i :: 0 <= i < |options| ==>
      r.results[i].option == options[i] && r.results[i].votes == multiset(votes)[options[i]]
      && 0 <= r.results[i].percentage <= 100
    ensures |votes| == 0 ==> forall i :: 0 <= i < |options| ==> r.results[i].percentage == 0
  {
    var counts := CountBallots(ZeroCounts(options), votes);
    assert forall i | 0 <= i < |options| :: 0 <= Percentage(Lookup(counts, options[i]), |votes|) <= 100 by {
      forall i | 0 <= i < |options| ensures 0 <= Percentage(Lookup(counts, options[i]), |votes|) <= 100 {
        assert multiset(votes)[options[i]] <= |multiset(votes)|;
        PercentageBounds(Lookup(counts, options[i]), |votes|);
      }
    }
    PollStats(|votes|, ResultRows(options, counts, |votes|), counts)
  }

  /** Number of ballots whose label is a key of `keys`. */
  function KnownBallots(ballots: seq<string>, keys: set<string>): (n: nat)
    ensures n <= |ballots|
    ensures n == |ballots| <==> forall i :: 0 <= i < |ballots| ==> ballots[i] in keys
  {
    if |ballots| == 0 then 0
    else KnownBallots(ballots[..|ballots| - 1], keys) + (if ballots[|ballots| - 1] in keys then 1 else 0)
  }

  /** Counting the last ballot after the others. */
  lemma CountBallotsLast(init: VoteCount, ballots: seq<string>)
    requires |ballots| > 0
    ensures var c := CountBallots(init, ballots[..|ballots| - 1]);
      var b := ballots[|ballots| - 1];
      && c.Keys == init.Keys
      && CountBallots(init, ballots) == (if b in c then c[b := Lookup(c, b) + 1] else c)
  {
  }

  /** Counting adds exactly one to the sum per ballot that names a key. */
  lemma {:induction false} CountBallotsSum(init: VoteCount, ballots: seq<string>)
    ensures MapSum(CountBallots(init, ballots)) == MapSum(init) + KnownBallots(ballots, init.Keys)
  {
    if |ballots| > 0 {
      var front := ballots[..|ballots| - 1];
      var b := ballots[|ballots| - 1];
      var c := CountBallots(init, front);
      assert MapSum(c) == MapSum(init) + KnownBallots(front, init.Keys) by {
        CountBallotsSum(init, front);
      }
      assert KnownBallots(ballots, init.Keys) == KnownBallots(front, init.Keys) + (if b in init.Keys then 1 else 0);
      assert MapSum(CountBallots(init, ballots)) == MapSum(c) + (if b in init.Keys then 1 else 0) by {
        CountBallotsLast(init, ballots);
        if b in c {
          MapSumIncrement(c, b);
        }
      }
    }
  }

  /** The counts of `calculatePollResults` add up to at most `totalVotes`, and to
      exactly `totalVotes` when every ballot names an option. */
  lemma TallySumBound(options: seq<string>, votes: seq<string>)
    ensures MapSum(CalculatePollResults(options, votes).voteCounts) <= CalculatePollResults(options, votes).totalVotes
    ensures (forall i :: 0 <= i < |votes| ==> votes[i] in options)
      <==> MapSum(CalculatePollResults(options, votes).voteCounts) == CalculatePollResults(options, votes).totalVotes
  {
    var z := ZeroCounts(options);
    CountBallotsSum(z, votes);
    MapSumAllZero(z);
    assert forall i :: 0 <= i < |votes| ==> (votes[i] in z.Keys <==> votes[i] in options);
  }

  /** A count stored under a key that is not an option still adds to the
      total: one vote for "A" and two for an unknown "X" make three. */
  lemma OrphanKeysCounted()
    ensures var r := CalculateFromVoteCounts(["A"], map["A" := 1, "X" := 2]);
      r.totalVotes == 3 && r.results[0].votes == 1 && r.results[0].percentage == 33
  {
    var m := map["A" := 1, "X" := 2];
    assert MapSum(m) == 3 by {
      MapSumRemove(m, "X");
      assert m - {"X"} == map["A" := 1];
      MapSumRemove(map["A" := 1], "A");
      assert map["A" := 1] - {"A"} == map[];
    }
  }

  /** `calculateFromVoteCounts(options, voteCounts)`: the total is the sum of ALL
      values, keys outside `options` included; a missing option counts 0; the
      count object is passed through. */
  ghost function CalculateFromVoteCounts(options: seq<string>, voteCounts: VoteCount): (r: PollStats)
    ensures r.voteCounts == voteCounts
    ensures r.totalVotes == MapSum(voteCounts)
    ensures |r.results| == |options|
    ensures forall i :: 0 <= i < |options| ==> r.results[i].percentage == Percentage(r.results[i].votes, r.totalVotes)
    ensures forall i :: 0 <= i < |options| ==>
      r.results[i].option == options[i] && r.results[i].votes == Lookup(voteCounts, options[i])
      && r.results[i].votes <= r.totalVotes && 0 <= r.results[i].percentage <= 100
    ensures r.totalVotes == 0 ==> forall i :: 0 <= i < |options| ==> r.results[i].percentage == 0
    ensures forall o :: o in voteCounts ==> voteCounts[o] <= r.totalVotes
  {
    var total := MapSum(voteCounts);
    assert forall o :: Lookup(voteCounts, o) <= total by {
      forall o ensures Lookup(voteCounts, o) <= total {
        LookupAtMostSum(voteCounts, o);
      }
    }
    assert forall o :: o in voteCounts ==> voteCounts[o] <= total by {
      forall o | o in voteCounts ensures voteCounts[o] <= total {
        assert Lookup(voteCounts, o) == voteCounts[o];
      }
    }
    assert forall i | 0 <= i < |options| :: 0 <= Percentage(Lookup(voteCounts, options[i]), total) <= 100 by {
      forall i | 0 <= i < |options| ensures 0 <= Percentage(Lookup(voteCounts, options[i]), total) <= 100 {
        PercentageBounds(Lookup(voteCounts, options[i]), total);
      }
    }
    PollStats(total, ResultRows(options, voteCounts, total), voteCounts)
  }

  /** `Object.values(voteCounts).reduce((sum, c) => sum + c, 0)`, key by key. */
  method SumVotes(voteCounts: VoteCount) returns (total: nat)
    ensures total == MapSum(voteCounts)
  {
    total := 0;
    var rest := voteCounts;
    while rest != map[]
      invariant total + MapSum(rest) == MapSum(voteCounts)
      decreases |rest|
    {
      var k :| k in rest;
      MapSumRemove(rest, k);
      total := total + rest[k];
      rest := rest - {k};
    }
  }

  /** What one answer contributes to `ChoiceCount` for `o`. */
  function Chose(a: Answer, o: string): nat {
    if a.hasAnswered && a.selectedOption == Some(o) then 1 else 0
  }

  /** Number of answers that chose `o`. */
  function ChoiceCount(answers: seq<Answer>, o: string): nat {
    if |answers| == 0 then 0
    else Chose(answers[0], o) + ChoiceCount(answers[1..], o)
  }

  /** Number of answers marked as answered. */
  function AnsweredCount(answers: seq<Answer>): (n: nat)
    ensures n <= |answers|
    ensures n == |answers| <==> forall i :: 0 <= i < |answers| ==> answers[i].hasAnswered
    ensures n == 0 <==> forall i :: 0 <= i < |answers| ==> !answers[i].hasAnswered
  {
    if |answers| == 0 then 0
    else (if answers[0].hasAnswered then 1 else 0) + AnsweredCount(answers[1..])
  }

  /** Replacing one answer changes each count by that answer's contribution only. */
  lemma {:induction false} CountsAfterUpdate(answers: seq<Answer>, i: nat, a: Answer)
    requires i < |answers|
    ensures AnsweredCount(answers[i := a]) + (if answers[i].hasAnswered then 1 else 0)
      == AnsweredCount(answers) + (if a.hasAnswered then 1 else 0)
    ensures forall o :: ChoiceCount(answers[i := a], o) + Chose(answers[i], o) == ChoiceCount(answers, o) + Chose(a, o)
  {
    if i > 0 {
      assert answers[i := a][1..] == answers[1..][i - 1 := a];
      CountsAfterUpdate(answers[1..], i - 1, a);
    } else {
      assert answers[i := a][1..] == answers[1..];
    }
  }

  /** Appending one answer adds that answer's contribution to each count. */
  lemma {:induction false} CountsAfterAppend(answers: seq<Answer>, a: Answer)
    ensures AnsweredCount(answers + [a]) == AnsweredCount(answers) + (if a.hasAnswered then 1 else 0)
    ensures forall o :: ChoiceCount(answers + [a], o) == ChoiceCount(answers, o) + Chose(a, o)
  {
    if |answers| > 0 {
      assert (answers + [a])[1..] == answers[1..] + [a];
      CountsAfterAppend(answers[1..], a);
    }
  }

  /** With nobody answered, no option has been chosen. */
  lemma {:induction false} NoAnswerNoChoice(answers: seq<Answer>, o: string)
    requires AnsweredCount(answers) == 0
    ensures ChoiceCount(answers, o) == 0
  {
    if |answers| > 0 {
      NoAnswerNoChoice(answers[1..], o);
    }
  }

  /** `getStudentVotesArray(students)`: the chosen labels of answered students, in
      roster order. A student whose choice is the empty string is dropped, as
      the empty string is falsy. */
  function GetStudentVotesArray(answers: seq<Answer>): (r: seq<string>)
    ensures |r| <= |answers|
    ensures "" !in r
    ensures forall o :: o != "" ==> multiset(r)[o] == ChoiceCount(answers, o)
  {
    if |answers| == 0 then []
    else
      var a := answers[0];
      var rest := GetStudentVotesArray(answers[1..]);
      if a.hasAnswered && a.selectedOption.Some? && a.selectedOption.value != "" then
        [a.selectedOption.value] + rest
      else rest
  }

  /** Roster order is kept: the ballots of two roster segments are the
      first segment's ballots followed by the second's. */
  lemma {:induction false} StudentVotesArrayAppend(a: seq<Answer>, b: seq<Answer>)
    ensures GetStudentVotesArray(a + b) == GetStudentVotesArray(a) + GetStudentVotesArray(b)
    decreases |a|
  {
    if |a| == 0 {
      assert a + b == b;
    } else {
      assert (a + b)[1..] == a[1..] + b;
      StudentVotesArrayAppend(a[1..], b);
    }
  }

  /** Stored counts agree with the ballots on every option (missing reads 0). */
  predicate CountsMatch(options: seq<string>, voteCounts: VoteCount, ballots: seq<string>) {
    forall o :: o in options ==> Lookup(voteCounts, o) == multiset(ballots)[o]
  }

  /** `validateVoteCounts(options, voteCounts, studentVotes)`. */
  method ValidateVoteCounts(options: seq<string>, voteCounts: VoteCount, studentVotes: seq<string>) returns (ok: bool)
    ensures ok <==> CountsMatch(options, voteCounts, studentVotes)
  {
    var calculated := CalculatePollResults(options, studentVotes);
    var i := 0;
    while i < |options|
      invariant 0 <= i <= |options|
      invariant forall k :: 0 <= k < i ==> Lookup(voteCounts, options[k]) == Lookup(calculated.voteCounts, options[k])
    {
      if Lookup(voteCounts, options[i]) != Lookup(calculated.voteCounts, options[i]) {
        return false;
      }
      i := i + 1;
    }
    return true;
  }

  /** `recalculateVoteCounts(options, students)`. */
  function RecalculateVoteCounts(options: seq<string>, answers: seq<Answer>): (r: VoteCount)
    ensures r.Keys == set o | o in options
    ensures forall o :: o in options && o != "" ==> r[o] == ChoiceCount(answers, o)
  {
    CalculatePollResults(options, GetStudentVotesArray(answers)).voteCounts
  }

  /** Round trip: freshly recalculated counts always pass validation against the
      same roster's ballots. */
  lemma RecalculatedCountsValidate(options: seq<string>, answers: seq<Answer>)
    ensures CountsMatch(options, RecalculateVoteCounts(options, answers), GetStudentVotesArray(answers))
  {
  }

  /** `checkAllStudentsVoted(total, voted)`. */
  predicate CheckAllStudentsVoted(totalStudents: int, votedStudents: int) {
    totalStudents > 0 && votedStudents == totalStudents
  }

  /** The two completion tests agree: everyone has voted exactly when the
      progress report says the vote is complete. */
  lemma AllVotedIffComplete(totalStudents: int, votedStudents: int)
    ensures CheckAllStudentsVoted(totalStudents, votedStudents) <==> GetVotingProgress(totalStudents, votedStudents).isComplete
  {
  }

  /** `getVotingProgress(total, voted)`. */
  function GetVotingProgress(totalStudents: int, votedStudents: int): (r: VotingProgress)
    ensures r.totalStudents == totalStudents && r.votedStudents == votedStudents
    ensures r.remainingStudents + r.votedStudents == r.totalStudents
    ensures r.isComplete <==> r.totalStudents > 0 && r.remainingStudents == 0
    ensures totalStudents <= 0 ==> r.completionPercentage == 0 && !r.isComplete
    ensures 0 <= votedStudents <= totalStudents ==> 0 <= r.completionPercentage <= 100
    ensures r.isComplete ==> r.completionPercentage == 100
  {
    var p := Percentage(votedStudents, totalStudents);
    assert 0 <= votedStudents <= totalStudents ==> 0 <= p <= 100 && (votedStudents == totalStudents > 0 ==> p == 100) by {
      if 0 <= votedStudents <= totalStudents {
        PercentageBounds(votedStudents, totalStudents);
      }
    }
    VotingProgress(votedStudents, totalStudents, totalStudents - votedStudents,
      p, CheckAllStudentsVoted(totalStudents, votedStudents))
  }
}
