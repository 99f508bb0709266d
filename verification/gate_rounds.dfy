/**
 The retry rule of the rebind gate as a state machine: attempts, the questions each of them voids, and the streaks that
 decide between trying again, accepting and giving up.
 */
module GateRounds {
  import opened Wrappers

  datatype Question = Question(bank: string, caseId: string)

  /** The questions that each attempt would void, the attempts numbered from zero over the whole run. */
  type Attempts = nat -> set<Question>

  const MAX_VOIDS_IN_A_ROW := 3

  // ----- streaks ----------------------------------------------------------

  /** How many of the latest attempts, without a gap, voided the question. */
  function Streak(history: seq<set<Question>>, q: Question): (n: nat)
    ensures n <= |history|
  {
    if history == [] || q !in history[|history| - 1] then 0 else 1 + Streak(history[..|history| - 1], q)
  }

  /** A streak reaches n exactly when the last n attempts all voided the question. */
  lemma {:induction false} StreakReaches(history: seq<set<Question>>, q: Question, n: nat)
    ensures Streak(history, q) >= n <==>
            (n <= |history| && forall i :: |history| - n <= i < |history| ==> q in history[i])
    decreases n
  {
    if n > 0 && history != [] {
      var last := |history| - 1;
      StreakReaches(history[..last], q, n - 1);
      if n <= |history| && forall i :: |history| - n <= i < |history| ==> q in history[i] {
        assert forall i :: last - (n - 1) <= i < last ==> q in history[..last][i];
      }
    }
  }

  function Count(streaks: map<Question, nat>, q: Question): nat {
    if q in streaks then streaks[q] else 0
  }

  function NextStreaks(prev: map<Question, nat>, voided: set<Question>): map<Question, nat> {
    map q | q in voided :: Count(prev, q) + 1
  }

  /** The counts are the streaks of the history. */
  ghost predicate Tracks(streaks: map<Question, nat>, history: seq<set<Question>>) {
    forall q :: Count(streaks, q) == Streak(history, q)
  }

  /** Counting on keeps the counts equal to the streaks, and an attempt without voids ends them all. */
  lemma NextStreaksTrack(streaks: map<Question, nat>, history: seq<set<Question>>, voided: set<Question>)
    requires Tracks(streaks, history)
    ensures Tracks(NextStreaks(streaks, voided), history + [voided])
    ensures voided == {} ==> Tracks(map[], history + [voided])
  {
  }

  // ----- how a round and the gate end -------------------------------------

  datatype RoundEnd = Clean(attempt: nat) | Stuck(attempt: nat, questions: set<Question>) | Spent

  /** The questions that the attempt and the two before it voided, all three within the round that began at start. */
  function ThreeInARow(run: Attempts, start: nat, attempt: nat): set<Question> {
    if attempt < 3 then {}
    else run(start + attempt - 1) * run(start + attempt - 2) * run(start + attempt - 3)
  }

  /** The first attempts of the round void something, and no question voids three in a row. */
  ghost predicate Unsettled(run: Attempts, start: nat, attempts: int) {
    forall a: nat :: 1 <= a <= attempts ==> Voids(run, start, a) && ThreeInARow(run, start, a) == {}
  }

  predicate Voids(run: Attempts, start: nat, attempt: nat)
    requires attempt >= 1
  {
    run(start + attempt - 1) != {}
  }

  /** A round ends at its first attempt that voids nothing or that is the third in a row for a question, or when its
      attempts are spent. */
  ghost predicate Ends(run: Attempts, start: nat, maxRuns: int, e: RoundEnd) {
    match e
    case Clean(a) => 1 <= a <= maxRuns && Unsettled(run, start, a - 1) && !Voids(run, start, a)
    case Stuck(a, questions) =>
      && 1 <= a <= maxRuns && Unsettled(run, start, a - 1) && Voids(run, start, a)
      && questions == ThreeInARow(run, start, a) && questions != {}
    case Spent => Unsettled(run, start, maxRuns)
  }

  /** A round ends in one way only. */
  lemma EndIsUnique(run: Attempts, start: nat, maxRuns: int, e: RoundEnd, f: RoundEnd)
    requires Ends(run, start, maxRuns, e) && Ends(run, start, maxRuns, f)
    ensures e == f
  {
  }

  datatype Outcome =
    | Passed(first: nat, second: nat)
    | StoppedOn(round: nat, attempt: nat, questions: set<Question>)
    | NotClean(round: nat)

  /** The gate passes when both rounds end clean, the second beginning after the attempt that the first accepts. */
  ghost predicate EndsGate(run: Attempts, maxRuns: int, outcome: Outcome) {
    match outcome
    case Passed(a, b) => Ends(run, 0, maxRuns, Clean(a)) && Ends(run, a, maxRuns, Clean(b))
    case StoppedOn(round, a, questions) => EndsAtRound(run, maxRuns, round, Stuck(a, questions))
    case NotClean(round) => EndsAtRound(run, maxRuns, round, Spent)
  }

  ghost predicate EndsAtRound(run: Attempts, maxRuns: int, round: nat, e: RoundEnd) {
    || (round == 1 && Ends(run, 0, maxRuns, e))
    || (round == 2 && exists a: nat :: Ends(run, 0, maxRuns, Clean(a)) && Ends(run, a, maxRuns, e))
  }

  /** What the attempts void and how many a round may take determine the outcome. */
  lemma OutcomeIsUnique(run: Attempts, maxRuns: int, o: Outcome, p: Outcome)
    requires EndsGate(run, maxRuns, o) && EndsGate(run, maxRuns, p)
    ensures o == p
  {
    hide Ends;
    forall s: nat, e, f | Ends(run, s, maxRuns, e) && Ends(run, s, maxRuns, f) ensures e == f {
      EndIsUnique(run, s, maxRuns, e, f);
    }
  }

  // ----- the run ----------------------------------------------------------

  datatype Round = Round(accepted: Option<nat>, discarded: seq<set<Question>>)

  /** The attempts made so far. */
  ghost function History(run: Attempts, n: nat): seq<set<Question>> {
    seq(n, i requires 0 <= i < n => run(i))
  }

  /** A round begins with no streak. */
  ghost predicate Fresh(run: Attempts, start: nat) {
    start == 0 || run(start - 1) == {}
  }

  /** No streak had reached three when any of the first n attempts began. */
  ghost predicate NeverStuckBefore(run: Attempts, n: nat) {
    forall k: nat, q :: k < n ==> Streak(History(run, k), q) < MAX_VOIDS_IN_A_ROW
  }

  /** Within a round a streak of three is made of attempts of the round. */
  lemma StreakInRound(run: Attempts, start: nat, attempt: nat, q: Question)
    requires Fresh(run, start)
    ensures Streak(History(run, start + attempt), q) >= MAX_VOIDS_IN_A_ROW <==> q in ThreeInARow(run, start, attempt)
  {
    hide Streak;
    var h := History(run, start + attempt);
    StreakReaches(h, q, 3);
    if Streak(h, q) >= 3 {
      assert h[|h| - 1] == run(start + attempt - 1) && h[|h| - 2] == run(start + attempt - 2)
          && h[|h| - 3] == run(start + attempt - 3);
    }
  }

  /** One round, its streaks carried from attempt to attempt. */
  method PlayRound(run: Attempts, start: nat, maxRuns: int, before: map<Question, nat>)
    returns (e: RoundEnd, round: Round, streaks: map<Question, nat>, total: nat)
    requires Fresh(run, start) && Tracks(before, History(run, start)) && NeverStuckBefore(run, start)
    ensures Ends(run, start, maxRuns, e)
    ensures start <= total <= start + (if maxRuns < 0 then 0 else maxRuns) && NeverStuckBefore(run, total)
    ensures Tracks(streaks, History(run, total))
    ensures e.Clean? ==> total == start + e.attempt && Fresh(run, total) && streaks == map[]
    ensures e.Stuck? ==> total == start + e.attempt
    ensures e.Stuck? ==> forall q :: q in e.questions <==> Streak(History(run, total), q) >= MAX_VOIDS_IN_A_ROW
    ensures round.accepted == if e.Clean? then Some(e.attempt) else None
    ensures History(run, total) == History(run, start) + round.discarded + if e.Clean? then [{}] else []
    ensures {} !in round.discarded
  {
    hide Streak, ThreeInARow, Tracks;
    streaks := before;
    var discarded := [];
    var attempt := 1;
    while attempt <= maxRuns
      invariant 1 <= attempt <= (if maxRuns < 1 then 1 else maxRuns + 1)
      invariant Unsettled(run, start, attempt - 1) && NeverStuckBefore(run, start + attempt - 1)
      invariant Tracks(streaks, History(run, start + attempt - 1))
      invariant History(run, start + attempt - 1) == History(run, start) + discarded && {} !in discarded
    {
      var voids := run(start + attempt - 1);
      HistoryGrows(run, start + attempt - 1);
      NextStreaksTrack(streaks, History(run, start + attempt - 1), voids);
      BeginsUnstuck(run, start, attempt);
      if voids == {} {
        return Clean(attempt), Round(Some(attempt), discarded), map[], start + attempt;
      }
      discarded := discarded + [voids];
      streaks := NextStreaks(streaks, voids);
      var stuck := set q | q in streaks && streaks[q] >= MAX_VOIDS_IN_A_ROW;
      StuckIsThree(run, start, attempt, streaks);
      if stuck != {} {
        return Stuck(attempt, stuck), Round(None, discarded), streaks, start + attempt;
      }
      attempt := attempt + 1;
    }
    return Spent, Round(None, discarded), streaks, start + attempt - 1;
  }

  lemma HistoryGrows(run: Attempts, n: nat)
    ensures History(run, n + 1) == History(run, n) + [run(n)]
  {
  }

  lemma BeginsUnstuck(run: Attempts, start: nat, attempt: nat)
    requires attempt >= 1 && Fresh(run, start) && Unsettled(run, start, attempt - 1)
    requires NeverStuckBefore(run, start + attempt - 1)
    ensures NeverStuckBefore(run, start + attempt)
  {
    hide Streak;
    var h := History(run, start + attempt - 1);
    forall q ensures Streak(h, q) < MAX_VOIDS_IN_A_ROW {
      StreakInRound(run, start, attempt - 1, q);
      assert ThreeInARow(run, start, attempt - 1) == {};
    }
  }

  lemma StuckIsThree(run: Attempts, start: nat, attempt: nat, streaks: map<Question, nat>)
    requires Fresh(run, start) && Tracks(streaks, History(run, start + attempt))
    ensures (set q | q in streaks && streaks[q] >= MAX_VOIDS_IN_A_ROW) == ThreeInARow(run, start, attempt)
    ensures forall q :: q in ThreeInARow(run, start, attempt) <==>
        Streak(History(run, start + attempt), q) >= MAX_VOIDS_IN_A_ROW
  {
    hide Streak, ThreeInARow;
    forall q ensures q in ThreeInARow(run, start, attempt) <==> Count(streaks, q) >= MAX_VOIDS_IN_A_ROW
      ensures q in ThreeInARow(run, start, attempt) <==> Streak(History(run, start + attempt), q) >= MAX_VOIDS_IN_A_ROW
    {
      StreakInRound(run, start, attempt, q);
      assert Count(streaks, q) == Streak(History(run, start + attempt), q);
    }
  }

  /** The two rounds. The outcome is the one that the voids determine; no attempt begins once a streak is three; a gate
      that stops on questions names those whose streak is three; the record holds every attempt made. */
  method RunGateRounds(run: Attempts, maxRuns: int) returns (outcome: Outcome, rounds: seq<Round>, total: nat)
    ensures EndsGate(run, maxRuns, outcome)
    ensures total <= 2 * (if maxRuns < 0 then 0 else maxRuns) && NeverStuckBefore(run, total)
    ensures outcome.StoppedOn? ==> forall q :: q in outcome.questions <==>
        Streak(History(run, total), q) >= MAX_VOIDS_IN_A_ROW
    ensures outcome.Passed? ==> total == outcome.first + outcome.second && |rounds| == 2
    ensures Recorded(rounds) == History(run, total)
  {
    hide Ends, Streak, NeverStuckBefore, Recorded, History, Tracks;
    NothingYet(run);
    var e, round, streaks, first := PlayRound(run, 0, maxRuns, map[]);
    rounds, total := [round], first;
    RecordedOne(round);
    assert Recorded(rounds) == History(run, total);
    if e.Stuck? {
      return StoppedOn(1, e.attempt, e.questions), rounds, total;
    } else if e.Spent? {
      return NotClean(1), rounds, total;
    }
    var f, round2, streaks2, second := PlayRound(run, first, maxRuns, streaks);
    rounds, total := rounds + [round2], second;
    RecordedTwo(round, round2);
    match f {
      case Clean(a) => outcome := Passed(e.attempt, a);
      case Stuck(a, questions) => outcome := StoppedOn(2, a, questions);
      case Spent => outcome := NotClean(2);
    }
  }

  lemma NothingYet(run: Attempts)
    ensures NeverStuckBefore(run, 0) && History(run, 0) == [] && Tracks(map[], [])
  {
  }

  /** The attempts that a record of rounds holds, in order; an accepted attempt voided nothing. */
  function Recorded(rounds: seq<Round>): seq<set<Question>> {
    if rounds == [] then []
    else
      var last := rounds[|rounds| - 1];
      Recorded(rounds[..|rounds| - 1]) + (last.discarded + if last.accepted.Some? then [{}] else [])
  }

  lemma RecordedOne(a: Round)
    ensures Recorded([a]) == a.discarded + if a.accepted.Some? then [{}] else []
  {
  }

  lemma RecordedTwo(a: Round, b: Round)
    ensures Recorded([a] + [b]) == Recorded([a]) + (b.discarded + if b.accepted.Some? then [{}] else [])
  {
  }
}
