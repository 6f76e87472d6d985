/**
 * The round state of nba_wordle_game.py: what st.session_state holds
 * between reruns of the script (the answer's name, the answer's record and
 * the list of feedback rows), how the first run fills it, how a submitted
 * guess extends it, when the round counts as won, and how "Play Again"
 * clears it.
 */
module Session {

  import opened Wrappers
  import opened Scoring

  /** The round is won when the most recent row carries the answer's name. */
  predicate IsWon(guesses: seq<GuessFeedback>, answer: Player) {
    |guesses| > 0 && guesses[|guesses| - 1].name == answer.name
  }

  /** Only the newest row decides: an earlier win is undone by a later row with another name. */
  lemma WonByLastOnly(guesses: seq<GuessFeedback>, row: GuessFeedback, answer: Player)
    ensures IsWon(guesses + [row], answer) <==> row.name == answer.name
  {
  }

  /** No round is won before its first guess. */
  lemma NotWonWhenEmpty(answer: Player)
    ensures !IsWon([], answer)
  {
  }

  /** The row for the answer's own record wins, whatever came before. */
  lemma GuessingAnswerWins(guesses: seq<GuessFeedback>, answer: Player)
    ensures IsWon(guesses + [Feedback(answer, answer)], answer)
  {
  }

  class Round {
    /**
     * Every roster name with the record get_player_info gives for its id:
     * player_dict followed by the per-id lookup, fixed for the session.
     */
    const roster: map<string, Player>
    /** st.session_state.answer_name */
    var answerName: Option<string>
    /** st.session_state.answer_info */
    var answer: Option<Player>
    /** st.session_state.guesses */
    var guesses: seq<GuessFeedback>
    /** The roster names behind the rows of guesses, in the same order. */
    ghost var guessed: seq<string>

    /**
     * The answer's name and record are present together and the record is
     * the roster's; without an answer there are no rows; every row is the
     * feedback of a roster player against the answer.
     */
    ghost predicate Valid()
      reads this
    {
      && answerName.Some? == answer.Some?
      && (answerName.Some? ==> answerName.value in roster && answer == Some(roster[answerName.value]))
      && (answer.None? ==> guesses == [])
      && |guessed| == |guesses|
      && forall k :: 0 <= k < |guesses| ==>
           guessed[k] in roster && answer.Some? && Feedback(roster[guessed[k]], answer.value) == guesses[k]
    }

    /** A new session: st.session_state starts out empty. */
    constructor (roster: map<string, Player>)
      ensures Valid()
      ensures this.roster == roster && answerName == None && answer == None && guesses == []
    {
      this.roster := roster;
      answerName, answer, guesses := None, None, [];
      guessed := [];
    }

    predicate Started()
      reads this
    {
      answer.Some?
    }

    /**
     * The guard at the top of every run: only when no answer is held,
     * take pick (what random.choice drew from the sorted roster names), look
     * its record up and start an empty history. Otherwise nothing changes.
     */
    method Start(pick: string)
      requires Valid()
      requires !Started() ==> pick in roster
      modifies this
      ensures Valid() && Started()
      ensures old(answer).Some? ==>
        answerName == old(answerName) && answer == old(answer) && guesses == old(guesses)
      ensures old(answer).None? ==>
        answerName == Some(pick) && answer == Some(roster[pick]) && guesses == []
    {
      if answer.None? {
        answerName := Some(pick);
        answer := Some(roster[pick]);
        guesses := [];
        guessed := [];
      }
    }

    /**
     * "Submit Guess": look the chosen name's record up, compare it with the
     * answer's and append the row. The name lookup raises KeyError for a
     * name outside the roster, which aborts the run before the append, so
     * the history is left as it was. Guesses are taken after a win too.
     */
    method Submit(name: string) returns (accepted: bool)
      requires Valid() && Started()
      modifies this`guesses, this`guessed
      ensures Valid()
      ensures answer == old(answer) && answerName == old(answerName)
      ensures accepted <==> name in roster
      ensures accepted ==> guesses == old(guesses) + [Feedback(roster[name], answer.value)]
      ensures !accepted ==> guesses == old(guesses)
      ensures accepted ==> (Won() <==> roster[name].name == answer.value.name)
      ensures answerName == Some(name) ==> Won()
    {
      if name !in roster {
        return false;
      }
      guesses := guesses + [Feedback(roster[name], answer.value)];
      guessed := guessed + [name];
      accepted := true;
    }

    /** The win check: the newest row names the answer. */
    predicate Won()
      reads this
      ensures Won() ==> Started() && guesses != []
    {
      answer.Some? && IsWon(guesses, answer.value)
    }

    /** st.session_state.clear(): answer, name and history all go. */
    method Clear()
      modifies this
      ensures Valid()
      ensures answerName == None && answer == None && guesses == []
    {
      answerName, answer, guesses := None, None, [];
      guessed := [];
    }

    /**
     * "Play Again", offered only once the round is won: clear the state and
     * rerun, whose first step draws a fresh answer (possibly the same one).
     */
    method PlayAgain(pick: string)
      requires Valid() && Won()
      requires pick in roster
      modifies this
      ensures Valid() && Started() && !Won()
      ensures answerName == Some(pick) && answer == Some(roster[pick]) && guesses == []
    {
      Clear();
      Start(pick);
    }
  }
}
