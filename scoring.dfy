/**
 * The feedback engine of nba_wordle_game.py (feedback): a guessed player's
 * record compared with the answer's, attribute by attribute, each giving one
 * of three marks (green, yellow, white), plus the guessed name.
 */
module Scoring {

  import opened Wrappers
  import opened Strings
  import opened Numerals
  import opened Height

  /** The three marks: green square, yellow square, white square. */
  datatype Tier = Exact | Close | NoMatch

  /**
   * A player record as get_player_info returns it; the id is not compared
   * and is left out. height is None where the data frame held something
   * other than a str; age is None where it was missing or not a number.
   */
  datatype Player = Player(name: string, team: string, position: string, height: Option<string>, age: Option<int>)

  /** One row of the guess history. */
  datatype GuessFeedback = GuessFeedback(name: string, team: Tier, position: Tier, height: Tier, age: Tier)

  /**
   * The team mark of feedback as written: the same full team name is Exact;
   * otherwise the same last word is Close; otherwise NoMatch. None where
   * split()[-1] raises IndexError: the names differ and one of them has no
   * word at all, as for a player without a team.
   */
  function TeamTierAsWritten(guess: string, answer: string): (r: Option<Tier>)
    ensures r == Some(Exact) <==> guess == answer
    ensures r == Some(Close) <==> guess != answer && !Blank(guess) && !Blank(answer) && LastWord(guess) == LastWord(answer)
    ensures r == Some(NoMatch) <==> guess != answer && !Blank(guess) && !Blank(answer) && LastWord(guess) != LastWord(answer)
    ensures r.None? <==> guess != answer && (Blank(guess) || Blank(answer))
  {
    if guess == answer then Some(Exact)
    else
      match (LastWord(guess), LastWord(answer))
      case (Some(g), Some(a)) => Some(if g == a then Close else NoMatch)
      case _ => None
  }

  /** A teamless guess against a rostered answer makes the team mark of feedback raise IndexError instead of marking the team. */
  lemma TeamlessGuessRaises(guess: string, answer: string)
    requires guess == "" && answer == "Boston Celtics"
    ensures TeamTierAsWritten(guess, answer).None?
  {
  }

  /**
   * The team mark as intended: the same marks wherever the team mark of
   * feedback as written yields one, and NoMatch where it raises, since a
   * name without a last word shares none with a different name.
   */
  function TeamTier(guess: string, answer: string): (r: Tier)
    ensures r == Exact <==> guess == answer
    ensures r == Close <==> guess != answer && LastWord(guess).Some? && LastWord(guess) == LastWord(answer)
    ensures TeamTierAsWritten(guess, answer).Some? ==> TeamTierAsWritten(guess, answer) == Some(r)
    ensures TeamTierAsWritten(guess, answer).None? ==> r == NoMatch
  {
    if guess == answer then Exact
    else
      match (LastWord(guess), LastWord(answer))
      case (Some(g), Some(a)) => if g == a then Close else NoMatch
      case _ => NoMatch
  }

  /** The position mark has no middle tier: the same label or nothing. */
  function PositionTier(guess: string, answer: string): (r: Tier)
    ensures r == Exact <==> guess == answer
    ensures r != Close
  {
    if guess == answer then Exact else NoMatch
  }

  function Abs(x: int): nat {
    if x < 0 then -x else x
  }

  /** The "within 2" mark shared by height and age: equal, at most 2 apart, or further. */
  function Band(x: int, y: int): (r: Tier)
    ensures r == Exact <==> x == y
    ensures r == Close <==> x != y && y - 2 <= x <= y + 2
    ensures r == NoMatch <==> x < y - 2 || x > y + 2
  {
    if x == y then Exact else if Abs(x - y) <= 2 then Close else NoMatch
  }

  /** The height mark compares normalised inches, so two unreadable heights (both 0) are Exact. */
  function HeightTier(guess: Option<string>, answer: Option<string>): (r: Tier)
    ensures r == Exact <==> HeightToInches(guess) == HeightToInches(answer)
    ensures r == Close <==> 0 < Abs(HeightToInches(guess) - HeightToInches(answer)) <= 2
    ensures r == NoMatch <==> Abs(HeightToInches(guess) - HeightToInches(answer)) > 2
    ensures HeightToInches(guess) == 0 && HeightToInches(answer) == 0 ==> r == Exact
  {
    Band(HeightToInches(guess), HeightToInches(answer))
  }

  /** The age mark: NoMatch whenever either age is unknown, else the "within 2" mark. */
  function AgeTier(guess: Option<int>, answer: Option<int>): (r: Tier)
    ensures guess.None? || answer.None? ==> r == NoMatch
    ensures r == Exact <==> guess.Some? && guess == answer
    ensures r == Close <==> guess.Some? && answer.Some? && guess != answer
                            && answer.value - 2 <= guess.value <= answer.value + 2
  {
    if guess.Some? && answer.Some? then Band(guess.value, answer.value) else NoMatch
  }

  /**
   * feedback(guess, answer): the guessed name is copied and each attribute
   * gets its mark, the team one as intended (see TeamTier).
   */
  function Feedback(guess: Player, answer: Player): (r: GuessFeedback)
    ensures r.name == guess.name
    ensures r.team == TeamTier(guess.team, answer.team)
    ensures r.position == PositionTier(guess.position, answer.position)
    ensures r.height == HeightTier(guess.height, answer.height)
    ensures r.age == AgeTier(guess.age, answer.age)
  {
    GuessFeedback(guess.name, TeamTier(guess.team, answer.team), PositionTier(guess.position, answer.position),
                  HeightTier(guess.height, answer.height), AgeTier(guess.age, answer.age))
  }

  /** Every mark is symmetric in guess and answer; only the copied name is not. */
  lemma FeedbackSymmetric(guess: Player, answer: Player)
    ensures var f, b := Feedback(guess, answer), Feedback(answer, guess);
      f.team == b.team && f.position == b.position && f.height == b.height && f.age == b.age
  {
  }

  /** Guessing the answer itself marks team, position and height Exact, and age Exact when it is known. */
  lemma FeedbackSelf(x: Player)
    ensures Feedback(x, x) == GuessFeedback(x.name, Exact, Exact, Exact, if x.age.Some? then Exact else NoMatch)
  {
  }

  /** Two different cities sharing a nickname are Close. */
  lemma SharedNickname(city1: string, city2: string, nickname: string)
    requires city1 != [] && IsSpace(city1[|city1| - 1])
    requires city2 != [] && IsSpace(city2[|city2| - 1])
    requires city1 != city2
    requires nickname != [] && NoSpace(nickname)
    ensures TeamTier(city1 + nickname, city2 + nickname) == Close
  {
    var none: string := [];
    assert city1 + nickname + none == city1 + nickname && city2 + nickname + none == city2 + nickname;
    LastWordAfterSpace(city1, nickname, none);
    LastWordAfterSpace(city2, nickname, none);
    assert (city1 + nickname)[..|city1|] == city1;
    assert (city2 + nickname)[..|city2|] == city2;
  }

  /** Different nicknames are NoMatch whatever the cities. */
  lemma DifferentNicknames(city1: string, city2: string, nick1: string, nick2: string)
    requires city1 == [] || IsSpace(city1[|city1| - 1])
    requires city2 == [] || IsSpace(city2[|city2| - 1])
    requires nick1 != [] && NoSpace(nick1) && nick2 != [] && NoSpace(nick2)
    requires nick1 != nick2
    ensures TeamTier(city1 + nick1, city2 + nick2) == NoMatch
  {
    var none: string := [];
    assert city1 + nick1 + none == city1 + nick1 && city2 + nick2 + none == city2 + nick2;
    LastWordAfterSpace(city1, nick1, none);
    LastWordAfterSpace(city2, nick2, none);
  }

  /** The height band's edges on real heights: 2 inches apart is Close, 3 is NoMatch. */
  lemma HeightBandEdges(feet: nat, inch: nat)
    ensures HeightTier(Some(ShowNat(feet) + "-" + ShowNat(inch + 2)), Some(ShowNat(feet) + "-" + ShowNat(inch))) == Close
    ensures HeightTier(Some(ShowNat(feet) + "-" + ShowNat(inch + 3)), Some(ShowNat(feet) + "-" + ShowNat(inch))) == NoMatch
  {
    HeightOfFeetInches(feet, inch);
    HeightOfFeetInches(feet, inch + 2);
    HeightOfFeetInches(feet, inch + 3);
  }

  /** Shared city, different nicknames: the Lakers and the Clippers are NoMatch. */
  lemma LakersClippersTeams(guess: string, answer: string)
    requires guess == "Los Angeles Clippers" && answer == "Los Angeles Lakers"
    ensures TeamTier(guess, answer) == NoMatch
  {
    var city := "Los Angeles ";
    assert guess == city + "Clippers" && answer == city + "Lakers";
    DifferentNicknames(city, city, "Clippers", "Lakers");
  }

  /** 6-7 against 6-9 is 2 inches short: Close. */
  lemma SixSevenAgainstSixNine(guess: string, answer: string)
    requires guess == "6-7" && answer == "6-9"
    ensures HeightTier(Some(guess), Some(answer)) == Close
  {
    HeightSixNine(answer);
    HeightOfFeetInches(6, 7);
    assert ShowNat(6) + "-" + ShowNat(7) == guess;
  }

  /**
   * A worked round: the answer plays for the Lakers at 6-9, aged 27; the
   * guess plays for the Clippers at 6-7, aged 29. The nicknames differ, so
   * the shared city earns nothing; the position matches; height and age are
   * each 2 apart.
   */
  lemma LakersClippersExample(answer: Player, guess: Player)
    requires answer == Player("Player A", "Los Angeles Lakers", "F", Some("6-9"), Some(27))
    requires guess == Player("Player B", "Los Angeles Clippers", "F", Some("6-7"), Some(29))
    ensures Feedback(guess, answer) == GuessFeedback("Player B", NoMatch, Exact, Close, Close)
  {
    LakersClippersTeams(guess.team, answer.team);
    SixSevenAgainstSixNine(guess.height.value, answer.height.value);
  }
}
