# NBA Player Wordle — a Dafny model of the game's core

The game picks a hidden NBA player. The user guesses players one at a time.
For every guess the game shows a row of marks: the guessed name, then one
mark each for team, position, height and age. A mark is green (`Exact`),
yellow (`Close`) or white (`NoMatch`). The round is won when the newest row
names the hidden player; "Play Again" then starts a new round.

This project models the three parts of `nba_wordle_game.py` that hold that
logic:

- **Height normaliser** (`Height`, `height_to_inches`). It turns a
  `"feet-inches"` string into inches. Every failure gives 0. It relies on
  Python's `str.split('-')` and `int()`. These are modelled in `Strings`
  (`SplitOn`, `Strip`) and `Numerals` (`ParseInt`): whitespace around the
  digits is allowed, one optional sign, then one or more ASCII digits.
  `int()` skips a narrower whitespace set than `str.isspace()` (`IntSpace`):
  the ASCII separators U+001C to U+001F are not skipped, so a piece padded
  with one is rejected.
- **Feedback engine** (`Scoring`, `feedback`). It compares a guessed
  player's record with the answer's. The team rule relies on Python's
  `str.split()` with no argument, modelled as `Strings.Words`, with the same
  whitespace set as `str.isspace()`. When the names differ and one of them
  is blank, `split()[-1]` raises `IndexError`. `TeamTierAsWritten` models
  that crash. The rest of the model uses the corrected `TeamTier`, which
  gives `NoMatch` there (see "## Findings").
- **Round state** (`Session.Round`, the `st.session_state` logic). It is a
  class with the answer's name, the answer's record and the list of
  feedback rows. `Start` is the first-run guard. `Submit` is the
  "Submit Guess" button. `Won` is the win check. `PlayAgain` is the
  "Play Again" button.

Files: `wrappers.dfy` (Option), `strings.dfy`, `numerals.dfy`,
`height.dfy`, `scoring.dfy`, `session.dfy`.

Three details of the code that the model keeps:
- The code keeps taking guesses after a win. `Submit` has no "not yet won"
  precondition, and a later row with another name makes `Won` false again.
- The code does not range-check the inches. `"6-13"` is 85 inches.
- The win check compares the newest row's name with `answer_info['name']`,
  the display name from the player lookup. It does not use `answer_name`,
  the roster key.

Inputs from outside the program are parameters:
- The player lookup (the `nba_api` roster and `get_player_info`, line
  10-33) is the `roster: map<string, Player>` given to the `Round`
  constructor.
- The random choice (line 69) is the `pick` argument of `Start` and
  `PlayAgain`.
- The user's selection (line 75) is the `name` argument of `Submit`.

## Model

| member | source | states |
|---|---|---|
| `Strings.IsSpace` | nba_wordle_game.py:45 | the whitespace set of `str.isspace()` (tab through carriage return, the four separator controls U+001C to U+001F, space, and the Unicode spaces), used by `split()`; a definition, whose consequences the `Words` rows state |
| `Strings.Words` | nba_wordle_game.py:45 | `str.split()` with no argument, defined as the maximal runs of non-whitespace in order; its properties are stated by `WordsShape`, `WordLenStops`, `WordsConcat`, `WordsOfWord` and `LastWord` |
| `Strings.WordsShape` | nba_wordle_game.py:45 | `str.split()`: every word is non-empty and has no whitespace; there are no words exactly when the string is all whitespace |
| `Strings.WordLenStops` | nba_wordle_game.py:45 | the first word of a string has no whitespace and runs up to the first whitespace character or the end |
| `Strings.LastWord` | nba_wordle_game.py:45 | `split()[-1]`: absent (IndexError) exactly when the name is blank; otherwise a non-empty word without whitespace |
| `Strings.WordsConcat` | nba_wordle_game.py:45 | cutting a string right after whitespace: its words are the words of the first part, then the words of the second |
| `Strings.WordLenOfWord` | nba_wordle_game.py:45 | a run without whitespace followed by whitespace or nothing is exactly the first word |
| `Strings.WordsOfWord` | nba_wordle_game.py:45 | a non-empty string without whitespace, followed by any whitespace, is exactly one word |
| `Strings.LastWordAfterSpace` | nba_wordle_game.py:45 | the last word of "<anything ending in whitespace><word><any whitespace>" is that word, so `"Boston Celtics "` ends in `"Celtics"` |
| `Strings.WordLenOfSpaced` | nba_wordle_game.py:45 | in a string ending in whitespace, the first word ends inside it, whatever follows |
| `Strings.SplitOn` | nba_wordle_game.py:37 | `str.split('-')`, defined as the pieces between separators, empty pieces included; its properties are stated by `SplitOnPieces`, `JoinSplit`, `SplitJoin`, `SplitOnPrefix` and `SplitOnOnce` |
| `Strings.SplitOnPieces` | nba_wordle_game.py:37 | `str.split('-')`: one more piece than there are separators, and no piece holds the separator |
| `Strings.JoinSplit` | nba_wordle_game.py:37 | joining the pieces back with the separator gives the original string |
| `Strings.SplitJoin` | nba_wordle_game.py:37 | splitting a join of separator-free pieces gives those pieces back |
| `Strings.SplitOnPrefix` | nba_wordle_game.py:37 | a separator-free prefix joins the first piece of what follows it |
| `Strings.SplitOnOnce` | nba_wordle_game.py:37 | a string with exactly one separator is the two pieces around it |
| `Strings.IntSpace` | nba_wordle_game.py:38 | the whitespace `int()` skips around its digits, defined as the `str.isspace()` set without the ASCII separators U+001C to U+001F, which `int()` keeps and then rejects; `ParseIntRejectsSeparator` states the consequence |
| `Strings.LeadingSpacesEnd` | nba_wordle_game.py:38 | the whitespace a string starts with is all whitespace and ends at its first non-whitespace character |
| `Strings.TrailingSpacesEnd` | nba_wordle_game.py:38 | the whitespace a string ends with is all whitespace and starts after its last non-whitespace character |
| `Strings.TrailingSpacesStop` | nba_wordle_game.py:38 | a string starting with non-whitespace is not all trailing whitespace |
| `Strings.Strip` | nba_wordle_game.py:38 | the stripping `int()` does, defined as the string without its leading and trailing `IntSpace` characters; its properties are stated by `StripKeeps`, `StripEnds`, `StripPieces` and `StripPadded` |
| `Strings.StripKeeps` | nba_wordle_game.py:38 | the stripping inside `int()` only removes characters |
| `Strings.StripEnds` | nba_wordle_game.py:38 | stripping gives the empty string exactly for a blank string; otherwise the result starts and ends with non-whitespace |
| `Strings.StripPieces` | nba_wordle_game.py:38 | every string is its stripped form with whitespace on either side |
| `Strings.StripPadded` | nba_wordle_game.py:38 | stripping removes exactly the padding around a string with non-whitespace ends |
| `Strings.LeadingOfPadded` | nba_wordle_game.py:38 | the leading whitespace of "<padding><text>" is the padding |
| `Strings.TrailingOfPadded` | nba_wordle_game.py:38 | the trailing whitespace of "<text><padding>" is the padding |
| `Numerals.DigitsValue` | nba_wordle_game.py:38 | the value `int()` gives a run of ASCII digits, defined as the base-10 value, most significant digit first, leading zeros allowed; `ValueOfShown` states that it inverts `ShowNat` |
| `Numerals.DigitChar` | nba_wordle_game.py:38 | a digit value is written as the matching digit character |
| `Numerals.ShowNat` | nba_wordle_game.py:38 | the decimal form of a number is a non-empty digit string |
| `Numerals.ValueOfShown` | nba_wordle_game.py:38 | reading a number's decimal form gives the number back |
| `Numerals.ParseInt` | nba_wordle_game.py:38 | `int()` on a str: a negative result needs a '-' in the string; a string without digits is rejected (ValueError) |
| `Numerals.ParseIntDigits` | nba_wordle_game.py:38 | digits with any padding that `int()` skips (`IntSpace`) around them read as their decimal value |
| `Numerals.ParseIntSigned` | nba_wordle_game.py:38 | a sign, then digits, with any `IntSpace` padding around, reads as the signed value |
| `Numerals.ParseIntAccepted` | nba_wordle_game.py:38 | the converse of the two lemmas above: any string `int()` accepts is `IntSpace` padding, then "", "+" or "-", then one or more digits, then whitespace, and the value is that of the digits under the sign; so `"6a"`, `"1 2"` and `"+ 5"` are rejected |
| `Numerals.ParseIntRejectsSeparator` | nba_wordle_game.py:38 | a character from U+001C to U+001F is whitespace for `str.isspace()`, yet digits after it are rejected by `int()` (ValueError) |
| `Numerals.ParseShown` | nba_wordle_game.py:38 | `int(str(n)) == n` |
| `Height.HeightToInches` | nba_wordle_game.py:35-40 | the result is never negative; a value that is not a str gives 0 |
| `Height.HeightOfParts` | nba_wordle_game.py:37-38 | "A-B" whose two pieces `int()` reads as F and I gives F * 12 + I |
| `Height.HeightOfBadPart` | nba_wordle_game.py:37-40 | one '-' between pieces, one of which `int()` rejects, gives 0 |
| `Height.HeightOfDashCount` | nba_wordle_game.py:37-40 | no '-' or more than one '-' gives 0 (the two-name unpacking fails) |
| `Height.HeightCases` | nba_wordle_game.py:37 | a string with exactly one '-' is the two dash-free pieces around it, so the three lemmas above cover every string |
| `Height.HeightOfFeetInches` | nba_wordle_game.py:35-38 | decimal F, '-', decimal I gives F * 12 + I, for every F and I |
| `Height.HeightOfPaddedFeetInches` | nba_wordle_game.py:35-38 | padding that `int()` skips (`IntSpace`) around either number does not change the result |
| `Height.HeightSixNine` | nba_wordle_game.py:35-38 | "6-9" is 81 inches |
| `Height.HeightSevenZero` | nba_wordle_game.py:35-38 | "7-0" is 84 inches |
| `Height.HeightOfSeparatorPadding` | nba_wordle_game.py:36-40 | a height led by a character from U+001C to U+001F, such as "\x1c6-9", gives 0, because `int()` rejects its feet piece |
| `Height.HeightMalformedExamples` | nba_wordle_game.py:36-40 | "6'9", "6-9-1", "6-" and "" all give 0 |
| `Scoring.TeamTierAsWritten` | nba_wordle_game.py:45 | as written: Exact iff the names are identical; Close iff they differ, neither is blank and the last words agree; NoMatch iff they differ, neither is blank and the last words differ; IndexError iff they differ and one is blank |
| `Scoring.TeamlessGuessRaises` | nba_wordle_game.py:45 | a guess with team "" against an answer on the "Boston Celtics" raises instead of getting a mark |
| `Scoring.TeamTier` | nba_wordle_game.py:45 | as intended: Exact iff the names are identical; Close iff they differ and have the same last word; the same mark as the line as written wherever that one does not raise, and NoMatch where it raises |
| `Scoring.PositionTier` | nba_wordle_game.py:46 | Exact iff the labels are identical; never Close |
| `Scoring.Band` | nba_wordle_game.py:50 | Exact iff equal; Close iff unequal and at most 2 apart; NoMatch iff more than 2 apart |
| `Scoring.HeightTier` | nba_wordle_game.py:48-50 | on normalised inches: Exact iff equal, Close iff 1 or 2 apart, NoMatch iff more than 2 apart; so two heights that both normalise to 0 (for example two unreadable ones) are Exact |
| `Scoring.AgeTier` | nba_wordle_game.py:52-55 | NoMatch when either age is unknown; Exact iff both known and equal; Close iff both known, unequal and at most 2 apart |
| `Scoring.Feedback` | nba_wordle_game.py:42-57 | the row copies the guessed name and carries the four marks above |
| `Scoring.FeedbackSymmetric` | nba_wordle_game.py:43-57 | swapping guess and answer keeps all four marks |
| `Scoring.FeedbackSelf` | nba_wordle_game.py:43-57 | guessing the answer's own record is Exact for team, position and height, and Exact for age when it is known (else NoMatch) |
| `Scoring.SharedNickname` | nba_wordle_game.py:45 | two different cities with the same nickname are Close |
| `Scoring.DifferentNicknames` | nba_wordle_game.py:45 | different nicknames are NoMatch, whatever the cities |
| `Scoring.HeightBandEdges` | nba_wordle_game.py:48-50 | on real "F-I" heights, 2 inches apart is Close and 3 inches apart is NoMatch |
| `Scoring.LakersClippersTeams` | nba_wordle_game.py:45 | "Los Angeles Clippers" against "Los Angeles Lakers" is NoMatch |
| `Scoring.SixSevenAgainstSixNine` | nba_wordle_game.py:48-50 | "6-7" against "6-9" is Close |
| `Scoring.LakersClippersExample` | nba_wordle_game.py:42-57 | a Clippers 6-7 age-29 forward against a Lakers 6-9 age-27 forward: team NoMatch, position Exact, height Close, age Close |
| `Session.IsWon` | nba_wordle_game.py:88-89 | the win test, defined as: the history is non-empty and its newest row carries the answer's name; its properties are stated by `WonByLastOnly`, `NotWonWhenEmpty`, `GuessingAnswerWins` and `Round.Won` |
| `Session.WonByLastOnly` | nba_wordle_game.py:88-89 | after appending a row, the round is won iff that row names the answer, whatever came before |
| `Session.NotWonWhenEmpty` | nba_wordle_game.py:88 | no round is won before its first guess |
| `Session.GuessingAnswerWins` | nba_wordle_game.py:88-89 | the row for the answer's own record wins, whatever came before |
| `Session.Round.constructor` | nba_wordle_game.py:67-68 | a new session holds no answer and no rows |
| `Session.Round.Start` | nba_wordle_game.py:67-72 | the answer is drawn only when none is held; then the name, its record and an empty history are set; otherwise nothing changes |
| `Session.Round.Submit` | nba_wordle_game.py:75-79 | the answer never changes; a guess outside the roster leaves the history as it was; otherwise exactly its row is appended after the old rows; afterwards Won holds iff the guessed record's name is the answer's; guessing the answer's own name always wins |
| `Session.Round.Won` | nba_wordle_game.py:88-89 | won only with an answer and at least one row |
| `Session.Round.Clear` | nba_wordle_game.py:92 | answer, name and history are all removed |
| `Session.Round.PlayAgain` | nba_wordle_game.py:89-93 | only after a win: the history is emptied and a new answer (possibly the same player) is drawn, so the round is no longer won |

## Findings

| source | as written | input that shows it | evidently intended | confidence | as-written member | corrected member |
|---|---|---|---|---|---|---|
| nba_wordle_game.py:45 | when the two team names differ, both are split on whitespace and the last word of each is taken; a blank team name has no words, so indexing raises `IndexError`, the run aborts and the guess is never recorded | a guessed player whose team name is `""` (a player without a team) against an answer on the `"Boston Celtics"` | a team name without a word shares no nickname with a different team, so the mark is `NoMatch` and the guess is recorded like any other | medium (not executed; it depends on the player lookup returning an empty team name, which it does for players without a team) | `Scoring.TeamTierAsWritten`, `Scoring.TeamlessGuessRaises` | `Scoring.TeamTier` |

The rest of the file degrades missing data gracefully: the age lookup falls
back to unknown and any failed height becomes 0. That is why the crash reads
as an oversight. With the correction, `Feedback` is total, and `Submit`
rejects only names outside the roster.

## Left out

- Streamlit presentation (page setup, title, caption, select box, buttons, table of guesses, success message, rerun; lines 8, 60-61, 75, 82-85, 90, 93): plumbing with no logic of its own. The buttons are the `Submit` and `PlayAgain` methods.
- The `nba_api` roster and player-info requests, and their `st.cache_data` memo (lines 10-33): network calls into a foreign library. The records they produce are the `roster` map.
- The pandas age extraction (lines 20-24): its outcome is `Player.age: Option<int>`.
- The name-to-id dictionary and sorted name list (lines 63-65): the roster is a map from name to record. When two players share a name, the dictionary keeps one of them. The model starts from the resulting map and does not model that choice.
- `random.choice` (line 69): it is the `pick` parameter, which must be a roster name. An empty roster (where `random.choice` raises) cannot start a round in the model.
- `Numerals.ParseInt`: does not model the parts of `int()`'s grammar beyond ASCII digits. Underscores between digits and non-ASCII decimal digits are rejected where Python accepts them. Python's limit on the number of digits in a string conversion is also not modelled.
- `Scoring.Player`: name, team and position are always strings. A team value that is not a str (which would raise in `split()`) is not modelled. The player id is not compared and is not carried.
- The feedback row is a record of `Tier` values rather than a dict of emoji strings.
