# Non-transitive dice game — verified model

This project models the logic inside `Program.cs`, a console game of
non-transitive dice. Each player rolls one die and the higher roll wins. The
game keeps each roll fair with a commit–reveal step. First the computer picks
a hidden number and shows HMAC-SHA256(key, number) as upper-case hex. Then
the user adds a number of their own. The face at the sum modulo the face
count is the roll, and the computer reveals its number and key. The same
commit–reveal scheme, with its own key and value, decides who moves first:
the user guesses the computer's hidden bit. A help screen shows a table over
the dice. Off the diagonal, entry (i, j) is the share of face pairs where die
i beats die j. On the diagonal, it is the share of face pairs where a die ties
with itself.

Modules:

- `Probabilities` (`probabilities.dfy`) is the counting core of
  `CalculateProbabilities`. It defines the counts `CountWins` and `CountTies`
  over face sequences and proves the partition, mirror, diagonal and
  constant-die laws. The method `CalculateProbabilities` fills two `array2`
  count tables with the source's nested loops and is proved against those
  counts. The source divides each count by the total as a `double`. The model
  keeps the exact rational as a count over `|dice[i]| * |dice[j]|`.
- `FairRoll` (`fair_roll.dfy`) is the modular combination
  `(userValue + randomIndex) % n`. It proves the range of the result and that
  the combination is a bijection for either party's fixed contribution, so
  each outcome has exactly one preimage. It also models one pass of the roll
  prompt.
- `Commitment` (`commitment.dfy`) models the committed message (the decimal
  string of the value) and opening a digest. It proves that distinct values
  give distinct messages, so opening one digest to two values needs an HMAC
  collision.
- `Hex` (`hex.dfy`) models `BitConverter.ToString(..).Replace("-", "")` and
  its inverse.
- `Game` (`game.dfy`) covers `Main` and `UserSelectsDice`: dice acceptance,
  the first-move guess and coin-toss rule, die choice acceptance, die
  assignment, the winner rule and one full round.
- `Wrappers` (`wrappers.dfy`) holds `Option` and `Result`.

Notes on what the program does:

- The hidden values of both commitments come from `System.Random`
  (Program.cs:39 for the first-move bit, Program.cs:122 for the roll index).
  Only the keys come from `RandomNumberGenerator`. Both are parameters here.
- The computer's die is also drawn with `System.Random` (Program.cs:65). When the
  computer starts it is announced at Program.cs:67; when the user moves first
  it is overwritten at Program.cs:72. It is not committed, and it is a parameter here.
- A dice set needs at least 3 dice, each with exactly 6 faces.
- `CalculateProbabilities` rejects nothing. An empty die makes the C#
  division 0/0, and the count model needs no precondition.

## Model

| member | source | states |
|---|---|---|
| `Probabilities.CalculateProbabilities` | Program.cs:225-261 | the tables are N×N, entry [i, j] holds the wins and ties of die i against die j, every entry obeys wins[i,j] + ties[i,j] + wins[j,i] == total, and ties are symmetric |
| `Probabilities.CountPair` | Program.cs:236-247 | the two `foreach` loops over the faces end with exactly `CountWins(a, b)` and `CountTies(a, b)` |
| `Probabilities.FaceTrichotomy` | Program.cs:244-245 | each face of the other die is below, equal to or above a given face, so the three counts add up to the face count |
| `Probabilities.CountsPartition` | Program.cs:236-247 | wins, ties and losses over the cross product add up to total = \|a\| * \|b\| |
| `Probabilities.LossesAreReverseWins` | Program.cs:240-247 | the losses of (a, b) are the wins of (b, a) |
| `Probabilities.TiesSymmetric` | Program.cs:240-247 | ties[i][j] == ties[j][i] |
| `Probabilities.MirrorLaw` | Program.cs:236-250 | wins(a,b) + ties(a,b) + wins(b,a) == total, ties are symmetric, and wins + ties ≤ total, so each win/tie probability is at most 1 |
| `Probabilities.Diagonal` | Program.cs:232-247 | a die against itself: 2 * wins + ties == total, so wins equal losses |
| `Probabilities.ConstantDie` | Program.cs:232-247 | a die with all faces equal, against itself, has 0 wins and ties == total |
| `Probabilities.ExamplePair` | Program.cs:238-250 | [2,2,4,4,9,9] against [1,1,6,6,8,8] gives 20 wins and 0 ties out of 36; the reverse gives 16 wins |
| `FairRoll.Combine` | Program.cs:146 | (userValue + randomIndex) % n lies in [0, n) and equals the sum minus n at most once |
| `FairRoll.CombineBijective` | Program.cs:146 | for a fixed hidden index, `Uncombine` inverts the combination in both directions, so it is a bijection on [0, n) |
| `FairRoll.CombineSymmetric` | Program.cs:146 | the user's value and the hidden index play the same part |
| `FairRoll.OneUserValuePerOutcome` | Program.cs:144-146 | for a fixed hidden index, every final index comes from exactly one accepted user value |
| `FairRoll.OneHiddenIndexPerOutcome` | Program.cs:122-146 | for any user value, every final index comes from exactly one hidden index, so a uniform hidden index gives a uniform roll whatever the user picks |
| `FairRoll.CombineExample` | Program.cs:146 | hidden index 3 plus user value 4 on 6 faces gives index 1 |
| `FairRoll.RollStepOf` | Program.cs:131-152 | "X" quits; a number in [0, n) rolls, anything else prompts again; a roll returns the face at the combined index, which is a face of the die |
| `FairRoll.EveryFaceReachable` | Program.cs:144-149 | for any hidden index, every face of the die is rolled by some accepted user value |
| `FairRoll.RollResult` | Program.cs:135-149 | the value `FairRoll` returns: -1 when the user exits, otherwise the rolled face |
| `FairRoll.ExitLooksLikeRoll` | Program.cs:135-149 | on a die with a face of -1, exiting and rolling that face return the same value |
| `Commitment.DecimalRoundTrip` | Program.cs:123 | reading the decimal string of a committed value gives back the value |
| `Commitment.DecimalString` | Program.cs:123 | `int.ToString()` of a non-negative value: at least one character, all decimal digits, no leading zero |
| `Commitment.Commit` | Program.cs:121-123 | the commitment keeps the value and the key, and its digest opens to that value under that key |
| `Commitment.DecimalStringInjective` | Program.cs:40 | distinct committed values produce distinct HMAC messages |
| `Commitment.Binding` | Program.cs:162-169 | one digest opens to two different values, under any two keys, only if HMAC collides on two distinct (key, message) pairs |
| `Commitment.RevealIsCheckable` | Program.cs:155-169 | a 32-byte key and a 32-byte digest are shown as 64 hex characters each, and reading the shown key back and recomputing the HMAC reproduces the shown digest |
| `Hex.DashFreeRendering` | Program.cs:167 | removing the dashes from `BitConverter.ToString` leaves exactly two upper-case digits per byte, in order |
| `Hex.FromHexToHex` | Program.cs:62 | reading a rendered key or digest back gives the original bytes |
| `Hex.ToHexFromHex` | Program.cs:147 | `FromHex` accepts only the canonical rendering: a string that reads as some bytes is `ToHex` of those bytes, so no two strings read as the same bytes (`ToHex` being one-to-one follows from `Hex.FromHexToHex`) |
| `Game.CheckDice` | Program.cs:12-28 | a configuration is accepted iff it has at least 3 dice and every die has exactly 6 faces; fewer than 3 dice is reported first |
| `Game.AcceptedDice` | Program.cs:24 | on accepted dice every ordered pair is compared over 36 face pairs, its counts obey the mirror law, and every hidden index in [0, 6) is a valid draw |
| `Game.GuessStepOf` | Program.cs:47-61 | exactly "0" and "1" are accepted as guesses, and each is the decimal string of its bit; "X" or "x" quits |
| `Game.CoinTossFair` | Program.cs:39-64 | for either guess, exactly one of the computer's two bits lets the user move first, and the other bit makes the computer start |
| `Game.ComputerStarts` | Program.cs:64 | for a guess and a hidden bit in {0, 1}, the computer starts iff the guess is the other bit |
| `Game.SelectStepOf` | Program.cs:101-116 | a choice is accepted iff 0 ≤ choice < dice count and choice ≠ excludeIndex; "X" quits |
| `Game.DefaultExcludesNothing` | Program.cs:92-112 | with the default excludeIndex = -1, a choice is accepted iff it is an index of a die |
| `Game.OtherDieAvailable` | Program.cs:76-112 | with at least two dice, excluding the computer's die still leaves a choice the user can make |
| `Game.UserFirstRollsSameDie` | Program.cs:70-76 | as written, when the user moves first the computer's die and the user's die are the same |
| `Game.AssignDiceAsWritten` | Program.cs:65-76 | as written: the user rolls their pick; when the computer starts it rolls its draw, otherwise it rolls the user's pick |
| `Game.SameDieExample` | Program.cs:64-76 | as written, when the user moves first, picks die 1 and the computer drew die 0, both roll die 1 |
| `Game.AssignDice` | Program.cs:64-76 | corrected assignment: both dice are in range and differ, the user rolls their pick, and when the computer starts it rolls its own draw |
| `Game.Decide` | Program.cs:87-89 | the user wins iff their roll is higher, loses iff it is lower, and ties iff the rolls are equal |
| `Game.TableMatchesVerdicts` | Program.cs:182-209 | among the face pairs of two dice, the verdicts "user wins", "tie" and "computer wins" occur exactly wins(user, computer), ties and wins(computer, user) times |
| `Game.PlayRound` | Program.cs:64-89 | a round on accepted dice plays two different dice, the user's pick and, when the computer starts, the computer's draw; each roll is the face at (added value + hidden index) % 6 of its player's die, and the outcome follows the higher roll |

## Left out

- Console input and output are not modelled. This covers the prompt and retry loops in `Main`, `UserSelectsDice` and `FairRoll` (including how they behave at end of input) and all of `DisplayHelp`. It also covers the table rendering, `ReadKey`/`Clear` and the 4-decimal formatting. A reply is modelled as already classified: exit, help, a number accepted by `int.TryParse` after trimming, or unreadable.
- HMAC-SHA256 is a parameter `mac` of key and message. The UTF-8 encoding of the message is not modelled, because the decimal digits are ASCII. The security of HMAC is not modelled.
- The 32-byte key from `RandomNumberGenerator` and the `System.Random` draws are parameters, because they are random.
- The probabilities are kept as exact integer counts over total = |dice[i]| * |dice[j]|, not as `double` quotients. Floating-point division and display rounding are not modelled.
- `string.Split` and `int.Parse` of the command-line dice are not modelled, and neither is the "Invalid dice format" error path. The checks start from parsed `seq<seq<int>>` dice.
- 32-bit integer width is not modelled. With 6 faces, `userValue + randomIndex` is below 12 and every count is at most 36, so no C# `int` can overflow.
- `FairRoll` returns -1 when the user exits, and `Main` then uses -1 as a roll without checking it. -1 is also a legal face value. `FairRoll.RollResult` gives this -1 and `FairRoll.ExitLooksLikeRoll` shows the clash, but the round model only covers rounds where both rolls were completed.
- The roll prompt says "modulo 6" while the arithmetic uses the face count. This is display text only. After `CheckDice` the two agree.
- The round model uses the corrected `Game.AssignDice` (see Findings), not the assignment as written.

## Findings

| source | as written | input that shows it | evidently intended | confidence | as-written member | corrected member |
|---|---|---|---|---|---|---|
| Program.cs:70-76 | when the user moves first, `UserSelectsDice` stores the user's pick in `computerDiceIndex`, and `userDiceIndex` is then set to `computerDiceIndex` | the user wins the first-move guess and picks die 1: the computer and the user both roll die 1 | the second player plays a die other than the first player's (the model keeps the computer's random draw when it differs from the user's pick, else takes the next die) | not executed; high | `Game.AssignDiceAsWritten` | `Game.AssignDice` |
