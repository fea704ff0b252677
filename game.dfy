/** The decisions `Main` and `UserSelectsDice` make in Program.cs: which
    dice configurations are accepted, who moves first, which die choices are
    accepted, which die each player rolls, and who wins. Console prompts and
    retry loops are not modelled; each reply is a parameter. */
module Game {
  import opened Wrappers
  import opened FairRoll
  import Commitment
  import Probabilities

  /** Why `Main` refuses the dice given on the command line. */
  datatype ConfigError = TooFewDice | WrongFaceCount

  /** The checks on the parsed dice: at least 3 dice, then exactly 6 faces on every die. */
  function CheckDice(dice: seq<seq<int>>): (r: Result<seq<seq<int>>, ConfigError>)
    ensures r.Ok? <==> |dice| >= 3 && forall k :: 0 <= k < |dice| ==> |dice[k]| == 6
    ensures r.Ok? ==> r.value == dice
    ensures r == Err(TooFewDice) <==> |dice| < 3
  {
    if |dice| < 3 then Err(TooFewDice)
    else if exists k :: 0 <= k < |dice| && |dice[k]| != 6 then Err(WrongFaceCount)
    else Ok(dice)
  }

  /** On an accepted configuration every ordered pair of dice is compared over
      36 face pairs, its counts satisfy the mirror law, and every die can be
      rolled fairly. */
  lemma AcceptedDice(dice: seq<seq<int>>, i: int, j: int)
    requires CheckDice(dice).Ok?
    requires 0 <= i < |dice| && 0 <= j < |dice|
    ensures |dice[i]| * |dice[j]| == 36
    ensures Probabilities.CountWins(dice[i], dice[j]) + Probabilities.CountTies(dice[i], dice[j])
            + Probabilities.CountWins(dice[j], dice[i]) == 36
    ensures forall r :: 0 <= r < 6 ==> DrawnIndex(r, |dice[i]|)
  {
    Probabilities.MirrorLaw(dice[i], dice[j]);
  }

  // ---------------------------------------------------------------------------
  // Who moves first

  /** What one trimmed reply does in the first-move prompt of `Main`. */
  datatype GuessStep = Guessed(bit: int) | GuessQuit | GuessHelp | GuessAgain

  function GuessStepOf(line: string): (r: GuessStep)
    ensures r.Guessed? <==> line == "0" || line == "1"
    ensures r.Guessed? ==> (r.bit == 0 || r.bit == 1) && Commitment.DecimalString(r.bit) == line
    ensures r.GuessQuit? <==> line == "X" || line == "x"
  {
    if line == "0" then Guessed(0)
    else if line == "1" then Guessed(1)
    else if line == "X" || line == "x" then GuessQuit
    else if line == "?" then GuessHelp
    else GuessAgain
  }

  /** The computer moves first when the user's guess misses its hidden bit. */
  function ComputerStarts(userGuess: int, computerChoice: int): (r: bool)
    ensures (userGuess == 0 || userGuess == 1) && (computerChoice == 0 || computerChoice == 1) ==>
              (r <==> userGuess == 1 - computerChoice)
  {
    userGuess != computerChoice
  }

  /** Whatever the user guesses, exactly one of the computer's two equally
      likely bits lets the user move first. */
  lemma CoinTossFair(userGuess: int)
    requires userGuess == 0 || userGuess == 1
    ensures (set c | 0 <= c < 2 && !ComputerStarts(userGuess, c)) == {userGuess}
    ensures (set c | 0 <= c < 2 && ComputerStarts(userGuess, c)) == {1 - userGuess}
  {
    var misses := set c | 0 <= c < 2 && ComputerStarts(userGuess, c);
    assert 1 - userGuess in misses;
  }

  // ---------------------------------------------------------------------------
  // Choosing a die

  /** What one reply does in the prompt loop of `UserSelectsDice`. */
  datatype SelectStep = SelectQuit | SelectAgain | Selected(index: int)

  /** A number is accepted when it indexes a die and is not the excluded one
      (the computer's die, or -1 when nothing is excluded). */
  function SelectStepOf(n: int, excludeIndex: int, reply: Reply): (r: SelectStep)
    ensures r.SelectQuit? <==> reply.Exit?
    ensures r.Selected? <==> reply.Number? && 0 <= reply.value < n && reply.value != excludeIndex
    ensures r.Selected? ==> r.index == reply.value
  {
    match reply
    case Exit => SelectQuit
    case Help => SelectAgain
    case Unreadable => SelectAgain
    case Number(choice) =>
      if choice >= 0 && choice < n && choice != excludeIndex then Selected(choice) else SelectAgain
  }

  /** With the default exclusion -1, every index of a die is accepted. */
  lemma DefaultExcludesNothing(n: int, choice: int)
    ensures SelectStepOf(n, -1, Number(choice)).Selected? <==> 0 <= choice < n
  {
  }

  /** With at least two dice, excluding the computer's die still leaves a die
      the user can choose. */
  lemma OtherDieAvailable(n: int, excludeIndex: int)
    requires n >= 2 && 0 <= excludeIndex < n
    ensures exists c :: SelectStepOf(n, excludeIndex, Number(c)).Selected?
  {
    var c := if excludeIndex == 0 then 1 else 0;
    assert SelectStepOf(n, excludeIndex, Number(c)).Selected?;
  }

  // ---------------------------------------------------------------------------
  // Which die each player rolls

  datatype Assignment = Assignment(computerDie: int, userDie: int)

  /** The assignment as `Main` writes it: when the user moves first, the
      user's choice is stored as the computer's die and then copied to the
      user's die. */
  function AssignDiceAsWritten(computerStarts: bool, randomDie: int, userPick: int): (r: Assignment)
    ensures r.userDie == userPick
    ensures computerStarts ==> r.computerDie == randomDie
    ensures !computerStarts ==> r.computerDie == userPick
  {
    if computerStarts then Assignment(randomDie, userPick)
    else Assignment(userPick, userPick)
  }

  /** When the user moves first, both players roll the same die. */
  lemma UserFirstRollsSameDie(randomDie: int, userPick: int)
    ensures AssignDiceAsWritten(false, randomDie, userPick).computerDie
            == AssignDiceAsWritten(false, randomDie, userPick).userDie
  {
  }

  /** The user moves first and picks die 1; the computer's draw was die 0;
      the computer nevertheless rolls die 1. */
  lemma SameDieExample()
    ensures AssignDiceAsWritten(false, 0, 1) == Assignment(1, 1)
  {
  }

  /** The assignment the game evidently intends: the player who moves first
      takes a die, the other one plays a different die. When the user moves
      first, the computer keeps its own draw if it differs from the user's
      pick, and otherwise takes the next die. */
  function AssignDice(computerStarts: bool, randomDie: int, userPick: int, n: int): (r: Assignment)
    requires 2 <= n && 0 <= randomDie < n && 0 <= userPick < n
    requires computerStarts ==> userPick != randomDie
    ensures 0 <= r.computerDie < n && 0 <= r.userDie < n
    ensures r.computerDie != r.userDie
    ensures r.userDie == userPick
    ensures computerStarts ==> r.computerDie == randomDie
  {
    if computerStarts then Assignment(randomDie, userPick)
    else if randomDie != userPick then Assignment(randomDie, userPick)
    else Assignment((userPick + 1) % n, userPick)
  }

  // ---------------------------------------------------------------------------
  // Who wins

  datatype Outcome = UserWins | ComputerWins | Tie

  /** The higher roll wins; equal rolls tie. */
  function Decide(userRoll: int, computerRoll: int): (r: Outcome)
    ensures r == UserWins <==> userRoll > computerRoll
    ensures r == ComputerWins <==> userRoll < computerRoll
    ensures r == Tie <==> userRoll == computerRoll
  {
    if userRoll > computerRoll then UserWins
    else if userRoll < computerRoll then ComputerWins
    else Tie
  }

  /** Face x of the user's die against the faces of the computer's die: how many give `o`. */
  function FaceOutcomes(x: int, computerDie: seq<int>, o: Outcome): nat
  {
    if |computerDie| == 0 then 0
    else FaceOutcomes(x, computerDie[..|computerDie| - 1], o)
         + (if Decide(x, computerDie[|computerDie| - 1]) == o then 1 else 0)
  }

  /** Face pairs (user face, computer face) whose verdict is `o`. */
  function CountOutcome(userDie: seq<int>, computerDie: seq<int>, o: Outcome): nat
  {
    if |userDie| == 0 then 0
    else CountOutcome(userDie[..|userDie| - 1], computerDie, o) + FaceOutcomes(userDie[|userDie| - 1], computerDie, o)
  }

  lemma {:induction false} FaceOutcomesCounts(x: int, c: seq<int>)
    ensures FaceOutcomes(x, c, UserWins) == Probabilities.Below(x, c)
    ensures FaceOutcomes(x, c, Tie) == Probabilities.Level(x, c)
    ensures FaceOutcomes(x, c, ComputerWins) == Probabilities.Above(x, c)
  {
    if |c| > 0 {
      FaceOutcomesCounts(x, c[..|c| - 1]);
    }
  }

  /** The probability table shows what the game decides: among the equally
      likely face pairs, the user wins on exactly the pairs counted as wins of
      the user's die, ties on the ties, and loses on the wins of the
      computer's die. */
  lemma {:induction false} TableMatchesVerdicts(u: seq<int>, c: seq<int>)
    ensures CountOutcome(u, c, UserWins) == Probabilities.CountWins(u, c)
    ensures CountOutcome(u, c, Tie) == Probabilities.CountTies(u, c)
    ensures CountOutcome(u, c, ComputerWins) == Probabilities.CountWins(c, u)
  {
    Probabilities.LossesAreReverseWins(u, c);
    OutcomesAreCounts(u, c);
  }

  lemma {:induction false} OutcomesAreCounts(u: seq<int>, c: seq<int>)
    ensures CountOutcome(u, c, UserWins) == Probabilities.CountWins(u, c)
    ensures CountOutcome(u, c, Tie) == Probabilities.CountTies(u, c)
    ensures CountOutcome(u, c, ComputerWins) == Probabilities.CountLosses(u, c)
  {
    if |u| > 0 {
      OutcomesAreCounts(u[..|u| - 1], c);
      FaceOutcomesCounts(u[|u| - 1], c);
    }
  }

  // ---------------------------------------------------------------------------
  // One round

  datatype Round = Round(dice: Assignment, computerRoll: int, userRoll: int, outcome: Outcome)

  /** One round after the first-move toss: the dice are assigned, each player
      rolls with a hidden index and the user's added value, and the higher
      roll wins. Both roll prompts are taken to have ended with an accepted
      number; the exit path is not part of a round. */
  function PlayRound(dice: seq<seq<int>>, computerStarts: bool, randomDie: int, userPick: int,
                     computerHidden: int, computerAdded: int, userHidden: int, userAdded: int): (r: Round)
    requires CheckDice(dice).Ok?
    requires 0 <= randomDie < |dice| && 0 <= userPick < |dice|
    requires computerStarts ==> userPick != randomDie
    requires 0 <= computerHidden < 6 && 0 <= computerAdded < 6
    requires 0 <= userHidden < 6 && 0 <= userAdded < 6
    ensures 0 <= r.dice.computerDie < |dice| && r.dice.computerDie != r.dice.userDie
    ensures r.dice.userDie == userPick
    ensures computerStarts ==> r.dice.computerDie == randomDie
    ensures r.userRoll == dice[userPick][Combine(userAdded, userHidden, 6)]
    ensures r.computerRoll == dice[r.dice.computerDie][Combine(computerAdded, computerHidden, 6)]
    ensures r.userRoll in dice[userPick] && r.computerRoll in dice[r.dice.computerDie]
    ensures r.outcome == UserWins <==> r.userRoll > r.computerRoll
    ensures r.outcome == Tie <==> r.userRoll == r.computerRoll
  {
    var a := AssignDice(computerStarts, randomDie, userPick, |dice|);
    var computerRoll := RollStepOf(dice[a.computerDie], computerHidden, Number(computerAdded));
    var userRoll := RollStepOf(dice[a.userDie], userHidden, Number(userAdded));
    Round(a, computerRoll.face, userRoll.face, Decide(userRoll.face, computerRoll.face))
  }
}
