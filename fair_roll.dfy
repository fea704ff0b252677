/** The fair roll of `FairRoll` in Program.cs: the computer commits to a
    hidden index in [0, n) (n = number of faces), the user then adds a number
    of their own in [0, n), and the face at the sum modulo n is the roll.
    The hidden index comes from `System.Random` and is a parameter here. */
module FairRoll {

  /** One console reply, already trimmed and classified: "X"/"x", "?", a
      string `int.TryParse` accepts, or anything else. */
  datatype Reply = Exit | Help | Number(value: int) | Unreadable

  /** What one reply does inside the roll's prompt loop. */
  datatype RollStep = Quit | Reprompt | Rolled(index: int, face: int)

  /** On [0, 2n), reducing modulo n subtracts n at most once. */
  lemma ModOnce(x: int, n: int)
    requires 0 <= x < 2 * n
    ensures x % n == if x < n then x else x - n
  {
  }

  /** `(userValue + randomIndex) % n`. Both operands are non-negative where the
      game evaluates it, so C#'s truncating `%` and Dafny's `%` agree. */
  function Combine(userValue: int, randomIndex: int, n: int): (r: int)
    requires 0 <= userValue < n && 0 <= randomIndex < n
    ensures 0 <= r < n
    ensures r == if userValue + randomIndex < n then userValue + randomIndex else userValue + randomIndex - n
  {
    ModOnce(userValue + randomIndex, n);
    (userValue + randomIndex) % n
  }

  /** The user value that turns `randomIndex` into `target`. */
  function Uncombine(target: int, randomIndex: int, n: int): (v: int)
    requires 0 <= target < n && 0 <= randomIndex < n
    ensures 0 <= v < n
    ensures v == if randomIndex <= target then target - randomIndex else target - randomIndex + n
  {
    ModOnce(target - randomIndex + n, n);
    (target - randomIndex + n) % n
  }

  /** For a fixed hidden index, adding the user's value modulo n is a bijection
      on [0, n): `Uncombine` undoes `Combine` in both directions. */
  lemma CombineBijective(v: int, t: int, r: int, n: int)
    requires 0 <= v < n && 0 <= t < n && 0 <= r < n
    ensures Uncombine(Combine(v, r, n), r, n) == v
    ensures Combine(Uncombine(t, r, n), r, n) == t
  {
  }

  /** The two contributions play the same part. */
  lemma CombineSymmetric(v: int, r: int, n: int)
    requires 0 <= v < n && 0 <= r < n
    ensures Combine(v, r, n) == Combine(r, v, n)
  {
  }

  /** Whatever the hidden index, every final index is produced by exactly one
      user value; so a uniform user value gives a uniform roll. */
  lemma {:induction false} OneUserValuePerOutcome(r: int, t: int, n: int)
    requires 0 <= r < n && 0 <= t < n
    ensures (set v | 0 <= v < n && Combine(v, r, n) == t) == {Uncombine(t, r, n)}
  {
    var u := Uncombine(t, r, n);
    CombineBijective(u, t, r, n);
    forall v | 0 <= v < n && Combine(v, r, n) == t
      ensures v == u
    {
      CombineBijective(v, t, r, n);
    }
  }

  /** Whatever value the user picks, every final index is produced by exactly
      one hidden index; so a uniform hidden index gives a uniform roll even
      against a user who chooses adversarially. */
  lemma {:induction false} OneHiddenIndexPerOutcome(v: int, t: int, n: int)
    requires 0 <= v < n && 0 <= t < n
    ensures (set r | 0 <= r < n && Combine(v, r, n) == t) == {Uncombine(t, v, n)}
  {
    var u := Uncombine(t, v, n);
    CombineBijective(u, t, v, n);
    CombineSymmetric(u, v, n);
    forall r | 0 <= r < n && Combine(v, r, n) == t
      ensures r == u
    {
      CombineSymmetric(v, r, n);
      CombineBijective(r, t, v, n);
    }
  }

  /** Hidden index 3 plus user value 4 on a six-faced die selects index 1. */
  lemma CombineExample()
    ensures Combine(4, 3, 6) == 1
  {
  }

  /** `System.Random.Next(0, n)` returns a value in [0, n), and 0 when n is 0. */
  predicate DrawnIndex(randomIndex: int, n: int) {
    (0 <= randomIndex < n) || (n == 0 && randomIndex == 0)
  }

  /** One pass of the prompt loop in `FairRoll`: "X" quits (the method then
      returns -1), a number in [0, n) ends the roll with the face at the
      combined index, anything else prompts again. */
  function RollStepOf(die: seq<int>, randomIndex: int, reply: Reply): (r: RollStep)
    requires DrawnIndex(randomIndex, |die|)
    ensures r.Quit? <==> reply.Exit?
    ensures r.Rolled? <==> reply.Number? && 0 <= reply.value < |die|
    ensures r.Rolled? ==> 0 <= r.index < |die| && r.face == die[r.index]
    ensures r.Rolled? ==> r.index == Combine(reply.value, randomIndex, |die|)
  {
    match reply
    case Exit => Quit
    case Help => Reprompt
    case Unreadable => Reprompt
    case Number(v) =>
      if 0 <= v < |die| then
        var i := Combine(v, randomIndex, |die|);
        Rolled(i, die[i])
      else Reprompt
  }

  /** The value `FairRoll` returns once its loop ends: the face, or -1 on exit. */
  function RollResult(step: RollStep): (r: int)
    requires !step.Reprompt?
    ensures step.Quit? ==> r == -1
    ensures step.Rolled? ==> r == step.face
  {
    if step.Quit? then -1 else step.face
  }

  /** On a die, every face can be rolled, whatever the hidden index: the user
      value `Uncombine(k, randomIndex, |die|)` selects face k. */
  lemma EveryFaceReachable(die: seq<int>, randomIndex: int, k: int)
    requires 0 <= randomIndex < |die| && 0 <= k < |die|
    ensures RollStepOf(die, randomIndex, Number(Uncombine(k, randomIndex, |die|))) == Rolled(k, die[k])
  {
    CombineBijective(k, k, randomIndex, |die|);
  }

  /** The exit value -1 is also a legal face: on a die with a face of -1, the
      result of quitting and the result of rolling that face are the same. */
  lemma ExitLooksLikeRoll(die: seq<int>, randomIndex: int, k: int)
    requires 0 <= randomIndex < |die| && 0 <= k < |die| && die[k] == -1
    ensures RollResult(RollStepOf(die, randomIndex, Exit))
            == RollResult(RollStepOf(die, randomIndex, Number(Uncombine(k, randomIndex, |die|))))
  {
    EveryFaceReachable(die, randomIndex, k);
  }
}
