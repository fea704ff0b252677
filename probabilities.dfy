/** `CalculateProbabilities` in Program.cs: for every ordered pair of dice
    (i, j) it walks the cross product of their faces, counting the face pairs
    where die i shows more (wins) and the pairs that are equal (ties). The
    source stores wins / total and ties / total as doubles; this model keeps
    the exact counts, total being |dice[i]| * |dice[j]|. */
module Probabilities {

  /** Faces of `die` strictly below `x`. */
  function Below(x: int, die: seq<int>): nat
  {
    if |die| == 0 then 0
    else Below(x, die[..|die| - 1]) + (if x > die[|die| - 1] then 1 else 0)
  }

  /** Faces of `die` equal to `x`. */
  function Level(x: int, die: seq<int>): nat
  {
    if |die| == 0 then 0
    else Level(x, die[..|die| - 1]) + (if x == die[|die| - 1] then 1 else 0)
  }

  /** Faces of `die` strictly above `x`. */
  function Above(x: int, die: seq<int>): nat
  {
    if |die| == 0 then 0
    else Above(x, die[..|die| - 1]) + (if x < die[|die| - 1] then 1 else 0)
  }

  /** Face pairs (a[p], b[q]) with a[p] > b[q]. */
  function CountWins(a: seq<int>, b: seq<int>): nat
  {
    if |a| == 0 then 0 else CountWins(a[..|a| - 1], b) + Below(a[|a| - 1], b)
  }

  /** Face pairs (a[p], b[q]) with a[p] == b[q]. */
  function CountTies(a: seq<int>, b: seq<int>): nat
  {
    if |a| == 0 then 0 else CountTies(a[..|a| - 1], b) + Level(a[|a| - 1], b)
  }

  /** Face pairs (a[p], b[q]) with a[p] < b[q]. */
  function CountLosses(a: seq<int>, b: seq<int>): nat
  {
    if |a| == 0 then 0 else CountLosses(a[..|a| - 1], b) + Above(a[|a| - 1], b)
  }

  /** Each face of b is below, level with or above x, and only one of these. */
  lemma {:induction false} FaceTrichotomy(x: int, b: seq<int>)
    ensures Below(x, b) + Level(x, b) + Above(x, b) == |b|
  {
    if |b| > 0 {
      FaceTrichotomy(x, b[..|b| - 1]);
    }
  }

  /** Wins, ties and losses partition the cross product of the faces. */
  lemma {:induction false} CountsPartition(a: seq<int>, b: seq<int>)
    ensures CountWins(a, b) + CountTies(a, b) + CountLosses(a, b) == |a| * |b|
  {
    if |a| > 0 {
      CountsPartition(a[..|a| - 1], b);
      FaceTrichotomy(a[|a| - 1], b);
      assert (|a| - 1) * |b| + |b| == |a| * |b|;
    }
  }

  /** Extending the second die by one face y adds, to a's wins, the faces of a above y. */
  lemma {:induction false} WinsAgainstAppended(a: seq<int>, b: seq<int>, y: int)
    ensures CountWins(a, b + [y]) == CountWins(a, b) + Above(y, a)
  {
    if |a| > 0 {
      var x := a[|a| - 1];
      WinsAgainstAppended(a[..|a| - 1], b, y);
      assert (b + [y])[..|b|] == b;
      assert Below(x, b + [y]) == Below(x, b) + (if x > y then 1 else 0);
    }
  }

  /** Extending the second die by one face y adds, to a's ties, the faces of a equal to y. */
  lemma {:induction false} TiesAgainstAppended(a: seq<int>, b: seq<int>, y: int)
    ensures CountTies(a, b + [y]) == CountTies(a, b) + Level(y, a)
  {
    if |a| > 0 {
      var x := a[|a| - 1];
      TiesAgainstAppended(a[..|a| - 1], b, y);
      assert (b + [y])[..|b|] == b;
      assert Level(x, b + [y]) == Level(x, b) + (if x == y then 1 else 0);
    }
  }

  /** Against a die with no faces there is nothing to win or tie. */
  lemma {:induction false} AgainstNoFaces(a: seq<int>)
    ensures CountWins(a, []) == 0 && CountTies(a, []) == 0
  {
    if |a| > 0 {
      AgainstNoFaces(a[..|a| - 1]);
    }
  }

  /** The losses of a against b are the wins of b against a. */
  lemma {:induction false} LossesAreReverseWins(a: seq<int>, b: seq<int>)
    ensures CountLosses(a, b) == CountWins(b, a)
  {
    if |a| == 0 {
      AgainstNoFaces(b);
    } else {
      var a', x := a[..|a| - 1], a[|a| - 1];
      assert a' + [x] == a;
      calc {
        CountLosses(a, b);
        CountLosses(a', b) + Above(x, b);
        { LossesAreReverseWins(a', b); }
        CountWins(b, a') + Above(x, b);
        { WinsAgainstAppended(b, a', x); }
        CountWins(b, a' + [x]);
      }
    }
  }

  /** Ties do not depend on the order of the two dice. */
  lemma {:induction false} TiesSymmetric(a: seq<int>, b: seq<int>)
    ensures CountTies(a, b) == CountTies(b, a)
  {
    if |a| == 0 {
      AgainstNoFaces(b);
    } else {
      var a', x := a[..|a| - 1], a[|a| - 1];
      assert a' + [x] == a;
      calc {
        CountTies(a, b);
        CountTies(a', b) + Level(x, b);
        { TiesSymmetric(a', b); LevelSymmetric(x, b); }
        CountTies(b, a') + Level(x, b);
        { TiesAgainstAppended(b, a', x); }
        CountTies(b, a' + [x]);
      }
    }
  }

  /** Level counts the faces equal to x, whichever side x is written on. */
  lemma {:induction false} LevelSymmetric(x: int, b: seq<int>)
    ensures Level(x, b) == CountTies(b, [x])
  {
    if |b| > 0 {
      var y := b[|b| - 1];
      LevelSymmetric(x, b[..|b| - 1]);
      assert [x][..0] == [];
      assert Level(y, [x]) == (if y == x then 1 else 0);
    }
  }

  /** The mirror law of the two tables: for every ordered pair, the wins of
      (a, b), the ties of (a, b) and the wins of (b, a) add up to the total. */
  lemma MirrorLaw(a: seq<int>, b: seq<int>)
    ensures CountWins(a, b) + CountTies(a, b) + CountWins(b, a) == |a| * |b|
    ensures CountTies(a, b) == CountTies(b, a)
    ensures CountWins(a, b) + CountTies(a, b) <= |a| * |b|
  {
    CountsPartition(a, b);
    LossesAreReverseWins(a, b);
    TiesSymmetric(a, b);
  }

  /** A die against itself wins exactly as often as it loses. */
  lemma Diagonal(a: seq<int>)
    ensures 2 * CountWins(a, a) + CountTies(a, a) == |a| * |a|
  {
    MirrorLaw(a, a);
  }

  /** Against a die whose faces all equal c, the value c is level with every face and above none. */
  lemma {:induction false} AgainstConstant(c: int, b: seq<int>)
    requires forall q :: 0 <= q < |b| ==> b[q] == c
    ensures Below(c, b) == 0
    ensures Level(c, b) == |b|
  {
    if |b| > 0 {
      AgainstConstant(c, b[..|b| - 1]);
    }
  }

  /** A constant die against itself only ties. */
  lemma {:induction false} ConstantDie(a: seq<int>, c: int)
    requires forall p :: 0 <= p < |a| ==> a[p] == c
    ensures CountWins(a, a) == 0
    ensures CountTies(a, a) == |a| * |a|
  {
    Diagonal(a);
    ConstantPrefix(a, a, c, |a|);
    assert a[..|a|] == a;
  }

  lemma {:induction false} ConstantPrefix(a: seq<int>, b: seq<int>, c: int, k: nat)
    requires k <= |a|
    requires forall p :: 0 <= p < |a| ==> a[p] == c
    requires forall q :: 0 <= q < |b| ==> b[q] == c
    ensures CountWins(a[..k], b) == 0
  {
    if k > 0 {
      assert a[..k][..k - 1] == a[..k - 1];
      ConstantPrefix(a, b, c, k - 1);
      AgainstConstant(c, b);
    }
    assert k == |a| ==> a[..k] == a;
  }

  /** The first two dice of the game's usage example, the second with its faces
      sorted ("6,8,1,1,8,6" as [1, 1, 6, 6, 8, 8]); face order does not change the counts. */
  lemma ExamplePair()
    ensures CountWins([2, 2, 4, 4, 9, 9], [1, 1, 6, 6, 8, 8]) == 20
    ensures CountTies([2, 2, 4, 4, 9, 9], [1, 1, 6, 6, 8, 8]) == 0
    ensures CountWins([1, 1, 6, 6, 8, 8], [2, 2, 4, 4, 9, 9]) == 16
  {
    assert [2, 2][..1] == [2];
    assert [2, 2, 4][..2] == [2, 2];
    assert [2, 2, 4, 4][..3] == [2, 2, 4];
    assert [2, 2, 4, 4, 9][..4] == [2, 2, 4, 4];
    assert [2, 2, 4, 4, 9, 9][..5] == [2, 2, 4, 4, 9];
    assert [1, 1][..1] == [1];
    assert [1, 1, 6][..2] == [1, 1];
    assert [1, 1, 6, 6][..3] == [1, 1, 6];
    assert [1, 1, 6, 6, 8][..4] == [1, 1, 6, 6];
    assert [1, 1, 6, 6, 8, 8][..5] == [1, 1, 6, 6, 8];
    assert Below(2, [1, 1, 6, 6, 8, 8]) == 2;
    assert Below(4, [1, 1, 6, 6, 8, 8]) == 2;
    assert Below(9, [1, 1, 6, 6, 8, 8]) == 6;
    assert Level(2, [1, 1, 6, 6, 8, 8]) == 0;
    assert Level(4, [1, 1, 6, 6, 8, 8]) == 0;
    assert Level(9, [1, 1, 6, 6, 8, 8]) == 0;
    assert Below(1, [2, 2, 4, 4, 9, 9]) == 0;
    assert Below(6, [2, 2, 4, 4, 9, 9]) == 4;
    assert Below(8, [2, 2, 4, 4, 9, 9]) == 4;
  }

  /** The loops of `CalculateProbabilities`. Entry [i, j] of `wins` and `ties`
      is the numerator of winProb[i, j] and tieProb[i, j]; the denominator is
      |dice[i]| * |dice[j]|. */
  method CalculateProbabilities(dice: seq<seq<int>>) returns (wins: array2<int>, ties: array2<int>)
    ensures fresh(wins) && fresh(ties)
    ensures wins.Length0 == |dice| && wins.Length1 == |dice|
    ensures ties.Length0 == |dice| && ties.Length1 == |dice|
    ensures forall i, j :: 0 <= i < |dice| && 0 <= j < |dice| ==>
      wins[i, j] == CountWins(dice[i], dice[j]) && ties[i, j] == CountTies(dice[i], dice[j])
    ensures forall i, j :: 0 <= i < |dice| && 0 <= j < |dice| ==>
      wins[i, j] + ties[i, j] + wins[j, i] == |dice[i]| * |dice[j]| && ties[i, j] == ties[j, i]
  {
    var n := |dice|;
    wins := new int[n, n];
    ties := new int[n, n];
    for i := 0 to n
      invariant forall i', j' :: 0 <= i' < i && 0 <= j' < n ==>
        wins[i', j'] == CountWins(dice[i'], dice[j']) && ties[i', j'] == CountTies(dice[i'], dice[j'])
    {
      for j := 0 to n
        invariant forall i', j' :: 0 <= i' < i && 0 <= j' < n ==>
          wins[i', j'] == CountWins(dice[i'], dice[j']) && ties[i', j'] == CountTies(dice[i'], dice[j'])
        invariant forall j' :: 0 <= j' < j ==>
          wins[i, j'] == CountWins(dice[i], dice[j']) && ties[i, j'] == CountTies(dice[i], dice[j'])
      {
        var w, t := CountPair(dice[i], dice[j]);
        wins[i, j] := w;
        ties[i, j] := t;
      }
    }
    forall i, j | 0 <= i < n && 0 <= j < n
      ensures wins[i, j] + ties[i, j] + wins[j, i] == |dice[i]| * |dice[j]| && ties[i, j] == ties[j, i]
    {
      MirrorLaw(dice[i], dice[j]);
    }
  }

  /** The two `foreach` loops for one ordered pair of dice. */
  method CountPair(a: seq<int>, b: seq<int>) returns (wins: int, ties: int)
    ensures wins == CountWins(a, b) && ties == CountTies(a, b)
  {
    wins, ties := 0, 0;
    for p := 0 to |a|
      invariant wins == CountWins(a[..p], b) && ties == CountTies(a[..p], b)
    {
      var faceI := a[p];
      for q := 0 to |b|
        invariant wins == CountWins(a[..p], b) + Below(faceI, b[..q])
        invariant ties == CountTies(a[..p], b) + Level(faceI, b[..q])
      {
        var faceJ := b[q];
        assert b[..q + 1][..q] == b[..q];
        if faceI > faceJ {
          wins := wins + 1;
        } else if faceI == faceJ {
          ties := ties + 1;
        }
      }
      assert b[..|b|] == b;
      assert a[..p + 1][..p] == a[..p];
    }
    assert a[..|a|] == a;
  }
}
