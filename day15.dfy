/** `day15.rs`: the memory game's starting position. Each starting number is
    spoken on its own turn, counted from 1; the state remembers, for every
    number spoken, the last turn it was spoken on. The game itself (`play`)
    is not part of the source's working code. */
module Day15 {

  /** `Turn(i32)`: a turn of the game, counted from 1. */
  datatype Turn = Turn(turn: int)

  /** `Number(i32)`: a number spoken in the game. */
  datatype Number = Number(value: int)

  /** `Sub for Turn`: the number of turns between two turns. */
  function TurnsBetween(later: Turn, earlier: Turn): (n: Number)
    ensures earlier.turn + n.value == later.turn
  {
    Number(later.turn - earlier.turn)
  }

  /** `enumerate`: every starting number with the turn it is spoken on. */
  function Enumerate(init: seq<int>): (r: seq<(Number, Turn)>)
    ensures |r| == |init|
    ensures forall i :: 0 <= i < |init| ==> r[i].0 == Number(init[i]) && r[i].1 == Turn(i + 1)
  {
    seq(|init|, i requires 0 <= i < |init| => (Number(init[i]), Turn(i + 1)))
  }

  /** The last-spoken map built by collecting the pairs into a `HashMap`:
      a later pair for the same number replaces an earlier one. */
  function Collect(pairs: seq<(Number, Turn)>): map<int, Turn> {
    if |pairs| == 0 then map[]
    else Collect(pairs[..|pairs| - 1])[pairs[|pairs| - 1].0.value := pairs[|pairs| - 1].1]
  }

  /** `init_map`: the last-spoken map of the starting numbers and the turn
      that comes next. */
  function InitMap(init: seq<int>): (map<int, Turn>, Turn) {
    (Collect(Enumerate(init)), Turn(|init| + 1))
  }

  /** The numbers the collected map knows are exactly those of the pairs. */
  lemma {:induction false} CollectKeys(pairs: seq<(Number, Turn)>)
    ensures Collect(pairs).Keys == set i | 0 <= i < |pairs| :: pairs[i].0.value
    decreases |pairs|
  {
    if |pairs| > 0 {
      var init := pairs[..|pairs| - 1];
      CollectKeys(init);
      var keys := set i | 0 <= i < |pairs| :: pairs[i].0.value;
      var before := set i | 0 <= i < |init| :: init[i].0.value;
      forall x | x in keys
        ensures x in before + {pairs[|pairs| - 1].0.value}
      {
        var i :| 0 <= i < |pairs| && pairs[i].0.value == x;
        if i < |init| {
          assert init[i] == pairs[i];
        }
      }
      forall x | x in before
        ensures x in keys
      {
        var i :| 0 <= i < |init| && init[i].0.value == x;
        assert pairs[i] == init[i];
      }
    }
  }

  /** The turn the collected map holds for a number is that of its last pair. */
  lemma {:induction false} CollectLast(pairs: seq<(Number, Turn)>, i: nat)
    requires i < |pairs|
    requires forall k :: i < k < |pairs| ==> pairs[k].0 != pairs[i].0
    ensures pairs[i].0.value in Collect(pairs) && Collect(pairs)[pairs[i].0.value] == pairs[i].1
    decreases |pairs|
  {
    if i < |pairs| - 1 {
      var init := pairs[..|pairs| - 1];
      assert init[i] == pairs[i];
      CollectLast(init, i);
    }
  }

  /** The starting map holds, for a starting number, the turn it was last
      spoken on, and the next turn follows the last starting one. */
  lemma InitMapMeaning(init: seq<int>, i: nat)
    requires i < |init| && forall k :: i < k < |init| ==> init[k] != init[i]
    ensures init[i] in InitMap(init).0 && InitMap(init).0[init[i]] == Turn(i + 1)
    ensures InitMap(init).1 == Turn(|init| + 1)
  {
    CollectLast(Enumerate(init), i);
  }

  /** Every number in the starting map was a starting number; the keys of
      the map are the distinct starting numbers. */
  lemma InitMapKeys(init: seq<int>)
    ensures InitMap(init).0.Keys == set k | 0 <= k < |init| :: init[k]
  {
    var pairs := Enumerate(init);
    CollectKeys(pairs);
    assert (set k | 0 <= k < |pairs| :: pairs[k].0.value) == set k | 0 <= k < |init| :: init[k];
  }

  /** A map collected from pairs whose turns lie in `[lo, hi]` holds only such turns. */
  lemma {:induction false} CollectTurnsWithin(pairs: seq<(Number, Turn)>, lo: int, hi: int)
    requires forall i :: 0 <= i < |pairs| ==> lo <= pairs[i].1.turn <= hi
    ensures forall k :: k in Collect(pairs) ==> lo <= Collect(pairs)[k].turn <= hi
    decreases |pairs|
  {
    if |pairs| > 0 {
      CollectTurnsWithin(pairs[..|pairs| - 1], lo, hi);
    }
  }

  /** On the first turn after the starting numbers, every number in the map
      was last spoken between 1 and `|init|` turns ago: the difference
      `turn - last_spoken` that the game computes from this state. */
  lemma InitMapAges(init: seq<int>, k: int)
    requires k in InitMap(init).0
    ensures 1 <= TurnsBetween(InitMap(init).1, InitMap(init).0[k]).value <= |init|
  {
    CollectTurnsWithin(Enumerate(init), 1, |init|);
  }

  /** `[0, 3, 6]` gives three entries, each on its own turn, and turn 4 is next. */
  lemma InitMapExample()
    ensures |InitMap([0, 3, 6]).0| == 3
    ensures InitMap([0, 3, 6]).0 == map[0 := Turn(1), 3 := Turn(2), 6 := Turn(3)]
    ensures InitMap([0, 3, 6]).1 == Turn(4)
  {
    var init := [0, 3, 6];
    var pairs := Enumerate(init);
    assert pairs == [(Number(0), Turn(1)), (Number(3), Turn(2)), (Number(6), Turn(3))];
    assert pairs[..2][..1][..0] == [];
    assert pairs[..2][..1] == [(Number(0), Turn(1))];
    assert pairs[..2] == [(Number(0), Turn(1)), (Number(3), Turn(2))];
    assert Collect(pairs[..2][..1]) == map[0 := Turn(1)];
    assert Collect(pairs[..2]) == map[0 := Turn(1), 3 := Turn(2)];
    var m := Collect(pairs);
    assert m == map[0 := Turn(1), 3 := Turn(2), 6 := Turn(3)];
    assert m.Keys == {0, 3, 6};
  }
}
