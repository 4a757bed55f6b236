/** The group sizes of the insertion phase (`make_group_size_enumerator` in
    lib/ford_johnson.rb): 2, 2, 6, 10, 22, 42, 86, 170, ..., each value being
    2^power minus the value before it. */
module GroupSizes {

  function Pow2(n: nat): (r: nat)
    ensures r > n
  {
    if n == 0 then 1 else 2 * Pow2(n - 1)
  }

  /** (-1)^k */
  function Alternating(k: nat): int {
    if k == 0 then 1 else -Alternating(k - 1)
  }

  /** The value the enumerator yields at `power` k (k >= 1): 2^k minus the
      value before it. GroupSize(0) == 0 is the enumerator's initial
      `previous_value`. From power 1 on, a group holds at least half of
      2^power and at most 2^power elements. */
  function GroupSize(k: nat): (r: nat)
    ensures r <= Pow2(k)
    ensures k >= 1 ==> Pow2(k - 1) <= r
  {
    if k == 0 then 0 else Pow2(k) - GroupSize(k - 1)
  }

  /** The closed form: GroupSize(k) == 2 (2^k - (-1)^k) / 3, twice the k-th
      Jacobsthal number. */
  lemma {:induction false} GroupSizeClosedForm(k: nat)
    ensures 3 * GroupSize(k) == 2 * (Pow2(k) - Alternating(k))
  {
    if k > 0 {
      GroupSizeClosedForm(k - 1);
      assert Pow2(k) == 2 * Pow2(k - 1) && GroupSize(k) == Pow2(k) - GroupSize(k - 1);
    }
  }

  /** Every group the enumerator yields holds at least two elements. */
  lemma GroupSizeAtLeastTwo(k: nat)
    requires k >= 1
    ensures GroupSize(k) >= 2
  {
    GroupSizeClosedForm(k);
    if k >= 2 {
      assert Pow2(k) == 4 * Pow2(k - 2);
    }
  }

  /** The sequence the comment above `make_group_size_enumerator` lists. */
  lemma FirstGroupSizes()
    ensures GroupSize(1) == 2 && GroupSize(2) == 2 && GroupSize(3) == 6 && GroupSize(4) == 10
    ensures GroupSize(5) == 22 && GroupSize(6) == 42 && GroupSize(7) == 86 && GroupSize(8) == 170
    ensures GroupSize(9) == 342 && GroupSize(10) == 682 && GroupSize(11) == 1366
    ensures GroupSize(12) == 2730 && GroupSize(13) == 5462
  {
  }

  /** How many elements of the lesser chain the groups 1..k take when all of them are full. */
  function Consumed(k: nat): nat {
    if k == 0 then 0 else Consumed(k - 1) + GroupSize(k)
  }

  /** The groups up to `power` together with twice those before it fill a
      power of two less two: 2 Consumed(k-1) + GroupSize(k) + 2 == 2^(k+1). */
  lemma {:induction false} ConsumedBeforeGroup(k: nat)
    requires k >= 1
    ensures 2 * Consumed(k - 1) + GroupSize(k) + 2 == Pow2(k + 1)
  {
    if k > 1 {
      ConsumedBeforeGroup(k - 1);
    }
  }

  /** The `Enumerator` that `make_group_size_enumerator` returns: the state
      its loop keeps between two calls of `next`. */
  class GroupSizeEnumerator {
    var previousValue: int
    var power: nat

    ghost predicate Valid()
      reads this
    {
      power >= 1 && previousValue == GroupSize(power - 1)
    }

    constructor ()
      ensures Valid() && power == 1 && previousValue == 0
    {
      previousValue := 0;
      power := 1;
    }

    /** One pass of the `loop`: yield 2^power - previous_value, then advance. */
    method Next() returns (nextValue: int)
      requires Valid()
      modifies this
      ensures Valid()
      ensures power == old(power) + 1
      ensures nextValue == GroupSize(old(power))
      ensures nextValue >= 2 && nextValue + old(previousValue) == Pow2(old(power))
    {
      nextValue := Pow2(power) - previousValue;
      GroupSizeAtLeastTwo(power);
      previousValue := nextValue;
      power := power + 1;
    }
  }

  /** The first n values a fresh enumerator yields are GroupSize(1), ..., GroupSize(n). */
  method Take(n: nat) returns (values: seq<int>)
    ensures |values| == n
    ensures forall i :: 0 <= i < n ==> values[i] == GroupSize(i + 1)
  {
    var enumerator := new GroupSizeEnumerator();
    values := [];
    while |values| < n
      invariant |values| <= n
      invariant enumerator.Valid() && enumerator.power == |values| + 1
      invariant forall i :: 0 <= i < |values| ==> values[i] == GroupSize(i + 1)
    {
      var v := enumerator.Next();
      values := values + [v];
    }
  }

  method TakeEight() returns (values: seq<int>)
    ensures values == [2, 2, 6, 10, 22, 42, 86, 170]
  {
    values := Take(8);
    FirstGroupSizes();
  }
}
