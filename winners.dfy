/** Winner selection: `pick_winners` in cogs/giveaway.py copies the
    participant set into a list and takes `random.sample` of
    `min(count, len(pool))` of its entries.

    The random source is made explicit: `rolls` are the successive choices
    it makes (an index into what is left of the pool), so the selection is
    a function of its arguments.  The order in which the set is listed is
    not specified by the source; the model lists it in ascending order,
    which costs nothing because every duplicate-free selection remains
    reachable for a suitable choice of `rolls` (`PickWinnersReaches`). */
module Winners {

  /** No entry occurs twice. */
  predicate Distinct(s: seq<int>) {
    forall i, j :: 0 <= i < j < |s| ==> s[i] != s[j]
  }

  function Min(a: int, b: int): int {
    if a <= b then a else b
  }

  lemma HasMember(s: set<int>)
    requires s != {}
    ensures exists x :: x in s
  {
    if forall x :: x !in s {
      assert false;
    }
  }

  lemma {:induction false} LeastExists(s: set<int>)
    requires s != {}
    ensures exists m :: m in s && forall y :: y in s ==> m <= y
    decreases |s|
  {
    HasMember(s);
    var x :| x in s;
    if s == {x} {
      assert forall y :: y in s ==> x <= y;
    } else {
      LeastExists(s - {x});
      var m :| m in s - {x} && forall y :: y in s - {x} ==> m <= y;
      if x <= m {
        forall y | y in s
          ensures x <= y
        {
          if y != x { assert y in s - {x}; }
        }
      } else {
        forall y | y in s
          ensures m <= y
        {
          if y != x { assert y in s - {x}; }
        }
      }
    }
  }

  /** The least element of a non-empty set. */
  function Least(s: set<int>): (m: int)
    requires s != {}
    ensures m in s && forall y :: y in s ==> m <= y
  {
    LeastExists(s);
    var m :| m in s && forall y :: y in s ==> m <= y;
    m
  }

  /** `list(participants)`: every member of the set, once each. */
  function ListOf(s: set<int>): (r: seq<int>)
    ensures |r| == |s| && Distinct(r)
    ensures forall x :: x in r <==> x in s
    decreases |s|
  {
    if s == {} then []
    else
      var m := Least(s);
      [m] + ListOf(s - {m})
  }

  /** Every entry of `w` occurs in `pool`. */
  predicate Within(w: seq<int>, pool: seq<int>) {
    forall x :: x in w ==> x in pool
  }

  /** The sequence with its `j`-th entry taken out. */
  function Without(s: seq<int>, j: nat): (r: seq<int>)
    requires j < |s|
    ensures |r| == |s| - 1
    decreases j
  {
    if j == 0 then s[1..] else [s[0]] + Without(s[1..], j - 1)
  }

  /** Where each entry of `Without(s, j)` comes from in `s`. */
  lemma {:induction false} WithoutAt(s: seq<int>, j: nat)
    requires j < |s|
    ensures forall i :: 0 <= i < j ==> Without(s, j)[i] == s[i]
    ensures forall i :: j <= i < |s| - 1 ==> Without(s, j)[i] == s[i + 1]
    decreases j
  {
    if j > 0 {
      WithoutAt(s[1..], j - 1);
    }
  }

  lemma WithoutDistinct(s: seq<int>, j: nat)
    requires j < |s|
    ensures Distinct(s) ==> Distinct(Without(s, j)) && s[j] !in Without(s, j)
  {
    WithoutAt(s, j);
    if Distinct(s) {
      var r := Without(s, j);
      forall a, b | 0 <= a < b < |r|
        ensures r[a] != r[b]
      {
        var a' := if a < j then a else a + 1;
        var b' := if b < j then b else b + 1;
        assert r[a] == s[a'] && r[b] == s[b'];
      }
      forall i | 0 <= i < |r|
        ensures r[i] != s[j]
      {
        var i' := if i < j then i else i + 1;
        assert r[i] == s[i'];
      }
    }
  }

  /** Taking an entry out keeps every other entry. */
  lemma {:induction false} WithoutKeepsOthers(s: seq<int>, j: nat, x: int)
    requires j < |s| && x in s && x != s[j]
    ensures x in Without(s, j)
    decreases j
  {
    assert s == [s[0]] + s[1..];
    if j > 0 && x != s[0] {
      WithoutKeepsOthers(s[1..], j - 1, x);
    }
  }

  /** Taking an entry out adds nothing. */
  lemma {:induction false} WithoutWithin(s: seq<int>, j: nat)
    requires j < |s|
    ensures Within(Without(s, j), s)
    decreases j
  {
    if j > 0 {
      WithoutWithin(s[1..], j - 1);
    }
  }

  /** The choice the random source makes when `n` entries are left: the
      next roll, or the first entry when the rolls are used up or out of
      range. */
  function Roll(rolls: seq<nat>, n: nat): (j: nat)
    requires n > 0
    ensures j < n
  {
    if rolls != [] && rolls[0] < n then rolls[0] else 0
  }

  function Rest(rolls: seq<nat>): seq<nat> {
    if rolls == [] then [] else rolls[1..]
  }

  /** `random.sample(pool, k)` driven by the choices `rolls`: each step takes
      the chosen entry out of what is left of the pool.  CPython fills the
      gap with the last entry instead of shifting the rest up; that changes
      which roll picks which entry, but not which selections can be drawn. */
  function Sample(pool: seq<int>, k: nat, rolls: seq<nat>): (r: seq<int>)
    ensures |r| == Min(k, |pool|)
    decreases k
  {
    if k == 0 || |pool| == 0 then []
    else
      var j := Roll(rolls, |pool|);
      [pool[j]] + Sample(Without(pool, j), k - 1, Rest(rolls))
  }

  /** A sample only holds entries of the pool, and none twice when the pool
      has none twice. */
  lemma {:induction false} SampleSound(pool: seq<int>, k: nat, rolls: seq<nat>)
    ensures Within(Sample(pool, k, rolls), pool)
    ensures Distinct(pool) ==> Distinct(Sample(pool, k, rolls))
    decreases k
  {
    if k > 0 && |pool| > 0 {
      var j := Roll(rolls, |pool|);
      var rest := Without(pool, j);
      SampleSound(rest, k - 1, Rest(rolls));
      WithoutDistinct(pool, j);
      WithoutWithin(pool, j);
    }
  }

  /** `pick_winners(participants, count)`; `count` is never negative at
      the source's two call sites (`random.sample` raises on a negative
      count). */
  function PickWinners(participants: set<int>, count: nat, rolls: seq<nat>): (r: seq<int>)
    ensures |r| == Min(count, |participants|)
    ensures Distinct(r)
    ensures forall x :: x in r ==> x in participants
  {
    SampleSound(ListOf(participants), count, rolls);
    Sample(ListOf(participants), count, rolls)
  }

  /** Once the first entry of `w` has been drawn from `pool` at `j`, the rest
      of `w` is still a duplicate-free selection from what is left. */
  lemma TailPremises(pool: seq<int>, j: nat, w: seq<int>)
    requires j < |pool| && |w| > 0 && pool[j] == w[0]
    requires Distinct(pool) && Distinct(w) && Within(w, pool)
    ensures Distinct(Without(pool, j)) && Distinct(w[1..]) && Within(w[1..], Without(pool, j))
  {
    WithoutDistinct(pool, j);
    forall x | x in w[1..]
      ensures x in Without(pool, j)
    {
      var i :| 1 <= i < |w| && w[i] == x;
      assert x != w[0];
      WithoutKeepsOthers(pool, j, x);
    }
  }

  /** The position of `x` in `s`. */
  function IndexOf(s: seq<int>, x: int): (i: nat)
    requires x in s
    ensures i < |s| && s[i] == x
  {
    if s[0] == x then 0 else 1 + IndexOf(s[1..], x)
  }

  /** The choices that make the random source draw `w` from `pool`. */
  function Choices(pool: seq<int>, w: seq<int>): seq<nat>
    decreases |w|
  {
    if w == [] || w[0] !in pool then []
    else
      var j := IndexOf(pool, w[0]);
      [j] + Choices(Without(pool, j), w[1..])
  }

  /** One step of `Sample` driven by `Choices`: drawing the first entry of
      `w` and then the rest of `w` from what is left draws `w`. */
  lemma ChoicesStep(pool: seq<int>, k: nat, w: seq<int>)
    requires k > 0 && |w| > 0 && w[0] in pool
    requires Sample(Without(pool, IndexOf(pool, w[0])), k - 1,
                    Choices(Without(pool, IndexOf(pool, w[0])), w[1..])) == w[1..]
    ensures Sample(pool, k, Choices(pool, w)) == w
  {
    var j := IndexOf(pool, w[0]);
    var more := Choices(Without(pool, j), w[1..]);
    assert Choices(pool, w) == [j] + more;
    assert Roll([j] + more, |pool|) == j;
    assert Rest([j] + more) == more;
    assert [w[0]] + w[1..] == w;
  }

  /** Every duplicate-free selection of the right size from the pool is
      what `Sample` yields for some choices of the random source. */
  lemma {:induction false} SampleReaches(pool: seq<int>, k: nat, w: seq<int>)
    requires Distinct(pool) && Distinct(w) && Within(w, pool)
    requires |w| == Min(k, |pool|)
    ensures Sample(pool, k, Choices(pool, w)) == w
    decreases k
  {
    if k == 0 || |pool| == 0 {
    } else {
      assert w[0] in w;
      var j := IndexOf(pool, w[0]);
      var rest, tail := Without(pool, j), w[1..];
      TailPremises(pool, j, w);
      SampleReaches(rest, k - 1, tail);
      ChoicesStep(pool, k, w);
    }
  }

  /** Conversely to the contract of `PickWinners`: every duplicate-free
      selection of `min(count, |participants|)` participants can be drawn. */
  lemma PickWinnersReaches(participants: set<int>, count: nat, w: seq<int>)
    requires Distinct(w)
    requires |w| == Min(count, |participants|)
    requires forall x :: x in w ==> x in participants
    ensures exists rolls :: PickWinners(participants, count, rolls) == w
  {
    var pool := ListOf(participants);
    SampleReaches(pool, count, w);
    assert PickWinners(participants, count, Choices(pool, w)) == w;
  }
}
