/** Index bookkeeping of the layer list: deleting an entry, the host collection's
    `move(from, to)`, and where the active entry goes when it is moved up or down. */
module LayerOrder {

  /** The list with entry i deleted (the host collection's `remove(i)`). */
  function RemoveAt<T>(s: seq<T>, i: nat): (r: seq<T>)
    requires i < |s|
    ensures |r| == |s| - 1
    ensures forall k :: 0 <= k < i ==> r[k] == s[k]
    ensures forall k :: i <= k < |r| ==> r[k] == s[k + 1]
    ensures multiset(r) + multiset{s[i]} == multiset(s)
  {
    assert s == s[..i] + [s[i]] + s[i + 1..];
    s[..i] + s[i + 1..]
  }

  /** The host collection's `move(from, to)`: the entry at `from` is taken out and
      reinserted so that it ends up at index `to`. */
  function MoveItem<T>(s: seq<T>, from: nat, to: nat): (r: seq<T>)
    requires from < |s| && to < |s|
    ensures |r| == |s| && r[to] == s[from]
    ensures multiset(r) == multiset(s)
  {
    var rest := RemoveAt(s, from);
    assert rest == rest[..to] + rest[to..];
    rest[..to] + [s[from]] + rest[to..]
  }

  /** Entries i and j exchanged. */
  function Swap<T>(s: seq<T>, i: nat, j: nat): (r: seq<T>)
    requires i < |s| && j < |s|
    ensures |r| == |s| && r[i] == s[j] && r[j] == s[i]
    ensures forall k :: 0 <= k < |s| && k != i && k != j ==> r[k] == s[k]
    ensures multiset(r) == multiset(s)
  {
    var t := s[i := s[j]];
    assert multiset(t) == multiset(s) - multiset{s[i]} + multiset{s[j]};
    t[j := s[i]]
  }

  /** Moving an entry onto an adjacent index exchanges the two entries. */
  lemma MoveAdjacentIsSwap<T>(s: seq<T>, from: nat, to: nat)
    requires from < |s| && to < |s|
    requires from == to + 1 || to == from + 1
    ensures MoveItem(s, from, to) == Swap(s, from, to)
  {
    var r := MoveItem(s, from, to);
    var w := Swap(s, from, to);
    var rest := RemoveAt(s, from);
    assert r == rest[..to] + [s[from]] + rest[to..];
    forall k | 0 <= k < |s| ensures r[k] == w[k] {
      if k < to {
        assert r[k] == rest[k];
      } else if k > to {
        assert r[k] == rest[k - 1];
      }
    }
  }

  /** The layer list and active index after moving the active entry one place up
      (toward index 0) or down; at the boundary in that direction nothing changes. */
  function MoveResult<T>(s: seq<T>, active: nat, up: bool): (r: (seq<T>, nat))
    requires active < |s|
    ensures r.1 < |r.0| == |s|
  {
    if up then
      if active == 0 then (s, active) else (Swap(s, active - 1, active), active - 1)
    else
      if active == |s| - 1 then (s, active) else (Swap(s, active + 1, active), active + 1)
  }

  /** The active entry is followed to its new index, it changes places with the
      neighbour in the direction of the move, everything else stays, and no entry is
      gained or lost; at the boundary nothing changes. */
  lemma MoveResultSpec<T>(s: seq<T>, active: nat, up: bool)
    requires active < |s|
    ensures var r := MoveResult(s, active, up);
      && multiset(r.0) == multiset(s)
      && r.0[r.1] == s[active]
      && r.0[active] == s[r.1]
      && (forall k :: 0 <= k < |s| && k != active && k != r.1 ==> r.0[k] == s[k])
      && (up && active > 0 ==> r.1 == active - 1)
      && (!up && active < |s| - 1 ==> r.1 == active + 1)
      && ((if up then active == 0 else active == |s| - 1) ==> r == (s, active))
  {
  }

  /** The host `move(neighbour, active)` with the neighbour in the direction of the
      move gives the list MoveResult describes, as an exchange of the two entries. */
  lemma MoveNeighbour<T>(s: seq<T>, active: nat, up: bool, neighbour: nat)
    requires active < |s|
    requires up ==> 0 < active && neighbour == active - 1
    requires !up ==> active < |s| - 1 && neighbour == active + 1
    ensures MoveItem(s, neighbour, active) == Swap(s, neighbour, active) == MoveResult(s, active, up).0
    ensures neighbour == MoveResult(s, active, up).1
  {
    MoveAdjacentIsSwap(s, neighbour, active);
  }

  /** Moving up and then down again, from an entry that is not first, restores the
      list and the active index; so does down then up from an entry that is not last. */
  lemma MoveUpThenDown<T>(s: seq<T>, active: nat)
    requires 0 < active < |s|
    ensures var u := MoveResult(s, active, true); MoveResult(u.0, u.1, false) == (s, active)
  {
    var u := MoveResult(s, active, true);
    var d := MoveResult(u.0, u.1, false);
    assert d.0 == s;
  }

  lemma MoveDownThenUp<T>(s: seq<T>, active: nat)
    requires active < |s| - 1
    ensures var d := MoveResult(s, active, false); MoveResult(d.0, d.1, true) == (s, active)
  {
    var d := MoveResult(s, active, false);
    var u := MoveResult(d.0, d.1, true);
    assert u.0 == s;
  }
}
