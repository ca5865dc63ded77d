/** Reordering the query cards of a tab by drag and drop, and removing one, without the
    selection slipping to other cards. */
module QueryOrder {

  /** A drop next to where the card already is changes nothing. */
  predicate NoMove(from: nat, to: nat) { from == to || from + 1 == to }

  /** Where the card lands: `to` is the insertion point before the card is taken out. */
  function Landing(from: nat, to: nat): nat { if to > from then to - 1 else to }

  function RemoveAt<T>(s: seq<T>, i: nat): seq<T>
    requires i < |s|
  {
    s[..i] + s[i + 1..]
  }

  function InsertAt<T>(s: seq<T>, i: nat, x: T): seq<T>
    requires i <= |s|
  {
    s[..i] + [x] + s[i..]
  }

  function Reordered<T>(s: seq<T>, from: nat, to: nat): seq<T> {
    if from >= |s| || to > |s| || NoMove(from, to) then s
    else InsertAt(RemoveAt(s, from), Landing(from, to), s[from])
  }

  /** The new place of the card at `i`. */
  function Remap(i: nat, from: nat, to: nat): nat {
    if NoMove(from, to) then i
    else
      var dest := Landing(from, to);
      if i == from then dest
      else
        var j := if i > from then i - 1 else i;
        if j >= dest then j + 1 else j
  }

  /** The insertion point that moves the card back. */
  function Back(from: nat, to: nat): nat {
    var dest := Landing(from, to);
    if dest < from then from + 1 else from
  }

  lemma Removed<T>(s: seq<T>, from: nat, i: nat)
    requires from < |s| && i < |s| && i != from
    ensures |RemoveAt(s, from)| == |s| - 1
    ensures RemoveAt(s, from)[if i > from then i - 1 else i] == s[i]
  {
  }

  lemma Inserted<T>(s: seq<T>, dest: nat, x: T, j: nat)
    requires dest <= |s| && j < |s|
    ensures |InsertAt(s, dest, x)| == |s| + 1 && InsertAt(s, dest, x)[dest] == x
    ensures InsertAt(s, dest, x)[if j >= dest then j + 1 else j] == s[j]
  {
  }

  /** Every card is found again at its remapped place. */
  lemma RemapFollows<T>(s: seq<T>, from: nat, to: nat, i: nat)
    requires from < |s| && to <= |s| && i < |s|
    ensures |Reordered(s, from, to)| == |s|
    ensures Remap(i, from, to) < |s| && Reordered(s, from, to)[Remap(i, from, to)] == s[i]
  {
    hide RemoveAt, InsertAt;
    if !NoMove(from, to) {
      var dest := Landing(from, to);
      var other := if from == 0 then 1 else 0;
      var k := if i == from then other else i;
      Removed(s, from, k);
      Inserted(RemoveAt(s, from), dest, s[from], if k > from then k - 1 else k);
    }
  }

  /** What a drop does: the card comes to stand directly before the one that was at the insertion
      point, or last if that is the end, and the others keep their order. */
  lemma MoveMeans<T>(s: seq<T>, from: nat, to: nat)
    requires from < |s| && to <= |s|
    ensures var t, dest := Reordered(s, from, to), Remap(from, from, to);
            && |t| == |s| && dest < |t| && t[dest] == s[from] && RemoveAt(t, dest) == RemoveAt(s, from)
            && (to == |s| ==> dest == |s| - 1)
            && (to < |s| && to != from ==> dest + 1 < |s| && t[dest + 1] == s[to])
            && (to == from ==> t == s)
  {
    RemapFollows(s, from, to, from);
    if !NoMove(from, to) {
      TakenOutAgain(RemoveAt(s, from), Landing(from, to), s[from]);
      if to < |s| {
        RemapFollows(s, from, to, to);
      }
    }
    hide InsertAt;
  }

  lemma TakenOutAgain<T>(s: seq<T>, at: nat, x: T)
    requires at <= |s|
    ensures |InsertAt(s, at, x)| == |s| + 1 && RemoveAt(InsertAt(s, at, x), at) == s
  {
  }

  /** A second move undoes the first, on places and on cards; so remapping is a bijection. */
  lemma MoveBack<T>(s: seq<T>, from: nat, to: nat)
    requires from < |s| && to <= |s| && !NoMove(from, to)
    ensures var dest := Landing(from, to);
            && Back(from, to) <= |s|
            && Reordered(Reordered(s, from, to), dest, Back(from, to)) == s
            && forall i: nat :: Remap(Remap(i, from, to), dest, Back(from, to)) == i
  {
    var dest, back := Landing(from, to), Back(from, to);
    var t := Reordered(s, from, to);
    var u := Reordered(t, dest, back);
    forall i | 0 <= i < |s|
      ensures u[i] == s[i]
    {
      RemapFollows(s, from, to, i);
      RemapFollows(t, dest, back, Remap(i, from, to));
    }
    assert |t| == |s| && |u| == |t| by {
      RemapFollows(s, from, to, 0);
      RemapFollows(t, dest, back, 0);
    }
  }

  /** Where card `j` of the list without card `removed` was before. */
  function Before(j: nat, removed: nat): nat { if j < removed then j else j + 1 }

  function Remapped(selected: seq<nat>, from: nat, to: nat): seq<nat> {
    seq(|selected|, k requires 0 <= k < |selected| => Remap(selected[k], from, to))
  }

  /** The selection without card `removed`, places after it moved up by one. */
  function WithoutRemoved(selected: seq<nat>, removed: nat): seq<nat> {
    if selected == [] then []
    else
      var rest := WithoutRemoved(selected[1..], removed);
      if selected[0] == removed then rest
      else [if selected[0] > removed then selected[0] - 1 else selected[0]] + rest
  }

  /** What is selected stays selected, and nothing else becomes so. */
  lemma RemappedMeans<T>(s: seq<T>, selected: seq<nat>, from: nat, to: nat, i: nat)
    requires from < |s| && to <= |s|
    ensures Remap(i, from, to) in Remapped(selected, from, to) <==> i in selected
  {
    if !NoMove(from, to) {
      MoveBack(s, from, to);
    }
    if i in selected {
      var k :| 0 <= k < |selected| && selected[k] == i;
      assert Remapped(selected, from, to)[k] == Remap(i, from, to);
    }
    if Remap(i, from, to) in Remapped(selected, from, to) {
      var k :| 0 <= k < |selected| && Remapped(selected, from, to)[k] == Remap(i, from, to);
      assert Remap(Remap(selected[k], from, to), Landing(from, to), Back(from, to))
          == Remap(Remap(i, from, to), Landing(from, to), Back(from, to));
    }
  }

  /** Exactly the selected cards that are left stay selected. */
  lemma {:induction false} WithoutRemovedMeans(selected: seq<nat>, removed: nat, j: nat)
    ensures j in WithoutRemoved(selected, removed) <==> Before(j, removed) in selected
  {
    if selected != [] {
      WithoutRemovedMeans(selected[1..], removed, j);
      assert selected == [selected[0]] + selected[1..];
    }
  }

  class QueryTab<T> {
    var items: seq<T>
    var selected: seq<nat>

    constructor (items: seq<T>)
      ensures this.items == items && selected == []
    {
      this.items, selected := items, [];
    }

    /** Drag and drop; out-of-range drops and drops in place do nothing. */
    method Reorder(from: nat, to: nat)
      modifies this
      ensures items == Reordered(old(items), from, to)
      ensures selected == if from < |old(items)| && to <= |old(items)|
                          then Remapped(old(selected), from, to) else old(selected)
    {
      if from >= |items| || to > |items| {
        return;
      }
      if from == to || from + 1 == to {
        assert Remapped(selected, from, to) == selected;
        return;
      }
      var item := items[from];
      var rest := items[..from] + items[from + 1..];
      var dest := if to > from then to - 1 else to;
      items := rest[..dest] + [item] + rest[dest..];
      selected := seq(|selected|, k requires 0 <= k < |selected| reads this => Remap(selected[k], from, to));
    }

    /** Removing a card. */
    method Remove(removed: nat)
      requires removed < |items|
      modifies this
      ensures items == RemoveAt(old(items), removed)
      ensures forall j :: 0 <= j < |items| ==> items[j] == old(items)[Before(j, removed)]
      ensures selected == WithoutRemoved(old(selected), removed)
    {
      items := items[..removed] + items[removed + 1..];
      selected := WithoutRemoved(selected, removed);
    }
  }
}
