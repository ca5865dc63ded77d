/** Wrapping tab titles into rows: greedy filling, and why no other way of wrapping them
    in order needs fewer rows. Widths are real numbers, rounding is not modelled. */
module TabWrap {

  const GAP: real := 6.0

  /** Width of a row holding the tabs from `lo` to `hi`. */
  function RowWidth(w: seq<real>, lo: nat, hi: nat): real
    requires lo <= hi <= |w|
  {
    if lo == hi then 0.0
    else if lo + 1 == hi then w[lo]
    else RowWidth(w, lo, hi - 1) + (GAP + w[hi - 1])
  }

  /** A row fits the strip, or is a single tab that has nowhere else to go. */
  predicate RowOk(w: seq<real>, width: real, lo: nat, hi: nat)
    requires lo <= hi <= |w|
  {
    lo < hi && (lo + 1 == hi || RowWidth(w, lo, hi) <= width)
  }

  /** Rows in order and without gaps, each given by where it ends, last row outermost. */
  datatype Layout = NoRows | Row(before: Layout, hi: nat)

  function End(l: Layout): nat { if l.NoRows? then 0 else l.hi }

  function Count(l: Layout): nat { if l.NoRows? then 0 else Count(l.before) + 1 }

  /** A proper way of wrapping the first `End(l)` tabs. */
  predicate Proper(w: seq<real>, width: real, l: Layout) {
    l.Row? ==>
      && l.hi <= |w| && End(l.before) < l.hi && RowOk(w, width, End(l.before), l.hi)
      && Proper(w, width, l.before)
  }

  ghost predicate Positive(w: seq<real>) {
    forall i :: 0 <= i < |w| ==> w[i] > 0.0
  }

  /** A row inside a row that fits is no wider. */
  lemma {:induction false} NarrowerInside(w: seq<real>, lo: nat, lo': nat, hi: nat)
    requires lo <= lo' < hi <= |w| && Positive(w)
    ensures RowWidth(w, lo', hi) <= RowWidth(w, lo, hi)
  {
    if lo == lo' {
    } else if lo' + 1 == hi {
      NonNegative(w, lo, hi - 1);
    } else {
      NarrowerInside(w, lo, lo', hi - 1);
    }
  }

  lemma {:induction false} NonNegative(w: seq<real>, lo: nat, hi: nat)
    requires lo <= hi <= |w| && Positive(w)
    ensures RowWidth(w, lo, hi) >= 0.0
  {
    if lo < hi {
      NonNegative(w, lo, hi - 1);
    }
  }

  lemma {:induction false} ShorterFits(w: seq<real>, lo: nat, hi: nat, hi': nat)
    requires lo <= hi' <= hi <= |w| && Positive(w)
    ensures RowWidth(w, lo, hi') <= RowWidth(w, lo, hi)
  {
    if hi' < hi {
      ShorterFits(w, lo, hi - 1, hi');
      NonNegative(w, lo, hi - 1);
    }
  }

  /** The last row would overflow with one more tab. */
  ghost predicate Full(w: seq<real>, width: real, l: Layout) {
    l.Row? ==> End(l.before) < l.hi < |w| && RowWidth(w, End(l.before), l.hi + 1) > width
  }

  /** Every row but the last is full. */
  ghost predicate Greedy(w: seq<real>, width: real, l: Layout) {
    l.Row? ==> Greedy(w, width, l.before) && Full(w, width, l.before)
  }

  /** The rows as the page lays them out: the tab numbers, row by row. */
  function Indices(lo: nat, hi: nat): (s: seq<nat>)
    requires lo <= hi
    ensures |s| == hi - lo
  {
    seq(hi - lo, i requires 0 <= i < hi - lo => lo + i)
  }

  function Rows(l: Layout): (rows: seq<seq<nat>>)
    ensures |rows| == Count(l)
  {
    if l.NoRows? then []
    else Rows(l.before) + [if End(l.before) <= l.hi then Indices(End(l.before), l.hi) else []]
  }

  function Flatten(rows: seq<seq<nat>>): seq<nat> {
    if rows == [] then [] else Flatten(rows[..|rows| - 1]) + rows[|rows| - 1]
  }

  function TabItemWidth(chars: nat): real {
    var w := chars as real * 7.5 + 24.0;
    if w > 72.0 then w else 72.0
  }

  function Widths(chars: seq<nat>): (w: seq<real>)
    ensures |w| == |chars| && Positive(w)
  {
    seq(|chars|, i requires 0 <= i < |chars| => TabItemWidth(chars[i]))
  }

  function StripWidth(width: real): real { if width > 80.0 then width else 80.0 }

  lemma WidthAt(chars: seq<nat>, i: nat)
    requires i < |chars|
    ensures Widths(chars)[i] == TabItemWidth(chars[i])
  {
  }

  lemma IndicesGrow(lo: nat, hi: nat)
    requires lo <= hi
    ensures Indices(lo, hi) + [hi] == Indices(lo, hi + 1)
    ensures lo == hi ==> Indices(lo, hi) == [] && Indices(lo, hi + 1) == [hi]
  {
  }

  /** The layout loop: the rows of a proper greedy layout of all tabs. */
  method ComputeTabRows(chars: seq<nat>, stripWidth: real)
    returns (rows: seq<seq<nat>>, ghost l: Layout)
    ensures Proper(Widths(chars), StripWidth(stripWidth), l) && End(l) == |chars|
    ensures Greedy(Widths(chars), StripWidth(stripWidth), l)
    ensures rows == Rows(l) && Flatten(rows) == Indices(0, |chars|)
    ensures forall p :: Proper(Widths(chars), StripWidth(stripWidth), p) && End(p) == |chars| ==> |rows| <= Count(p)
  {
    hide TabItemWidth, Flatten, Indices, Widths;
    var width := StripWidth(stripWidth);
    ghost var w := Widths(chars);
    rows, l := [], NoRows;
    var current: seq<nat> := [];
    NothingFlat();
    var used := 0.0;
    for i := 0 to |chars|
      invariant End(l) <= i && Proper(w, width, l) && rows == Rows(l)
      invariant if i == 0 then l == NoRows else RowOk(w, width, End(l), i)
      invariant Greedy(w, width, l) && Full(w, width, l)
      invariant current == Indices(End(l), i) && used == RowWidth(w, End(l), i)
    {
      var item := TabItemWidth(chars[i]);
      WidthAt(chars, i);
      IndicesGrow(End(l), i);
      IndicesGrow(i, i);
      var extra := if current == [] then item else GAP + item;
      if current != [] && used + extra > width {
        rows := rows + [current];
        l := Row(l, i);
        current := [i];
        used := item;
      } else {
        current := current + [i];
        used := used + extra;
      }
    }
    if current != [] {
      rows := rows + [current];
      l := Row(l, |chars|);
    }
    RowsCoverAll(w, width, l);
    forall p | Proper(w, width, p) && End(p) == |chars|
      ensures |rows| <= Count(p)
    {
      GreedyIsOptimal(w, width, l, p);
    }
  }

  lemma FlattenStep(rows: seq<seq<nat>>, row: seq<nat>)
    ensures Flatten(rows + [row]) == Flatten(rows) + row
  {
    assert (rows + [row])[..|rows|] == rows;
  }

  lemma IndicesJoin(mid: nat, hi: nat)
    requires mid <= hi
    ensures Indices(0, mid) + Indices(mid, hi) == Indices(0, hi)
  {
  }

  /** The rows list all tabs once and in order. */
  lemma {:induction false} RowsCoverAll(w: seq<real>, width: real, l: Layout)
    requires Proper(w, width, l)
    ensures Flatten(Rows(l)) == Indices(0, End(l))
  {
    hide Flatten, Indices, RowOk;
    if l.Row? {
      RowsCoverAll(w, width, l.before);
      FlattenStep(Rows(l.before), Indices(End(l.before), l.hi));
      IndicesJoin(End(l.before), l.hi);
    } else {
      NothingFlat();
    }
  }

  lemma NothingFlat()
    ensures Flatten([]) == Indices(0, 0) == []
  {
  }

  /** Greedy stays ahead: full greedy rows reach at least as far as the same number of
      rows of any proper layout. */
  lemma {:induction false} StaysAhead(w: seq<real>, width: real, g: Layout, p: Layout)
    requires Positive(w) && Proper(w, width, g) && Greedy(w, width, g) && Full(w, width, g)
    requires Proper(w, width, p) && Count(p) == Count(g)
    ensures End(p) <= End(g)
  {
    if g.Row? {
      StaysAhead(w, width, g.before, p.before);
      var lo, hi := End(p.before), g.hi;
      if p.hi > hi {
        ShorterFits(w, lo, p.hi, hi + 1);
        NarrowerInside(w, lo, End(g.before), hi + 1);
        assert false;
      }
    }
  }

  /** Greedy wrapping is optimal: no proper layout of all tabs has fewer rows. */
  lemma GreedyIsOptimal(w: seq<real>, width: real, g: Layout, p: Layout)
    requires Positive(w)
    requires Proper(w, width, g) && Greedy(w, width, g)
    requires Proper(w, width, p) && End(p) == End(g)
    ensures Count(g) <= Count(p)
  {
    if Count(p) < Count(g) {
      var k := FirstRows(w, width, g, Count(p));
      StaysAhead(w, width, k, p);
    }
  }

  /** The first `n` rows of a greedy layout, all of them full. */
  lemma {:induction false} FirstRows(w: seq<real>, width: real, g: Layout, n: nat) returns (k: Layout)
    requires Proper(w, width, g) && Greedy(w, width, g) && n < Count(g)
    ensures Proper(w, width, k) && Greedy(w, width, k) && Full(w, width, k)
    ensures Count(k) == n && End(k) < End(g)
  {
    if n == Count(g.before) {
      k := g.before;
    } else {
      k := FirstRows(w, width, g.before, n);
    }
  }
}
