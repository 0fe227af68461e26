/** Dividing a table's width between its columns in proportion to their stretch factors. */
module Stretch {

  function Sum(s: seq<nat>): nat {
    if s == [] then 0 else Sum(s[..|s| - 1]) + s[|s| - 1]
  }

  function Max0(n: int): nat {
    if n < 0 then 0 else n
  }

  /** Floor division. */
  function Floor(n: int, d: int): int
    requires d > 0
  {
    n / d
  }

  function Ceiling(n: int, d: int): int
    requires d > 0
  {
    Floor(n + d - 1, d)
  }

  /** What the first columns, with total stretch `part`, are given of `extra`. */
  function Allotted(extra: int, part: int, total: nat): int {
    if total == 0 then 0 else Floor(extra * part, total)
  }

  /** The share of column `i` beyond its minimum: the difference of two cumulative allotments. */
  function Share(extra: nat, stretches: seq<nat>, i: nat): int
    requires i < |stretches|
  {
    Allotted(extra, Sum(stretches[..i + 1]), Sum(stretches)) - Allotted(extra, Sum(stretches[..i]), Sum(stretches))
  }

  lemma FloorBounds(n: int, d: int)
    requires d > 0
    ensures d * Floor(n, d) <= n < d * Floor(n, d) + d
  {
  }

  lemma FloorIs(n: int, d: int, q: int)
    requires d > 0 && d * q <= n < d * q + d
    ensures Floor(n, d) == q
  {
    hide Floor;
    FloorBounds(n, d);
    if Floor(n, d) < q {
      Multiples(d, Floor(n, d), q);
    } else if Floor(n, d) > q {
      Multiples(d, q, Floor(n, d));
    }
  }

  lemma {:induction false} Multiples(d: nat, x: int, y: int)
    requires x < y
    ensures d * x + d <= d * y
    decreases y - x
  {
    assert d * (y - 1) + d == d * y;
    if x < y - 1 {
      Multiples(d, x, y - 1);
    }
  }

  lemma Distributes(d: nat, x: int, y: int)
    ensures d * (x + y) == d * x + d * y
  {
  }

  lemma ProductIsNatural(x: nat, y: nat)
    ensures x * y >= 0
  {
    if y > 0 {
      Multiples(x, 0, y);
    }
  }

  /** Cutting at two points moves the difference of the floors by less than one unit. */
  lemma DifferenceOfFloors(a: int, b: int, d: int)
    requires d > 0
    ensures Floor(b, d) <= Floor(a + b, d) - Floor(a, d) <= Ceiling(b, d)
    ensures Floor(b, d) <= Ceiling(b, d) <= Floor(b, d) + 1
    ensures b >= 0 ==> Floor(b, d) >= 0
  {
    hide Floor;
    FloorBounds(a, d);
    FloorBounds(b, d);
    var p, q := Floor(a, d), Floor(b, d);
    Distributes(d, p, q);
    Distributes(d, p + q, 1);
    Distributes(d, q, 1);
    if a + b < d * (p + q) + d {
      FloorIs(a + b, d, p + q);
    } else {
      FloorIs(a + b, d, p + q + 1);
    }
    if b == d * q {
      FloorIs(b + d - 1, d, q);
    } else {
      FloorIs(b + d - 1, d, q + 1);
    }
    if b >= 0 && q < 0 {
      Multiples(d, q, 0);
    }
  }

  lemma SumSplits(s: seq<nat>, i: nat)
    requires i < |s|
    ensures Sum(s[..i + 1]) == Sum(s[..i]) + s[i]
  {
    assert s[..i + 1][..i] == s[..i];
  }

  lemma AllottedStep(extra: nat, part: nat, stretch: nat, total: nat)
    requires total > 0
    ensures Floor(extra * stretch, total) <= Allotted(extra, part + stretch, total) - Allotted(extra, part, total)
              <= Ceiling(extra * stretch, total)
    ensures Allotted(extra, part + stretch, total) >= Allotted(extra, part, total)
  {
    hide Floor, Ceiling;
    Distributes(extra, part, stretch);
    ProductIsNatural(extra, stretch);
    DifferenceOfFloors(extra * part, extra * stretch, total);
  }

  /** A column gets its exact proportional share rounded down or up; without a stretch factor it
      gets nothing. */
  lemma ShareIsProportional(extra: nat, stretches: seq<nat>, i: nat)
    requires i < |stretches|
    ensures Sum(stretches) > 0 ==>
              Floor(extra * stretches[i], Sum(stretches)) <= Share(extra, stretches, i)
                <= Ceiling(extra * stretches[i], Sum(stretches))
    ensures Share(extra, stretches, i) >= 0
    ensures stretches[i] == 0 ==> Share(extra, stretches, i) == 0
  {
    hide Floor, Ceiling, Sum;
    SumSplits(stretches, i);
    if Sum(stretches) > 0 {
      AllottedStep(extra, Sum(stretches[..i]), stretches[i], Sum(stretches));
    }
  }

  /** The share times the total is less than one total away from the factor times the extra width. */
  lemma ShareIsWithinOne(extra: nat, stretches: seq<nat>, i: nat)
    requires i < |stretches| && Sum(stretches) > 0
    ensures extra * stretches[i] - Sum(stretches) < Sum(stretches) * Share(extra, stretches, i)
              < extra * stretches[i] + Sum(stretches)
  {
    ShareIsProportional(extra, stretches, i);
    WithinOne(extra * stretches[i], Sum(stretches), Share(extra, stretches, i));
  }

  lemma WithinOne(n: int, d: nat, share: int)
    requires d > 0 && Floor(n, d) <= share <= Ceiling(n, d)
    ensures n - d < d * share < n + d
  {
    hide Floor;
    FloorBounds(n, d);
    FloorBounds(n + d - 1, d);
    if share > Floor(n, d) {
      Multiples(d, Floor(n, d), share);
    }
    if share < Ceiling(n, d) {
      Multiples(d, share, Ceiling(n, d));
    }
  }

  lemma NoExtraNoShare(stretches: seq<nat>, i: nat)
    requires i < |stretches|
    ensures Share(0, stretches, i) == 0
  {
    if Sum(stretches) > 0 {
      FloorIs(0 * Sum(stretches[..i + 1]), Sum(stretches), 0);
      FloorIs(0 * Sum(stretches[..i]), Sum(stretches), 0);
    }
  }

  /** What is left of the region after row labels and padding is filled exactly if the minimums fit. */
  lemma RegionFilled(region: nat, rowLabels: nat, padding: nat, minimums: nat, widths: nat)
    requires widths == minimums + Max0(Max0(Max0(region - rowLabels) - padding) - minimums)
    ensures rowLabels + widths + padding == region <==> rowLabels + minimums + padding <= region
  {
  }

  /** Columns with the same factor differ by one cell at most. */
  lemma EqualStretchesShareEqually(extra: nat, stretches: seq<nat>, i: nat, j: nat)
    requires i < |stretches| && j < |stretches| && stretches[i] == stretches[j]
    ensures Share(extra, stretches, i) <= Share(extra, stretches, j) + 1
  {
    hide Floor, Ceiling;
    ShareIsProportional(extra, stretches, i);
    ShareIsProportional(extra, stretches, j);
    if Sum(stretches) > 0 {
      DifferenceOfFloors(0, extra * stretches[i], Sum(stretches));
    }
  }

  class Column {
    var width: nat
    const minimum: nat
    const stretch: nat

    constructor (minimum: nat, stretch: nat)
      ensures this.minimum == minimum && this.stretch == stretch && width == minimum
    {
      this.minimum, this.stretch, width := minimum, stretch, minimum;
    }
  }

  function Minimums(columns: seq<Column>): seq<nat> {
    seq(|columns|, i requires 0 <= i < |columns| => columns[i].minimum)
  }

  function Stretches(columns: seq<Column>): seq<nat> {
    seq(|columns|, i requires 0 <= i < |columns| => columns[i].stretch)
  }

  function Widths(columns: seq<Column>): seq<nat>
    reads columns
  {
    seq(|columns|, i requires 0 <= i < |columns| reads columns => columns[i].width)
  }

  class DataTable {
    const columns: seq<Column>
    const padding: nat

    constructor (columns: seq<Column>, padding: nat)
      ensures this.columns == columns && this.padding == padding
    {
      this.columns, this.padding := columns, padding;
    }

    /** The width left for cell contents in a region that also shows row labels. */
    function ContentWidth(region: nat, rowLabels: nat): nat {
      Max0(Max0(region - rowLabels) - 2 * padding * |columns|)
    }

    function Extra(region: nat, rowLabels: nat): nat {
      Max0(ContentWidth(region, rowLabels) - Sum(Minimums(columns)))
    }

    method Restretch(region: nat, rowLabels: nat)
      requires forall i, j :: 0 <= i < j < |columns| ==> columns[i] != columns[j]
      modifies columns
      ensures forall i :: 0 <= i < |columns| ==>
                columns[i].width == columns[i].minimum + Share(Extra(region, rowLabels), Stretches(columns), i)
      ensures forall i :: 0 <= i < |columns| ==> columns[i].width >= columns[i].minimum
      ensures Sum(Stretches(columns)) > 0 && columns != [] ==>
                (Sum(Widths(columns)) == ContentWidth(region, rowLabels)
                 <==> Sum(Minimums(columns)) <= ContentWidth(region, rowLabels))
      ensures Sum(Stretches(columns)) == 0 ==> Sum(Widths(columns)) == Sum(Minimums(columns))
      // with the row labels and the padding on both sides of each column, the region is filled
      ensures Sum(Stretches(columns)) > 0 && columns != [] ==>
                (rowLabels + Sum(Widths(columns)) + 2 * padding * |columns| == region
                 <==> rowLabels + Sum(Minimums(columns)) + 2 * padding * |columns| <= region)
      ensures rowLabels + Sum(Minimums(columns)) + 2 * padding * |columns| >= region ==>
                forall i :: 0 <= i < |columns| ==> columns[i].width == columns[i].minimum
    {
      ghost var stretches := Stretches(columns);
      var extra := Extra(region, rowLabels);
      var total := Sum(Stretches(columns));
      var given, cumulative := 0, 0;
      NothingFirst(extra, total);
      hide Allotted, Sum;
      for i := 0 to |columns|
        invariant cumulative == Sum(stretches[..i]) && given == Allotted(extra, cumulative, total)
        invariant forall j :: 0 <= j < i ==>
          columns[j].width == columns[j].minimum + Share(extra, stretches, j)
      {
        SumSplits(stretches, i);
        ShareIsProportional(extra, stretches, i);
        cumulative := cumulative + columns[i].stretch;
        var stretched := Allotted(extra, cumulative, total);
        columns[i].width := columns[i].minimum + stretched - given;
        given := stretched;
      }
      forall i | 0 <= i < |columns|
        ensures columns[i].width >= columns[i].minimum
        ensures extra == 0 ==> columns[i].width == columns[i].minimum
      {
        ShareIsProportional(extra, stretches, i);
        NoExtraNoShare(stretches, i);
      }
      WidthsFill(Widths(columns), Minimums(columns), stretches, extra);
      PaddingIsNatural(padding, |columns|);
      if Sum(stretches) > 0 {
        RegionFilled(region, rowLabels, 2 * padding * |columns|, Sum(Minimums(columns)), Sum(Widths(columns)));
      }
    }
  }

  lemma PaddingIsNatural(padding: nat, columns: nat)
    ensures 2 * padding * columns >= 0
  {
  }

  lemma NothingFirst(extra: nat, total: nat)
    ensures Allotted(extra, 0, total) == 0 && Sum([]) == 0
  {
    if total > 0 {
      FloorIs(0, total, 0);
    }
  }

  lemma WholeAllotment(extra: nat, total: nat)
    ensures Allotted(extra, total, total) == if total > 0 then extra else 0
  {
    if total > 0 {
      assert total * extra == extra * total;
      FloorIs(extra * total, total, extra);
    }
  }

  /** All columns together get their minimums and, if any stretches, the whole extra width. */
  lemma WidthsFill(widths: seq<nat>, minimums: seq<nat>, stretches: seq<nat>, extra: nat)
    requires |widths| == |minimums| == |stretches|
    requires forall i :: 0 <= i < |widths| ==> widths[i] == minimums[i] + Share(extra, stretches, i)
    ensures Sum(widths) == Sum(minimums) + if Sum(stretches) > 0 then extra else 0
  {
    hide Allotted, Share, Sum;
    WidthsAddUp(widths, minimums, stretches, extra, |widths|);
    assert widths[..|widths|] == widths && minimums[..|widths|] == minimums && stretches[..|widths|] == stretches;
    WholeAllotment(extra, Sum(stretches));
  }

  /** The first columns together get their minimums and their cumulative allotment. */
  lemma {:induction false} WidthsAddUp(widths: seq<nat>, minimums: seq<nat>, stretches: seq<nat>, extra: nat, n: nat)
    requires n <= |widths| == |minimums| == |stretches|
    requires forall i :: 0 <= i < |widths| ==> widths[i] == minimums[i] + Share(extra, stretches, i)
    ensures Sum(widths[..n]) == Sum(minimums[..n]) + Allotted(extra, Sum(stretches[..n]), Sum(stretches))
  {
    if n > 0 {
      WidthsAddUp(widths, minimums, stretches, extra, n - 1);
      SumSplits(widths, n - 1);
      SumSplits(minimums, n - 1);
    } else if Sum(stretches) > 0 {
      FloorIs(0, Sum(stretches), 0);
    }
  }
}
