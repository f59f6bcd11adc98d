/** The figures behind the expense breakdown chart: the total of all amounts,
    the per-category sums, and one slice per category with its share of the
    total. Amounts are exact integers (minor units); shares are exact reals. */
module PieChart {
  import opened Expenses
  import opened Selection

  function Amount(e: Expense): int
  {
    e.amount
  }

  function Category(e: Expense): string
  {
    e.category
  }

  /** `total`: the fold `(s, e) => s + e.amount` from 0 over the list. */
  function Total(es: seq<Expense>): int
  {
    Weight(es, Amount)
  }

  /** The sum of the amounts of category `c`. */
  function CategorySum(es: seq<Expense>, c: string): int
  {
    Weight(Select(es, Category, c), Amount)
  }

  /** The categories that occur in the list. */
  function Categories(es: seq<Expense>): set<string>
  {
    set k | 0 <= k < |es| :: es[k].category
  }

  /** A string-keyed record as the chart builds it: its sums, and its keys in
      the order they were first assigned (the order `Object.entries` lists them). */
  datatype CategoryTotals = CategoryTotals(order: seq<string>, sums: map<string, int>)

  /** What the fold has built after reading `es`: keys exactly the categories
      present, each listed once in `order`, each holding its category's sum. */
  ghost predicate TalliesOf(es: seq<Expense>, g: CategoryTotals)
  {
    && Distinct(g.order)
    && (forall c :: c in g.order <==> c in g.sums)
    && (forall c :: c in g.sums <==> c in Categories(es))
    && (forall c :: c in g.sums ==> g.sums[c] == CategorySum(es, c))
  }

  /** The reducer step `acc[c] = (acc[c] || 0) + amount`: an assignment to a
      new key appends that key to the record's key order. */
  function AddInto(acc: CategoryTotals, e: Expense): CategoryTotals
  {
    var c := e.category;
    var prior := if c in acc.sums then acc.sums[c] else 0;
    CategoryTotals(if c in acc.sums then acc.order else acc.order + [c],
                   acc.sums[c := prior + e.amount])
  }

  /** `grouped`: the reducer folded over the list from the empty record. */
  function Grouped(es: seq<Expense>): (g: CategoryTotals)
    ensures TalliesOf(es, g)
  {
    if es == [] then CategoryTotals([], map[])
    else
      var init, e := es[..|es| - 1], es[|es| - 1];
      assert es == init + [e];
      AddIntoStep(init, Grouped(init), e);
      AddInto(Grouped(init), e)
  }

  lemma CategoriesSnoc(es: seq<Expense>, e: Expense)
    ensures Categories(es + [e]) == Categories(es) + {e.category}
  {
    var s := es + [e];
    forall x | x in Categories(s) ensures x in Categories(es) + {e.category} {
      var k :| 0 <= k < |s| && s[k].category == x;
      if k < |es| { assert es[k] == s[k]; }
    }
    forall x | x in Categories(es) ensures x in Categories(s) {
      var k :| 0 <= k < |es| && es[k].category == x;
      assert s[k] == es[k];
    }
    assert s[|es|] == e;
  }

  /** One reducer step keeps the record's meaning. */
  lemma AddIntoStep(es: seq<Expense>, acc: CategoryTotals, e: Expense)
    requires TalliesOf(es, acc)
    ensures TalliesOf(es + [e], AddInto(acc, e))
  {
    var g := AddInto(acc, e);
    var c := e.category;
    CategoriesSnoc(es, e);
    forall x | x in g.sums ensures g.sums[x] == CategorySum(es + [e], x) {
      SelectSnoc(es, Category, x, e);
      if x == c {
        WeightSnoc(Select(es, Category, x), Amount, e);
        if c !in acc.sums {
          NoneOfAbsentCategory(es, c);
        }
      } else {
        assert Select(es + [e], Category, x) == Select(es, Category, x) + [];
        assert Select(es, Category, x) + [] == Select(es, Category, x);
        assert x in acc.sums && g.sums[x] == acc.sums[x];
      }
    }
    assert Distinct(g.order) by {
      if c !in acc.sums {
        forall i, j | 0 <= i < j < |g.order| ensures g.order[i] != g.order[j] {
          if j == |acc.order| {
            assert g.order[i] == acc.order[i] && acc.order[i] in acc.order;
          }
        }
      }
    }
  }

  /** A category absent from the list has sum zero. */
  lemma NoneOfAbsentCategory(es: seq<Expense>, c: string)
    requires c !in Categories(es)
    ensures CategorySum(es, c) == 0
  {
    forall i | 0 <= i < |es| ensures Category(es[i]) != c {
      assert es[i].category in Categories(es);
    }
    SelectNone(es, Category, c);
  }

  /** The sum of a record's values, taken along its key order. */
  function SumAlong(order: seq<string>, sums: map<string, int>): int
    requires forall c :: c in order ==> c in sums
  {
    if order == [] then 0 else sums[order[0]] + SumAlong(order[1..], sums)
  }

  lemma {:induction false} SumAlongIsWeightOver(es: seq<Expense>, order: seq<string>, sums: map<string, int>)
    requires forall c :: c in order ==> c in sums && sums[c] == CategorySum(es, c)
    ensures SumAlong(order, sums) == WeightOver(es, Category, Amount, order)
  {
    if order != [] {
      SumAlongIsWeightOver(es, order[1..], sums);
    }
  }

  /** Conservation: the per-category sums add up to the total. */
  lemma GroupedConservation(es: seq<Expense>)
    ensures var g := Grouped(es); SumAlong(g.order, g.sums) == Total(es)
  {
    var g := Grouped(es);
    SumAlongIsWeightOver(es, g.order, g.sums);
    forall x | x in es ensures Category(x) in g.order {
      var k :| 0 <= k < |es| && es[k] == x;
      assert es[k].category in Categories(es);
    }
    PartitionSum(es, Category, Amount, g.order);
  }

  /** The colours of the eight known categories. */
  const CategoryColors: map<string, string> := map[
    "Meals" := "#F97316",
    "Transportation" := "#0EA5E9",
    "Groceries" := "#22C55E",
    "Utilities" := "#A855F7",
    "Healthcare" := "#EF4444",
    "Entertainment" := "#EC4899",
    "PersonalCare" := "#14B8A6",
    "Miscellaneous" := "#64748B"
  ]

  /** A slice's colour: its category's colour, or the theme's primary colour
      for a category outside the eight known ones. */
  function SliceColor(category: string, primary: string): (color: string)
    ensures category !in CategoryColors ==> color == primary
    ensures category in CategoryColors ==> color == CategoryColors[category]
  {
    if category in CategoryColors then CategoryColors[category] else primary
  }

  datatype Slice = Slice(value: int, color: string, labelText: string, percentage: real, amount: int)

  /** `pieData`: no slices when the total is zero; otherwise one slice per
      entry of `grouped`, in entry order, carrying its share of the total as
      an exact percentage. `primary` is the theme's primary colour. */
  function PieData(es: seq<Expense>, primary: string): (slices: seq<Slice>)
    ensures Total(es) == 0 ==> slices == []
    ensures Total(es) != 0 ==> |slices| == |Grouped(es).order|
  {
    var total := Total(es);
    if total == 0 then []
    else
      var g := Grouped(es);
      seq(|g.order|, i requires 0 <= i < |g.order| =>
        var c := g.order[i];
        var v := g.sums[c];
        Slice(v, SliceColor(c, primary), c, (v as real / total as real) * 100.0, v))
  }

  /** One slice per category present: labels are distinct, cover exactly the
      categories of the list, and each slice's value and amount are its
      category's sum, its percentage that sum's share of the total. */
  lemma OneSlicePerCategory(es: seq<Expense>, primary: string)
    requires Total(es) != 0
    ensures var slices := PieData(es, primary);
      && (forall i, j :: 0 <= i < j < |slices| ==> slices[i].labelText != slices[j].labelText)
      && (forall c :: c in Categories(es) <==> exists i :: 0 <= i < |slices| && slices[i].labelText == c)
      && (forall i :: 0 <= i < |slices| ==>
            && slices[i].value == CategorySum(es, slices[i].labelText)
            && slices[i].amount == slices[i].value
            && slices[i].percentage == (slices[i].value as real / Total(es) as real) * 100.0
            && slices[i].color == SliceColor(slices[i].labelText, primary))
  {
    SliceLabelsDistinct(es, primary);
    SliceLabelsCover(es, primary);
    SliceValues(es, primary);
  }

  lemma SliceLabelsDistinct(es: seq<Expense>, primary: string)
    requires Total(es) != 0
    ensures var slices := PieData(es, primary);
      forall i, j :: 0 <= i < j < |slices| ==> slices[i].labelText != slices[j].labelText
  {
    SliceFields(es, primary);
  }

  lemma SliceLabelsCover(es: seq<Expense>, primary: string)
    requires Total(es) != 0
    ensures var slices := PieData(es, primary);
      forall c :: c in Categories(es) <==> exists i :: 0 <= i < |slices| && slices[i].labelText == c
  {
    var g := Grouped(es);
    SliceFields(es, primary);
    LabelsAlong(PieData(es, primary), g.order);
    assert forall c :: c in Categories(es) <==> c in g.order;
  }

  lemma LabelsAlong(slices: seq<Slice>, order: seq<string>)
    requires |slices| == |order|
    requires forall i :: 0 <= i < |slices| ==> slices[i].labelText == order[i]
    ensures forall c :: c in order <==> exists i :: 0 <= i < |slices| && slices[i].labelText == c
  {
    forall c | c in order ensures exists i :: 0 <= i < |slices| && slices[i].labelText == c {
      var i :| 0 <= i < |order| && order[i] == c;
      assert slices[i].labelText == c;
    }
  }

  lemma SliceValues(es: seq<Expense>, primary: string)
    requires Total(es) != 0
    ensures var slices := PieData(es, primary);
      forall i :: 0 <= i < |slices| ==>
        && slices[i].value == CategorySum(es, slices[i].labelText)
        && slices[i].amount == slices[i].value
        && slices[i].percentage == (slices[i].value as real / Total(es) as real) * 100.0
        && slices[i].color == SliceColor(slices[i].labelText, primary)
  {
    var slices := PieData(es, primary);
    var g := Grouped(es);
    SliceFields(es, primary);
    forall i | 0 <= i < |slices| ensures slices[i].value == CategorySum(es, slices[i].labelText) {
      assert g.order[i] in g.order;
    }
  }

  /** Slice `i` is entry `i` of `grouped`, coloured and given its share. */
  lemma SliceFields(es: seq<Expense>, primary: string)
    requires Total(es) != 0
    ensures var slices := PieData(es, primary);
      var g := Grouped(es);
      && |slices| == |g.order|
      && (forall i :: 0 <= i < |slices| ==>
            && slices[i].labelText == g.order[i]
            && g.order[i] in g.sums
            && slices[i].value == g.sums[g.order[i]]
            && slices[i].amount == slices[i].value
            && slices[i].percentage == (slices[i].value as real / Total(es) as real) * 100.0
            && slices[i].color == SliceColor(g.order[i], primary))
  {
    var g := Grouped(es);
    assert forall c :: c in g.order ==> c in g.sums;
    forall i | 0 <= i < |g.order| ensures g.order[i] in g.sums {
      assert g.order[i] in g.order;
    }
  }

  function SumValues(slices: seq<Slice>): int
  {
    if slices == [] then 0 else slices[0].value + SumValues(slices[1..])
  }

  function SumPercentages(slices: seq<Slice>): real
  {
    if slices == [] then 0.0 else slices[0].percentage + SumPercentages(slices[1..])
  }

  lemma ShareAdd(a: real, b: real, t: real)
    requires t != 0.0
    ensures (a / t) * 100.0 + (b / t) * 100.0 == ((a + b) / t) * 100.0
  {
  }

  lemma WholeShare(t: real)
    requires t != 0.0
    ensures (t / t) * 100.0 == 100.0
  {
  }

  /** Shares of a common total add up to the share of their sum. */
  lemma {:induction false} PercentagesAdd(slices: seq<Slice>, t: real)
    requires t != 0.0
    requires forall i :: 0 <= i < |slices| ==> slices[i].percentage == (slices[i].value as real / t) * 100.0
    ensures SumPercentages(slices) == (SumValues(slices) as real / t) * 100.0
  {
    if slices != [] {
      PercentagesAdd(slices[1..], t);
      ShareAdd(slices[0].value as real, SumValues(slices[1..]) as real, t);
    }
  }

  lemma {:induction false} ValuesAlong(slices: seq<Slice>, order: seq<string>, sums: map<string, int>)
    requires forall c :: c in order ==> c in sums
    requires |slices| == |order|
    requires forall i :: 0 <= i < |slices| ==> slices[i].value == sums[order[i]]
    ensures SumValues(slices) == SumAlong(order, sums)
  {
    if slices != [] {
      ValuesAlong(slices[1..], order[1..], sums);
    }
  }

  /** The slices' values add up to the total, so (before rounding) their
      percentages add up to 100. */
  lemma SlicesConserveTotal(es: seq<Expense>, primary: string)
    requires Total(es) != 0
    ensures SumValues(PieData(es, primary)) == Total(es)
    ensures SumPercentages(PieData(es, primary)) == 100.0
  {
    var slices := PieData(es, primary);
    var g := Grouped(es);
    var t := Total(es) as real;
    assert |slices| == |g.order|;
    forall i | 0 <= i < |slices|
      ensures slices[i].value == g.sums[g.order[i]]
      ensures slices[i].percentage == (slices[i].value as real / t) * 100.0
    {
    }
    ValuesAlong(slices, g.order, g.sums);
    GroupedConservation(es);
    PercentagesAdd(slices, t);
    assert SumPercentages(slices) == (t / t) * 100.0;
    WholeShare(t);
  }

  /** With the positive amounts the entry form enforces, the total is zero
      exactly for the empty list, so only the empty list has no slices. */
  lemma {:induction false} PositiveTotal(es: seq<Expense>)
    requires forall k :: 0 <= k < |es| ==> es[k].amount > 0
    ensures Total(es) == 0 <==> es == []
    ensures es != [] ==> Total(es) > 0
  {
    if es != [] {
      var init := es[..|es| - 1];
      PositiveTotal(init);
      assert forall k :: 0 <= k < |init| ==> init[k] == es[k];
    }
  }
}
