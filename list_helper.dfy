/** Grouping the ledger into day sections for the list screen: records are
    bucketed by calendar day (input order kept inside a bucket), buckets are
    sorted newest day first, and each bucket gets a title relative to today.
    Timestamps are local-time milliseconds; a calendar day is a whole
    multiple of MsPerDay. */
module ListHelper {
  import opened Expenses
  import opened Selection

  const MsPerDay: int := 1000 * 60 * 60 * 24

  /** Midnight at the start of the calendar day holding timestamp `t`. */
  function StripTime(t: int): (d: int)
    ensures d % MsPerDay == 0 && d <= t < d + MsPerDay
  {
    (t / MsPerDay) * MsPerDay
  }

  /** The start of a day is the only midnight at or before `t` within a day of it. */
  lemma StripTimeUnique(t: int, d: int)
    requires d % MsPerDay == 0 && d <= t < d + MsPerDay
    ensures StripTime(t) == d
  {
    var q := d / MsPerDay;
    assert d == q * MsPerDay;
    DivOfMultiple(q, t - d);
  }

  lemma DivOfMultiple(q: int, r: int)
    requires 0 <= r < MsPerDay
    ensures (q * MsPerDay + r) / MsPerDay == q
  {
  }

  /** Truncating an already truncated timestamp returns it unchanged. */
  lemma StripTimeIdempotent(t: int)
    ensures StripTime(StripTime(t)) == StripTime(t)
  {
    StripTimeUnique(StripTime(t), StripTime(t));
  }

  /** The calendar day a record falls on. */
  function DayOf(e: Expense): int
  {
    StripTime(e.date)
  }

  /** The records of `es` on day `d`, in input order. */
  function ItemsOn(es: seq<Expense>, d: int): seq<Expense>
  {
    Select(es, DayOf, d)
  }

  /** The title of the section for `day`, given the current time `now` and a
      long-date formatter standing for the locale library. */
  function FormatTitle(day: int, now: int, longDate: int -> string): string
  {
    var today := StripTime(now);
    if today - day == 0 then "Today"
    else if today - day == MsPerDay then "Yesterday"
    else longDate(day)
  }

  /** The title of a record's section, stated in calendar terms: "Today" for a
      record on the same day as `now`, "Yesterday" for one in the day just
      before, and the long date otherwise. */
  lemma TitleOfRecordDate(t: int, now: int, longDate: int -> string)
    ensures var today := StripTime(now);
      && (today <= t < today + MsPerDay ==> FormatTitle(StripTime(t), now, longDate) == "Today")
      && (today - MsPerDay <= t < today ==> FormatTitle(StripTime(t), now, longDate) == "Yesterday")
      && (t < today - MsPerDay || today + MsPerDay <= t ==>
            FormatTitle(StripTime(t), now, longDate) == longDate(StripTime(t)))
  {
    var today := StripTime(now);
    if today <= t < today + MsPerDay {
      StripTimeUnique(t, today);
    } else if today - MsPerDay <= t < today {
      assert (today - MsPerDay) % MsPerDay == 0;
      StripTimeUnique(t, today - MsPerDay);
    }
  }

  datatype Bucket = Bucket(day: int, items: seq<Expense>)

  /** A section of the list: its title and the records it shows. */
  datatype Section = Section(title: string, data: seq<Expense>)

  /** Consecutive buckets have strictly decreasing days. */
  ghost predicate NewestFirst(bs: seq<Bucket>)
  {
    forall i :: 0 < i < |bs| ==> bs[i - 1].day > bs[i].day
  }

  ghost predicate DistinctDays(bs: seq<Bucket>)
  {
    forall i, j :: 0 <= i < j < |bs| ==> bs[i].day != bs[j].day
  }

  function DaysOf(bs: seq<Bucket>): (r: seq<int>)
    ensures |r| == |bs| && forall j :: 0 <= j < |bs| ==> r[j] == bs[j].day
  {
    seq(|bs|, j requires 0 <= j < |bs| => bs[j].day)
  }

  /** Inserts `b` before the first bucket whose day is not newer than its own. */
  function Insert(b: Bucket, bs: seq<Bucket>): (r: seq<Bucket>)
    ensures multiset(r) == multiset(bs) + multiset{b}
    ensures r[0] == (if bs == [] || b.day >= bs[0].day then b else bs[0])
  {
    if bs == [] then [b]
    else if b.day >= bs[0].day then [b] + bs
    else
      assert bs == [bs[0]] + bs[1..];
      [bs[0]] + Insert(b, bs[1..])
  }

  /** Inserting a bucket of a new day into a newest-first list keeps it newest first. */
  lemma {:induction false} InsertNewestFirst(b: Bucket, bs: seq<Bucket>)
    requires NewestFirst(bs)
    requires forall c :: c in bs ==> c.day != b.day
    ensures NewestFirst(Insert(b, bs))
  {
    if bs != [] && b.day < bs[0].day {
      var tail := bs[1..];
      assert forall c :: c in tail ==> c in bs;
      InsertNewestFirst(b, tail);
      var rest := Insert(b, tail);
      assert NewestFirst([bs[0]] + rest) by {
        var r := [bs[0]] + rest;
        forall i | 0 < i < |r| ensures r[i - 1].day > r[i].day {
          if i > 1 {
            assert r[i - 1] == rest[i - 2] && r[i] == rest[i - 1];
          }
        }
      }
    }
  }

  /** The sort with comparator `(a, b) => b.date - a.date`: newest day first,
      stable for equal days. */
  function SortNewestFirst(bs: seq<Bucket>): (r: seq<Bucket>)
    ensures multiset(r) == multiset(bs)
  {
    if bs == [] then []
    else
      assert bs == [bs[0]] + bs[1..];
      Insert(bs[0], SortNewestFirst(bs[1..]))
  }

  /** Buckets of distinct days come out of the sort strictly newest first. */
  lemma {:induction false} SortNewestFirstSorted(bs: seq<Bucket>)
    requires DistinctDays(bs)
    ensures NewestFirst(SortNewestFirst(bs))
  {
    if bs != [] {
      var tail := bs[1..];
      assert DistinctDays(tail) by {
        forall i, j | 0 <= i < j < |tail| ensures tail[i].day != tail[j].day {
          assert tail[i] == bs[i + 1] && tail[j] == bs[j + 1];
        }
      }
      SortNewestFirstSorted(tail);
      var rest := SortNewestFirst(tail);
      forall c | c in rest ensures c.day != bs[0].day {
        assert c in multiset(tail);
        var k :| 0 <= k < |tail| && tail[k] == c;
        assert bs[k + 1] == c;
      }
      InsertNewestFirst(bs[0], rest);
    }
  }

  lemma {:induction false} NewestFirstPairwise(bs: seq<Bucket>)
    requires NewestFirst(bs)
    ensures forall i, j :: 0 <= i < j < |bs| ==> bs[i].day > bs[j].day
  {
    if bs != [] {
      var init := bs[..|bs| - 1];
      assert NewestFirst(init) by {
        forall i | 0 < i < |init| ensures init[i - 1].day > init[i].day {
          assert init[i - 1] == bs[i - 1] && init[i] == bs[i];
        }
      }
      NewestFirstPairwise(init);
      forall i, j | 0 <= i < j < |bs| ensures bs[i].day > bs[j].day {
        if j < |bs| - 1 {
          assert bs[i] == init[i] && bs[j] == init[j];
        } else if i < j - 1 {
          assert bs[i] == init[i] && bs[j - 1] == init[j - 1];
        }
      }
    }
  }

  /** What `groupExpensesByDate` returns for `es`: one section per calendar day
      present in `es` (the section at position `i` is for `days[i]`), days
      strictly newest first, each section holding that day's records in input
      order under the title of its day. */
  ghost predicate IsDateGrouping(es: seq<Expense>, now: int, longDate: int -> string,
                                 sections: seq<Section>, days: seq<int>)
  {
    && |sections| == |days|
    && (forall i, j :: 0 <= i < j < |days| ==> days[i] > days[j])
    && (forall k :: 0 <= k < |es| ==> DayOf(es[k]) in days)
    && (forall i :: 0 <= i < |days| ==> ItemsOn(es, days[i]) != [])
    && (forall i :: 0 <= i < |days| ==>
          sections[i] == Section(FormatTitle(days[i], now, longDate), ItemsOn(es, days[i])))
  }

  /** A bucket holds exactly the records of its day, and at least one. */
  ghost predicate HoldsItsDay(es: seq<Expense>, b: Bucket)
  {
    b.items == ItemsOn(es, b.day) && b.items != []
  }

  /** The final `map`: one titled section per bucket. */
  function Titled(bs: seq<Bucket>, now: int, longDate: int -> string): (r: seq<Section>)
    ensures |r| == |bs|
    ensures forall j :: 0 <= j < |bs| ==> r[j] == Section(FormatTitle(bs[j].day, now, longDate), bs[j].items)
  {
    seq(|bs|, j requires 0 <= j < |bs| => Section(FormatTitle(bs[j].day, now, longDate), bs[j].items))
  }

  /** Every bucket out of the sort is one of the buckets that went in. */
  lemma SortedFromBuckets(es: seq<Expense>, buckets: seq<Bucket>, j: int)
    requires forall m :: 0 <= m < |buckets| ==> HoldsItsDay(es, buckets[m])
    requires 0 <= j < |SortNewestFirst(buckets)|
    ensures HoldsItsDay(es, SortNewestFirst(buckets)[j])
  {
    var sorted := SortNewestFirst(buckets);
    assert sorted[j] in multiset(buckets);
    var m :| 0 <= m < |buckets| && buckets[m] == sorted[j];
  }

  /** Every day that went into the sort comes out of it. */
  lemma SortedKeepsDay(buckets: seq<Bucket>, d: int)
    requires d in DaysOf(buckets)
    ensures d in DaysOf(SortNewestFirst(buckets))
  {
    var sorted := SortNewestFirst(buckets);
    var j :| 0 <= j < |buckets| && DaysOf(buckets)[j] == d;
    assert buckets[j] in multiset(sorted);
    var m :| 0 <= m < |sorted| && sorted[m] == buckets[j];
    assert DaysOf(sorted)[m] == d;
  }

  /** Buckets of distinct days come out of the sort with their days strictly decreasing. */
  lemma SortedDaysDecrease(buckets: seq<Bucket>)
    requires DistinctDays(buckets)
    ensures var days := DaysOf(SortNewestFirst(buckets));
      forall i, j :: 0 <= i < j < |days| ==> days[i] > days[j]
  {
    SortNewestFirstSorted(buckets);
    NewestFirstPairwise(SortNewestFirst(buckets));
  }

  /** The titled sorted buckets are that day's records under that day's title. */
  lemma SortedSections(es: seq<Expense>, buckets: seq<Bucket>, now: int, longDate: int -> string)
    requires forall j :: 0 <= j < |buckets| ==> HoldsItsDay(es, buckets[j])
    ensures var sorted := SortNewestFirst(buckets);
      var days := DaysOf(sorted);
      var sections := Titled(sorted, now, longDate);
      forall j :: 0 <= j < |days| ==>
        && ItemsOn(es, days[j]) != []
        && sections[j] == Section(FormatTitle(days[j], now, longDate), ItemsOn(es, days[j]))
  {
    var sorted := SortNewestFirst(buckets);
    forall j | 0 <= j < |sorted| ensures HoldsItsDay(es, sorted[j]) {
      SortedFromBuckets(es, buckets, j);
    }
  }

  /** Every record's day is a day of the sorted buckets. */
  lemma SortedCovers(es: seq<Expense>, buckets: seq<Bucket>)
    requires forall k :: 0 <= k < |es| ==> DayOf(es[k]) in DaysOf(buckets)
    ensures forall k :: 0 <= k < |es| ==> DayOf(es[k]) in DaysOf(SortNewestFirst(buckets))
  {
    forall k | 0 <= k < |es| ensures DayOf(es[k]) in DaysOf(SortNewestFirst(buckets)) {
      SortedKeepsDay(buckets, DayOf(es[k]));
    }
  }

  /** Sorting and titling buckets that partition `es` by day gives its date grouping. */
  lemma SortedBucketsGroup(es: seq<Expense>, buckets: seq<Bucket>, now: int, longDate: int -> string)
    requires DistinctDays(buckets)
    requires forall j :: 0 <= j < |buckets| ==> HoldsItsDay(es, buckets[j])
    requires forall k :: 0 <= k < |es| ==> DayOf(es[k]) in DaysOf(buckets)
    ensures var sorted := SortNewestFirst(buckets);
      IsDateGrouping(es, now, longDate, Titled(sorted, now, longDate), DaysOf(sorted))
  {
    SortedDaysDecrease(buckets);
    SortedSections(es, buckets, now, longDate);
    SortedCovers(es, buckets);
  }

  /** The buckets in first-met order, as `Object.values(groups)` yields them. */
  function BucketsOf(groups: map<int, seq<Expense>>, keys: seq<int>): (bs: seq<Bucket>)
    requires forall j :: 0 <= j < |keys| ==> keys[j] in groups
    ensures |bs| == |keys|
    ensures forall j :: 0 <= j < |keys| ==> bs[j] == Bucket(keys[j], groups[keys[j]])
  {
    seq(|keys|, j requires 0 <= j < |keys| => Bucket(keys[j], groups[keys[j]]))
  }

  /** The finished dictionary gives buckets of distinct days, each holding
      exactly its day's records, covering every record. */
  lemma IndexBuckets(es: seq<Expense>, groups: map<int, seq<Expense>>, keys: seq<int>)
    requires DayIndex(es, groups, keys)
    ensures forall j :: 0 <= j < |keys| ==> keys[j] in groups
    ensures var bs := BucketsOf(groups, keys);
      && DistinctDays(bs)
      && (forall j :: 0 <= j < |bs| ==> HoldsItsDay(es, bs[j]))
      && (forall k :: 0 <= k < |es| ==> DayOf(es[k]) in DaysOf(bs))
  {
    assert forall d :: d in keys ==> d in groups;
    forall j | 0 <= j < |keys| ensures keys[j] in groups {
      assert keys[j] in keys;
    }
    var bs := BucketsOf(groups, keys);
    forall j | 0 <= j < |bs| ensures HoldsItsDay(es, bs[j]) {
      assert keys[j] in keys;
    }
    forall k | 0 <= k < |es| ensures DayOf(es[k]) in DaysOf(bs) {
      var j :| 0 <= j < |keys| && keys[j] == DayOf(es[k]);
      assert DaysOf(bs)[j] == keys[j];
    }
  }

  /** The loop state after reading `s`: `groups` maps each day met so far to
      its records in input order, and `keys` lists those days once each, in
      the order they were first met. */
  ghost predicate DayIndex(s: seq<Expense>, groups: map<int, seq<Expense>>, keys: seq<int>)
  {
    && Distinct(keys)
    && (forall d :: d in groups <==> d in keys)
    && (forall k :: 0 <= k < |s| ==> DayOf(s[k]) in groups)
    && (forall d :: d in groups ==> groups[d] == ItemsOn(s, d) && groups[d] != [])
  }

  /** A day no record falls on has no records. */
  lemma NoItemsOnAbsentDay(s: seq<Expense>, d: int)
    requires forall k :: 0 <= k < |s| ==> DayOf(s[k]) != d
    ensures ItemsOn(s, d) == []
  {
    SelectNone(s, DayOf, d);
  }

  /** One step of the `forEach`: the record is pushed onto its day's bucket,
      which is created (and its day appended to `keys`) on first use. */
  lemma DayIndexStep(s: seq<Expense>, groups: map<int, seq<Expense>>, keys: seq<int>, item: Expense)
    requires DayIndex(s, groups, keys)
    ensures var date := DayOf(item);
      DayIndex(s + [item],
               groups[date := (if date in groups then groups[date] else []) + [item]],
               if date in groups then keys else keys + [date])
  {
    var date := DayOf(item);
    var groups' := groups[date := (if date in groups then groups[date] else []) + [item]];
    var keys' := if date in groups then keys else keys + [date];
    forall d | d in groups'
      ensures groups'[d] == ItemsOn(s + [item], d)
    {
      SelectSnoc(s, DayOf, d, item);
      if d == date && date !in groups {
        NoItemsOnAbsentDay(s, d);
      }
    }
    assert Distinct(keys') by {
      if date !in groups {
        forall i, j | 0 <= i < j < |keys'| ensures keys'[i] != keys'[j] {
          if j == |keys| {
            assert keys'[i] == keys[i];
            assert keys[i] in groups;
          }
        }
      }
    }
    forall k | 0 <= k < |s + [item]| ensures DayOf((s + [item])[k]) in groups' {
      if k < |s| {
        assert (s + [item])[k] == s[k];
      }
    }
  }

  /** `groupExpensesByDate`: `now` is the current time the source reads from
      the clock, `longDate` the locale's long-date formatter. The ghost
      `days` gives the day of each returned section. */
  method GroupExpensesByDate(expenses: seq<Expense>, now: int, longDate: int -> string)
    returns (sections: seq<Section>, ghost days: seq<int>)
    ensures IsDateGrouping(expenses, now, longDate, sections, days)
    ensures expenses == [] ==> sections == []
  {
    if |expenses| == 0 {
      return [], [];
    }
    var groups: map<int, seq<Expense>> := map[];
    var keys: seq<int> := [];
    var i := 0;
    while i < |expenses|
      invariant 0 <= i <= |expenses|
      invariant DayIndex(expenses[..i], groups, keys)
    {
      var item := expenses[i];
      var date := StripTime(item.date);
      DayIndexStep(expenses[..i], groups, keys, item);
      var bucket := if date in groups then groups[date] else [];
      if date !in groups {
        keys := keys + [date];
      }
      groups := groups[date := bucket + [item]];
      assert expenses[..i + 1] == expenses[..i] + [item];
      i := i + 1;
    }
    assert expenses[..i] == expenses;
    IndexBuckets(expenses, groups, keys);
    var buckets := BucketsOf(groups, keys);
    var sorted := SortNewestFirst(buckets);
    SortedBucketsGroup(expenses, buckets, now, longDate);
    sections := Titled(sorted, now, longDate);
    days := DaysOf(sorted);
  }

  /** The number of records shown over all sections. */
  function TotalItems(sections: seq<Section>): nat
  {
    if sections == [] then 0 else |sections[0].data| + TotalItems(sections[1..])
  }

  function One(e: Expense): int
  {
    1
  }

  lemma {:induction false} WeightOne(s: seq<Expense>)
    ensures Weight(s, One) == |s|
  {
    if s != [] {
      WeightOne(s[..|s| - 1]);
    }
  }

  lemma {:induction false} SectionSizes(es: seq<Expense>, sections: seq<Section>, days: seq<int>)
    requires |sections| == |days|
    requires forall i :: 0 <= i < |days| ==> sections[i].data == ItemsOn(es, days[i])
    ensures TotalItems(sections) == WeightOver(es, DayOf, One, days)
  {
    if sections != [] {
      SectionSizes(es, sections[1..], days[1..]);
      WeightOne(ItemsOn(es, days[0]));
    }
  }

  /** Every record lands in some section, so the section sizes add up to the
      number of records. */
  lemma GroupSizesSum(es: seq<Expense>, now: int, longDate: int -> string,
                      sections: seq<Section>, days: seq<int>)
    requires IsDateGrouping(es, now, longDate, sections, days)
    ensures TotalItems(sections) == |es|
  {
    SectionSizes(es, sections, days);
    forall x | x in es ensures DayOf(x) in days {
      var k :| 0 <= k < |es| && es[k] == x;
    }
    PartitionSum(es, DayOf, One, days);
    WeightOne(es);
  }

  /** A section holds exactly the records of its day, so each record is in
      exactly one section: the one for the day it falls on. */
  lemma GroupMembers(es: seq<Expense>, now: int, longDate: int -> string,
                     sections: seq<Section>, days: seq<int>, x: Expense)
    requires IsDateGrouping(es, now, longDate, sections, days)
    ensures forall i :: 0 <= i < |sections| ==> (x in sections[i].data <==> x in es && DayOf(x) == days[i])
    ensures x in es ==> exists i :: 0 <= i < |sections| && x in sections[i].data
    ensures forall i, j ::
              0 <= i < |sections| && 0 <= j < |sections| && x in sections[i].data && x in sections[j].data
              ==> i == j
  {
    forall i | 0 <= i < |sections| ensures x in sections[i].data <==> x in es && DayOf(x) == days[i] {
      SelectMembers(es, DayOf, days[i], x);
    }
    if x in es {
      var k :| 0 <= k < |es| && es[k] == x;
      var i :| 0 <= i < |days| && days[i] == DayOf(x);
      assert x in sections[i].data;
    }
  }

  /** Within a section, records keep their input order: for an input split
      into an earlier and a later part, each section lists that day's records
      of the earlier part before those of the later part. */
  lemma GroupKeepsInputOrder(a: seq<Expense>, b: seq<Expense>, now: int, longDate: int -> string,
                             sections: seq<Section>, days: seq<int>)
    requires IsDateGrouping(a + b, now, longDate, sections, days)
    ensures forall i :: 0 <= i < |sections| ==> sections[i].data == ItemsOn(a, days[i]) + ItemsOn(b, days[i])
  {
    forall i | 0 <= i < |sections| ensures sections[i].data == ItemsOn(a, days[i]) + ItemsOn(b, days[i]) {
      SelectAppend(a, b, DayOf, days[i]);
    }
  }

  /** Records that all fall on one day form a single section, titled for
      that day, listing them in input order. */
  lemma SameDayOneSection(es: seq<Expense>, now: int, longDate: int -> string,
                          sections: seq<Section>, days: seq<int>)
    requires es != []
    requires forall k :: 0 <= k < |es| ==> DayOf(es[k]) == DayOf(es[0])
    requires IsDateGrouping(es, now, longDate, sections, days)
    ensures |sections| == 1 && sections[0].data == es
    ensures sections[0].title == FormatTitle(DayOf(es[0]), now, longDate)
  {
    var d := DayOf(es[0]);
    forall i | 0 <= i < |days| ensures days[i] == d {
      var z := ItemsOn(es, days[i])[0];
      SelectMembers(es, DayOf, days[i], z);
    }
    StrictlyDecreasingUnique(days, [d]);
    SelectAll(es, DayOf, d);
  }

  /** Two strictly decreasing sequences with the same elements are equal. */
  lemma {:induction false} StrictlyDecreasingUnique(a: seq<int>, b: seq<int>)
    requires forall i, j :: 0 <= i < j < |a| ==> a[i] > a[j]
    requires forall i, j :: 0 <= i < j < |b| ==> b[i] > b[j]
    requires forall x :: x in a <==> x in b
    ensures a == b
  {
    assert a != [] ==> a[0] in a && a[0] in b;
    assert b != [] ==> b[0] in b && b[0] in a;
    if a != [] && b != [] {
      var ka :| 0 <= ka < |b| && b[ka] == a[0];
      var kb :| 0 <= kb < |a| && a[kb] == b[0];
      assert a[0] >= a[kb] && b[0] >= b[ka];
      forall x ensures x in a[1..] <==> x in b[1..] {
        if x in a[1..] {
          var i :| 1 <= i < |a| && a[i] == x;
          assert x < a[0];
          assert x in b;
        }
        if x in b[1..] {
          var j :| 1 <= j < |b| && b[j] == x;
          assert x < b[0];
          assert x in a;
        }
      }
      StrictlyDecreasingUnique(a[1..], b[1..]);
      assert a == [a[0]] + a[1..] && b == [b[0]] + b[1..];
    }
  }

  /** The grouping is determined by the input: any two results that meet the
      description are the same sections for the same days. */
  lemma DateGroupingUnique(es: seq<Expense>, now: int, longDate: int -> string,
                           s1: seq<Section>, d1: seq<int>, s2: seq<Section>, d2: seq<int>)
    requires IsDateGrouping(es, now, longDate, s1, d1)
    requires IsDateGrouping(es, now, longDate, s2, d2)
    ensures d1 == d2 && s1 == s2
  {
    forall d ensures d in d1 <==> d in d2 {
      if d in d1 {
        DayPresent(es, now, longDate, s1, d1, s2, d2, d);
      }
      if d in d2 {
        DayPresent(es, now, longDate, s2, d2, s1, d1, d);
      }
    }
    StrictlyDecreasingUnique(d1, d2);
  }

  lemma DayPresent(es: seq<Expense>, now: int, longDate: int -> string,
                   s1: seq<Section>, d1: seq<int>, s2: seq<Section>, d2: seq<int>, d: int)
    requires IsDateGrouping(es, now, longDate, s1, d1)
    requires IsDateGrouping(es, now, longDate, s2, d2)
    requires d in d1
    ensures d in d2
  {
    var i :| 0 <= i < |d1| && d1[i] == d;
    var y := ItemsOn(es, d)[0];
    SelectMembers(es, DayOf, d, y);
    var k :| 0 <= k < |es| && es[k] == y;
    assert DayOf(es[k]) in d2;
  }
}
