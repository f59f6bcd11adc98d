# Expense ledger core, modelled in Dafny

This project models the data-handling core of a personal expense manager written in
TypeScript/React Native. It covers three parts:

- **The ledger store** (`context/expenseContext.tsx`). The provider's `expenses` state is loaded
  once from storage as `storedExpenses ?? []`, and there are three mutations:
  - `addExpense` puts the new record in front of the list.
  - `deleteExpense` filters out the records with a given id.
  - `updateExpense` replaces, in place, every record whose id matches.

  Each mutation installs the new list as the state and hands that same list to a whole-list
  save. The store is the class `ExpenseContext.ExpenseStore`. Its `expenses` field is the
  state. A ghost field `saved` is the list last handed to the save (`None` until the first save
  of the session). The new lists are the pure functions `Prepended`, `WithoutId` and `Replaced`;
  the lemmas beside them state what each mutation keeps and what it changes.
- **Date grouping for the list screen** (`utils/listHelper.ts`, `groupExpensesByDate`).
  - Timestamps are local-time milliseconds.
  - `StripTime` truncates a timestamp to the midnight that starts its calendar day.
  - The `forEach` that fills the `groups` dictionary is a `while` loop over a `map` from day to
    records. The loop also keeps the list of days in the order they were first met, which is
    the order `Object.values` yields.
  - The comparator sort is a stable insertion sort, newest day first.
  - Each bucket is then titled "Today", "Yesterday" or the long date.

  The current time and the long-date formatter are parameters of the method.
  `IsDateGrouping` states what the result is, and the lemmas about it give the counting, order
  and membership properties.
- **Category aggregation for the chart** (`components/charts/ExpensePieChart.tsx`, the `total`,
  `grouped` and `pieData` computations). `total` is the sum of all amounts. `grouped` is the
  reducer folded into a string-keyed record, kept as a `map` plus its key insertion order,
  which is the order `Object.entries` lists the keys in. `pieData` is empty when the total is
  zero; otherwise it holds one slice per entry, with an exact percentage.

The shared module `Selection` holds the filter-by-key and weighted-sum functions. Its lemma
`PartitionSum` proves that summing a weight key by key, over distinct keys that cover every
record, gives the weight of the whole list. This one lemma gives both "the section sizes add
up to the number of records" and "the category sums add up to the total".

Amounts are integers in minor currency units. Percentages are exact reals.

Three behaviours of the source shape the model:
- `addExpense` adds the record without checking whether its id is already taken
  (context/expenseContext.tsx:31). So `AddExpense` has no precondition, and id uniqueness is
  proved only on the condition that the new id is not already present.
- The chart accepts any category name and gives any category outside the eight known ones the
  theme's primary colour (components/charts/ExpensePieChart.tsx:34-36). So the `category` field
  of `Expense` is a `string`, not a closed set of names.
- `saveExpense` catches a failed write and only logs it (storage/expenseStorage.ts:12-14). No
  failure reaches the store, so the mutations have no error result.

## Model

| member | source | states |
|---|---|---|
| `ExpenseContext.Prepended` | context/expenseContext.tsx:31 | the new list is one longer; its first record is the added one and the rest is the old list unchanged |
| `ExpenseContext.WithoutId` | context/expenseContext.tsx:37 | the filtered list is no longer than the old one and has no record with the deleted id |
| `ExpenseContext.Replaced` | context/expenseContext.tsx:43-45 | the mapped list has the same sequence of ids; position i holds the new record where the old id matched and the old record otherwise |
| `ExpenseContext.AddKeepsUniqueIff` | context/expenseContext.tsx:31 | from a list with unique ids, adding keeps ids unique if and only if the new id is not already present (add itself does not check) |
| `ExpenseContext.DeleteKeepsOthers` | context/expenseContext.tsx:37 | a record is in the result exactly when it was in the old list and its id differs from the deleted id |
| `ExpenseContext.DeleteKeepsOrder` | context/expenseContext.tsx:37 | deleting from a concatenation is the concatenation of the deletions, so relative order is kept |
| `ExpenseContext.DeleteAbsentIsNoop` | context/expenseContext.tsx:37 | deleting an id that no record carries returns the list unchanged |
| `ExpenseContext.DeleteIdempotent` | context/expenseContext.tsx:37 | deleting the same id twice gives the same list as deleting it once |
| `ExpenseContext.DeleteKeepsUnique` | context/expenseContext.tsx:37 | deleting keeps ids unique |
| `ExpenseContext.DeleteRemovesOne` | context/expenseContext.tsx:37 | with unique ids, deleting a present id removes exactly one record |
| `ExpenseContext.UpdateAbsentIsNoop` | context/expenseContext.tsx:43-45 | updating with an id no record carries leaves the list unchanged, with no error |
| `ExpenseContext.UpdateKeepsUnique` | context/expenseContext.tsx:43-45 | updating keeps ids unique, and with unique ids at most one position changes |
| `ExpenseContext.ExpenseStore.constructor` | context/expenseContext.tsx:21 | the state starts as the empty list, with nothing saved |
| `ExpenseContext.ExpenseStore.Load` | context/expenseContext.tsx:23-28 | the state becomes the stored list, or the empty list when nothing is stored; nothing is written back |
| `ExpenseContext.ExpenseStore.Install` | context/expenseContext.tsx:32-33 | the new list becomes the state and exactly that list is the one saved |
| `ExpenseContext.ExpenseStore.AddExpense` | context/expenseContext.tsx:30-34 | the state becomes the new record followed by the old list, length grows by one, the saved list is the new state, and ids stay unique when the new id was absent |
| `ExpenseContext.ExpenseStore.DeleteExpense` | context/expenseContext.tsx:36-40 | the state becomes the old list without that id, the saved list is the new state, an absent id changes nothing, and unique ids stay unique |
| `ExpenseContext.ExpenseStore.UpdateExpense` | context/expenseContext.tsx:42-48 | the state becomes the replaced list with the same ids, the saved list is the new state, an unknown id changes nothing, and unique ids stay unique |
| `ListHelper.StripTime` | utils/listHelper.ts:11-12 | the result is a whole number of days, at or before the timestamp, and less than a day before it |
| `ListHelper.StripTimeUnique` | utils/listHelper.ts:11-12 | the midnight that starts a timestamp's day is the only one meeting that description |
| `ListHelper.StripTimeIdempotent` | utils/listHelper.ts:11-12 | truncating an already truncated timestamp returns it unchanged |
| `ListHelper.TitleOfRecordDate` | utils/listHelper.ts:23-36 | a record on the current day is titled "Today"; one in the day just before is titled "Yesterday"; any other is titled with its long date |
| `ListHelper.Insert` | utils/listHelper.ts:37-38 | inserting gives the old buckets plus the new one as a multiset, with the new one first when it is not older than the first bucket |
| `ListHelper.InsertNewestFirst` | utils/listHelper.ts:37-38 | inserting a bucket for a new day into a newest-first list keeps it strictly newest first |
| `ListHelper.SortNewestFirst` | utils/listHelper.ts:37-38 | the sort returns a permutation of its input |
| `ListHelper.SortNewestFirstSorted` | utils/listHelper.ts:37-38 | buckets of distinct days come out of the sort strictly newest first |
| `ListHelper.DayIndexStep` | utils/listHelper.ts:14-22 | pushing one record keeps the dictionary mapping each day met so far to its records in input order, with each day listed once in first-met order |
| `ListHelper.IndexBuckets` | utils/listHelper.ts:37 | the finished dictionary's values, in first-met order, are buckets of distinct days, each holding exactly its day's records, and every record's day has a bucket |
| `ListHelper.SortedBucketsGroup` | utils/listHelper.ts:37-42 | sorting buckets that partition the records by day, then mapping each to a section with its day's title and its records, yields their date grouping: days strictly newest first, one section per day present |
| `ListHelper.GroupExpensesByDate` | utils/listHelper.ts:3-43 | empty input gives no sections; otherwise there is one section per day present, days strictly newest first, and each section holds that day's records in input order under that day's title |
| `ListHelper.GroupSizesSum` | utils/listHelper.ts:14-22 | the section sizes add up to the number of input records |
| `ListHelper.GroupMembers` | utils/listHelper.ts:15-21 | a record is in a section exactly when it is in the input and falls on that section's day, so every input record is in exactly one section |
| `ListHelper.GroupKeepsInputOrder` | utils/listHelper.ts:21 | for an input split into an earlier and a later part, each section lists the earlier part's records of its day before the later part's |
| `ListHelper.SameDayOneSection` | utils/listHelper.ts:14-22 | records that all fall on one day, such as two entered the same day, form a single section that lists them in input order, titled for that day |
| `ListHelper.DateGroupingUnique` | utils/listHelper.ts:3-43 | the description of the grouping determines it: two results meeting it have the same days and sections |
| `PieChart.Grouped` | components/charts/ExpensePieChart.tsx:22-27 | the keys are exactly the categories present, each listed once, and each maps to the sum of that category's amounts |
| `PieChart.AddIntoStep` | components/charts/ExpensePieChart.tsx:24 | one reducer step adds the amount to its category's entry (starting from 0 for a new key) and keeps the keys and sums correct |
| `PieChart.NoneOfAbsentCategory` | components/charts/ExpensePieChart.tsx:24 | a category not in the list has sum 0, the value the reducer starts a new key from |
| `PieChart.GroupedConservation` | components/charts/ExpensePieChart.tsx:17-27 | the values of `grouped` add up to `total` |
| `PieChart.SliceColor` | components/charts/ExpensePieChart.tsx:34-36 | a category outside the eight known ones gets the theme's primary colour; a known one gets its own colour |
| `PieChart.PieData` | components/charts/ExpensePieChart.tsx:29-41 | a zero total, including the empty list, gives no slices; otherwise there is one slice per entry of `grouped` |
| `PieChart.OneSlicePerCategory` | components/charts/ExpensePieChart.tsx:32-40 | slice labels are distinct and are exactly the categories present; each slice's value and amount are its category's sum; its percentage is that sum over the total, times 100 |
| `PieChart.PercentagesAdd` | components/charts/ExpensePieChart.tsx:38 | shares of a common total add up to the share of their sum |
| `PieChart.SlicesConserveTotal` | components/charts/ExpensePieChart.tsx:29-41 | when the total is not zero, the slice values add up to the total and the percentages, before rounding, add up to 100 |
| `PieChart.PositiveTotal` | components/charts/ExpensePieChart.tsx:30 | with positive amounts, the total is zero exactly for the empty list, so only the empty list has no slices |
| `Selection.PartitionSum` | components/charts/ExpensePieChart.tsx:17-27 | over distinct keys covering every record, the per-key weights add up to the weight of the whole list |

## Left out

- Storage I/O is not modelled. The save (`saveExpense`, AsyncStorage, `JSON.stringify`) is the ghost field `saved`. The load (`getExpenseList`, `JSON.parse`) is the `Option` passed to `Load`: empty, missing or unreadable data reach the store as `None`. Errors the save logs are not modelled either.
- Asynchrony is not modelled: the `useEffect` load timing, `await`, and the handlers' capture of a possibly stale `expenses`. Each method call acts on the current state.
- Time zones and daylight-saving changes are not modelled. `StripTime` treats every local day as lasting 86,400,000 ms, which is what makes `formatTitle`'s millisecond difference a whole number of days. On a day when the clocks change, that difference is not a whole number, and the source then gives the long date instead of "Yesterday". The model does not capture this.
- The `toISOString` dictionary key is replaced by the midnight timestamp it encodes, which is one-to-one with it.
- The long-date formatter (`Intl.DateTimeFormat`, en-GB) is the parameter `longDate`. The clock read `new Date()` is the parameter `now`. The source reads the clock again for each section it titles (utils/listHelper.ts:24, called once per group at :40); the model reads it once for the whole call, so a grouping that runs across midnight, where early and late sections see different days as "Today", is not modelled.
- Amounts are exact integers, not JavaScript floating-point numbers. The `toFixed(1)` and `toFixed(0)` display rounding is left out.
- `Object.entries` lists integer-like keys (such as "12") before the other keys, in numeric order. The model always uses insertion order, which is what the category names in use get.
- The chart's rendering, the `selectedSlice` state and the focus effects are presentation and are not modelled.
- `storage/expenseStorage.ts` has its own `updateExpense`, which repeats `Replaced` over the stored list. It is not part of this model.
- The form schema is not modelled. Its "amount is positive" rule appears only as the precondition of `PositiveTotal`.
- `Total` and `FormatTitle` have no postconditions. They are definitions: the sum of the amounts, and the three-way title choice. What they mean is stated by `GroupedConservation`, `SlicesConserveTotal` and `TitleOfRecordDate`.
- PieChart.Grouped: holds only for category names that are not property names inherited from JavaScript's `Object.prototype` ("toString", "valueOf", "constructor", "hasOwnProperty", "__proto__" and the like). For those, `acc[c] || 0` at components/charts/ExpensePieChart.tsx:24 reads the inherited value, which is truthy, so `+ amount` concatenates strings and the slice gets a string value and a NaN percentage. Assigning to "__proto__" goes to the prototype setter, so that category never becomes an entry and its amount is lost. The model treats every name as a plain key, so `GroupedConservation`, `OneSlicePerCategory` and `SlicesConserveTotal` hold here for every string. The app's category picker offers only the eight known names, none of them inherited.
- ListHelper.GroupExpensesByDate: a record whose date is an Invalid Date makes `toISOString()` (utils/listHelper.ts:16) throw a RangeError, so the whole grouping throws. Dates are integers in the model, so that input cannot be written and the throw is not modelled.
- ListHelper.StripTime: gives every timestamp its own calendar day. The source rebuilds the day with `new Date(year, month, day)` (utils/listHelper.ts:11-12), and JavaScript reads a year from 0 to 99 there as 1900 to 1999. So in the source a record dated in years 0-99 shares the bucket, dictionary key and title of the day 1900 years later. The model does not capture this, and `GroupExpensesByDate` and `GroupMembers` place each record on its own day. Only records dated before the year 100 are affected.
