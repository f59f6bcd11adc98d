/** The ledger store: the provider's `expenses` state, its initial load, and
    the three mutations. Each mutation computes the new list as a pure value,
    installs it as the state and hands the same list to a whole-list save. */
module ExpenseContext {
  import opened Expenses
  import opened Selection

  /** The list after `addExpense`: the new record first, then the old list. */
  function Prepended(e: Expense, es: seq<Expense>): (r: seq<Expense>)
    ensures |r| == |es| + 1 && r[0] == e && r[1..] == es
  {
    [e] + es
  }

  /** The list after `deleteExpense`: the records whose id differs from `id`,
      in their original relative order. */
  function WithoutId(es: seq<Expense>, id: string): (r: seq<Expense>)
    ensures |r| <= |es|
    ensures !HasId(r, id)
  {
    Select(es, (e: Expense) => e.id != id, true)
  }

  /** The list after `updateExpense`: every record whose id matches that of `x`
      is replaced by `x`, in place; every other record is kept. */
  function Replaced(es: seq<Expense>, x: Expense): (r: seq<Expense>)
    ensures Ids(r) == Ids(es)
    ensures forall i :: 0 <= i < |es| ==> r[i] == (if es[i].id == x.id then x else es[i])
  {
    seq(|es|, i requires 0 <= i < |es| => if es[i].id == x.id then x else es[i])
  }

  /** Adding keeps ids unique exactly when the new id is not already taken:
      `addExpense` itself does not check. */
  lemma AddKeepsUniqueIff(e: Expense, es: seq<Expense>)
    requires UniqueIds(es)
    ensures UniqueIds(Prepended(e, es)) <==> !HasId(es, e.id)
  {
    var r := Prepended(e, es);
    if HasId(es, e.id) {
      var k :| 0 <= k < |es| && es[k].id == e.id;
      assert r[0].id == r[k + 1].id;
    } else {
      forall i, j | 0 <= i < |r| && 0 <= j < |r| && i != j ensures r[i].id != r[j].id {
        if i > 0 && j > 0 {
          assert r[i] == es[i - 1] && r[j] == es[j - 1];
        } else if i == 0 {
          assert r[j] == es[j - 1];
        } else {
          assert r[i] == es[i - 1];
        }
      }
    }
  }

  /** Deleting keeps exactly the old records whose id differs. */
  lemma DeleteKeepsOthers(es: seq<Expense>, id: string, x: Expense)
    ensures x in WithoutId(es, id) <==> x in es && x.id != id
  {
    SelectMembers(es, (e: Expense) => e.id != id, true, x);
  }

  /** Deleting keeps relative order: records from an earlier part of the list
      stay before records from a later part. */
  lemma DeleteKeepsOrder(a: seq<Expense>, b: seq<Expense>, id: string)
    ensures WithoutId(a + b, id) == WithoutId(a, id) + WithoutId(b, id)
  {
    SelectAppend(a, b, (e: Expense) => e.id != id, true);
  }

  /** Deleting an id that is not present returns the list unchanged. */
  lemma {:induction false} DeleteAbsentIsNoop(es: seq<Expense>, id: string)
    requires !HasId(es, id)
    ensures WithoutId(es, id) == es
  {
    if es != [] {
      var init := es[..|es| - 1];
      assert !HasId(init, id) by {
        forall i | 0 <= i < |init| ensures init[i].id != id {
          assert init[i] == es[i];
        }
      }
      DeleteAbsentIsNoop(init, id);
      assert es[|es| - 1].id != id;
      assert es == init + [es[|es| - 1]];
    }
  }

  /** Deleting twice is deleting once. */
  lemma DeleteIdempotent(es: seq<Expense>, id: string)
    ensures WithoutId(WithoutId(es, id), id) == WithoutId(es, id)
  {
    DeleteAbsentIsNoop(WithoutId(es, id), id);
  }

  /** Deleting keeps ids unique. */
  lemma {:induction false} DeleteKeepsUnique(es: seq<Expense>, id: string)
    requires UniqueIds(es)
    ensures UniqueIds(WithoutId(es, id))
  {
    if es != [] {
      var init, last := es[..|es| - 1], es[|es| - 1];
      assert es == init + [last];
      assert UniqueIds(init) by {
        forall i, j | 0 <= i < |init| && 0 <= j < |init| && i != j ensures init[i].id != init[j].id {
          assert init[i] == es[i] && init[j] == es[j];
        }
      }
      DeleteKeepsUnique(init, id);
      var p := (e: Expense) => e.id != id;
      SelectSnoc(init, p, true, last);
      DeleteKeepsOrder(init, [last], id);
      var kept := WithoutId(init, id);
      if last.id != id {
        assert WithoutId(es, id) == kept + [last];
        forall i | 0 <= i < |kept| ensures kept[i].id != last.id {
          DeleteKeepsOthers(init, id, kept[i]);
          var k :| 0 <= k < |init| && init[k] == kept[i];
          assert es[k] == init[k];
        }
      } else {
        assert WithoutId(es, id) == kept;
      }
    }
  }

  /** With unique ids, deleting a present id removes exactly one record. */
  lemma {:induction false} DeleteRemovesOne(es: seq<Expense>, id: string)
    requires UniqueIds(es) && HasId(es, id)
    ensures |WithoutId(es, id)| == |es| - 1
  {
    var init, last := es[..|es| - 1], es[|es| - 1];
    assert es == init + [last];
    assert UniqueIds(init) by {
      forall i, j | 0 <= i < |init| && 0 <= j < |init| && i != j ensures init[i].id != init[j].id {
        assert init[i] == es[i] && init[j] == es[j];
      }
    }
    DeleteKeepsOrder(init, [last], id);
    assert WithoutId([last], id) == Select([] + [last], (e: Expense) => e.id != id, true);
    if last.id == id {
      assert !HasId(init, id) by {
        forall i | 0 <= i < |init| ensures init[i].id != id {
          assert init[i] == es[i];
        }
      }
      DeleteAbsentIsNoop(init, id);
    } else {
      assert HasId(init, id) by {
        var k :| 0 <= k < |es| && es[k].id == id;
        assert k < |init| && init[k] == es[k];
      }
      DeleteRemovesOne(init, id);
    }
  }

  /** Updating an id that is not present leaves the list unchanged, with no error. */
  lemma UpdateAbsentIsNoop(es: seq<Expense>, x: Expense)
    requires !HasId(es, x.id)
    ensures Replaced(es, x) == es
  {
    var r := Replaced(es, x);
    assert forall i :: 0 <= i < |es| ==> r[i] == es[i];
  }

  /** Updating keeps ids unique, and with unique ids a present id is replaced
      at exactly one position. */
  lemma UpdateKeepsUnique(es: seq<Expense>, x: Expense)
    requires UniqueIds(es)
    ensures UniqueIds(Replaced(es, x))
    ensures HasId(es, x.id) ==> |set i | 0 <= i < |es| && Replaced(es, x)[i] != es[i]| <= 1
  {
    var r := Replaced(es, x);
    forall i, j | 0 <= i < |r| && 0 <= j < |r| && i != j ensures r[i].id != r[j].id {
      assert Ids(r)[i] == Ids(es)[i] && Ids(r)[j] == Ids(es)[j];
    }
    if HasId(es, x.id) {
      var k :| 0 <= k < |es| && es[k].id == x.id;
      var changed := set i | 0 <= i < |es| && r[i] != es[i];
      assert changed <= {k};
      SubsetSingletonSize(changed, k);
    }
  }

  lemma SubsetSingletonSize(s: set<int>, k: int)
    requires s <= {k}
    ensures |s| <= 1
  {
    if s != {} {
      assert s == {k};
    }
  }

  /** The provider: the `expenses` state and the list last handed to the
      whole-list save (None until the first save of the session). */
  class ExpenseStore {
    var expenses: seq<Expense>
    ghost var saved: Option<seq<Expense>>

    /** The state has been written out as it stands. */
    ghost predicate Persisted()
      reads this
    {
      saved == Some(expenses)
    }

    /** The state starts as the empty list, before anything is loaded or saved. */
    constructor ()
      ensures expenses == [] && saved == None
    {
      expenses := [];
      saved := None;
    }

    /** The initial load: the stored list, or the empty list when nothing is
        stored. Loading writes nothing back. */
    method Load(stored: Option<seq<Expense>>)
      modifies this
      ensures stored == None ==> expenses == []
      ensures stored.Some? ==> expenses == stored.value
      ensures saved == old(saved)
    {
      match stored
      case None => expenses := [];
      case Some(list) => expenses := list;
    }

    /** Installs `updated` as the state and saves that same list. */
    method Install(updated: seq<Expense>)
      modifies this
      ensures expenses == updated && Persisted()
    {
      expenses := updated;
      saved := Some(updated);
    }

    method AddExpense(e: Expense)
      modifies this
      ensures expenses == Prepended(e, old(expenses)) && Persisted()
      ensures |expenses| == |old(expenses)| + 1
      ensures UniqueIds(old(expenses)) && !HasId(old(expenses), e.id) ==> UniqueIds(expenses)
    {
      var updated := Prepended(e, expenses);
      if UniqueIds(expenses) && !HasId(expenses, e.id) {
        AddKeepsUniqueIff(e, expenses);
      }
      Install(updated);
    }

    method DeleteExpense(id: string)
      modifies this
      ensures expenses == WithoutId(old(expenses), id) && Persisted()
      ensures !HasId(old(expenses), id) ==> expenses == old(expenses)
      ensures UniqueIds(old(expenses)) ==> UniqueIds(expenses)
    {
      var updated := WithoutId(expenses, id);
      if !HasId(expenses, id) {
        DeleteAbsentIsNoop(expenses, id);
      }
      if UniqueIds(expenses) {
        DeleteKeepsUnique(expenses, id);
      }
      Install(updated);
    }

    method UpdateExpense(x: Expense)
      modifies this
      ensures expenses == Replaced(old(expenses), x) && Persisted()
      ensures Ids(expenses) == Ids(old(expenses))
      ensures !HasId(old(expenses), x.id) ==> expenses == old(expenses)
      ensures UniqueIds(old(expenses)) ==> UniqueIds(expenses)
    {
      var updated := Replaced(expenses, x);
      if !HasId(expenses, x.id) {
        UpdateAbsentIsNoop(expenses, x);
      }
      if UniqueIds(expenses) {
        UpdateKeepsUnique(expenses, x);
      }
      Install(updated);
    }
  }
}
