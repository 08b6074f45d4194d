/**
 * The recently visited bills, kept newest first and addressed by slug, with
 * the three actions that replace the list.
 */
module BillHistory {
  import opened Folds
  import opened Database

  /** The index of the first bill with `slug`, or -1 (`findIndex`). */
  function FirstIndex(bills: seq<Bill>, slug: string): (r: int)
    ensures -1 <= r < |bills|
    ensures r == -1 <==> forall j :: 0 <= j < |bills| ==> bills[j].slug != slug
    ensures r >= 0 ==> bills[r].slug == slug && forall j :: 0 <= j < r ==> bills[j].slug != slug
  {
    if bills == [] then -1
    else if bills[0].slug == slug then 0
    else
      var r := FirstIndex(bills[1..], slug);
      if r == -1 then -1 else r + 1
  }

  /** The list after `addBill(bill)`: the bill first, then the others with the first old copy taken out. */
  function Promote(bills: seq<Bill>, bill: Bill): seq<Bill>
  {
    var i := FirstIndex(bills, bill.slug);
    if i >= 0 then [bill] + (bills[..i] + bills[i + 1..]) else [bill] + bills
  }

  /** The list after `removeBill(slug)`. */
  function WithoutSlug(bills: seq<Bill>, slug: string): seq<Bill>
  {
    Filter(bills, (b: Bill) => b.slug != slug)
  }

  /** No two bills share a slug. */
  predicate UniqueSlugs(bills: seq<Bill>)
  {
    forall i, j :: 0 <= i < j < |bills| ==> bills[i].slug != bills[j].slug
  }

  /** The added bill comes first; the length grows by one exactly when its slug was new. */
  lemma PromoteShape(bills: seq<Bill>, bill: Bill)
    ensures var r := Promote(bills, bill);
      && r[0] == bill
      && |r| == if exists j :: 0 <= j < |bills| && bills[j].slug == bill.slug then |bills| else |bills| + 1
  {
  }

  /** Taking out one bill with `slug` does not change what removing `slug` leaves. */
  lemma DropOne(bills: seq<Bill>, i: nat, slug: string)
    requires i < |bills| && bills[i].slug == slug
    ensures WithoutSlug(bills[..i] + bills[i + 1..], slug) == WithoutSlug(bills, slug)
  {
    var p := (b: Bill) => b.slug != slug;
    var a, x, c := bills[..i], bills[i], bills[i + 1..];
    assert bills == a + [x] + c;
    FilterAppend(a + [x], c, p);
    FilterAppend(a, [x], p);
    FilterAppend(a, c, p);
    assert [x][..0] == [];
  }

  lemma ConsUnique(bill: Bill, bills: seq<Bill>)
    requires UniqueSlugs(bills) && forall b :: b in bills ==> b.slug != bill.slug
    ensures UniqueSlugs([bill] + bills)
  {
    var r := [bill] + bills;
    forall x, y | 0 <= x < y < |r| ensures r[x].slug != r[y].slug {
      assert r[y] == bills[y - 1];
      if x > 0 {
        assert r[x] == bills[x - 1];
      }
    }
  }

  /** Adding keeps the slugs unique, and then it is "drop the old copy, put the bill in front". */
  lemma PromoteUnique(bills: seq<Bill>, bill: Bill)
    requires UniqueSlugs(bills)
    ensures Promote(bills, bill) == [bill] + WithoutSlug(bills, bill.slug)
    ensures UniqueSlugs(Promote(bills, bill))
  {
    var i := FirstIndex(bills, bill.slug);
    var p := (b: Bill) => b.slug != bill.slug;
    if i >= 0 {
      var rest := bills[..i] + bills[i + 1..];
      assert forall k :: 0 <= k < |rest| ==> rest[k] == if k < i then bills[k] else bills[k + 1];
      assert forall x :: x in rest ==> p(x);
      FilterAll(rest, p);
      DropOne(bills, i, bill.slug);
    } else {
      FilterAll(bills, p);
    }
    FilterSound(bills, p);
    FilterKeepsUnique(bills, p);
    ConsUnique(bill, WithoutSlug(bills, bill.slug));
  }

  /** A filter of a list with unique slugs has unique slugs. */
  lemma {:induction false} FilterKeepsUnique(bills: seq<Bill>, p: Bill -> bool)
    requires UniqueSlugs(bills)
    ensures UniqueSlugs(Filter(bills, p))
  {
    if bills != [] {
      var init := bills[..|bills| - 1];
      var last := bills[|bills| - 1];
      FilterKeepsUnique(init, p);
      FilterSound(init, p);
      var f := Filter(init, p);
      forall k | 0 <= k < |f| ensures f[k].slug != last.slug {
        assert f[k] in init;
        var j :| 0 <= j < |init| && init[j] == f[k];
        assert bills[j] == init[j];
      }
    }
  }

  /** Apart from the first old copy, every other bill keeps its place relative to the rest. */
  lemma PromoteKeepsOrder(bills: seq<Bill>, bill: Bill)
    ensures WithoutSlug(Promote(bills, bill)[1..], bill.slug) == WithoutSlug(bills, bill.slug)
    ensures WithoutSlug(Promote(bills, bill), bill.slug) == WithoutSlug(bills, bill.slug)
  {
    var i := FirstIndex(bills, bill.slug);
    var p := (b: Bill) => b.slug != bill.slug;
    var r := Promote(bills, bill);
    if i >= 0 {
      assert r[1..] == bills[..i] + bills[i + 1..];
      DropOne(bills, i, bill.slug);
    } else {
      assert r[1..] == bills;
    }
    assert r == [bill] + r[1..];
    FilterAppend([bill], r[1..], p);
    assert [bill][..0] == [];
  }

  /** Removing drops exactly the bills with that slug, is idempotent, and changes nothing for an absent slug. */
  lemma WithoutSlugProperties(bills: seq<Bill>, slug: string)
    ensures forall b :: b in WithoutSlug(bills, slug) <==> b in bills && b.slug != slug
    ensures WithoutSlug(WithoutSlug(bills, slug), slug) == WithoutSlug(bills, slug)
    ensures (forall j :: 0 <= j < |bills| ==> bills[j].slug != slug) ==> WithoutSlug(bills, slug) == bills
  {
    var p := (b: Bill) => b.slug != slug;
    FilterSound(bills, p);
    forall b | b in bills && b.slug != slug ensures b in WithoutSlug(bills, slug) {
      FilterCount(bills, p, b);
    }
    FilterSound(WithoutSlug(bills, slug), p);
    FilterAll(WithoutSlug(bills, slug), p);
    if forall j :: 0 <= j < |bills| ==> bills[j].slug != slug {
      FilterAll(bills, p);
    }
  }

  /** `useBillHistoryStore`: the persisted list of recent bills. */
  class BillHistoryStore {
    var bills: seq<Bill>

    constructor ()
      ensures bills == []
    {
      bills := [];
    }

    /** `state.bills.findIndex(b => b.slug === slug)`. */
    method FindIndex(slug: string) returns (index: int)
      ensures index == FirstIndex(bills, slug)
    {
      index := 0;
      while index < |bills|
        invariant 0 <= index <= |bills|
        invariant forall j :: 0 <= j < index ==> bills[j].slug != slug
      {
        if bills[index].slug == slug {
          return;
        }
        index := index + 1;
      }
      index := -1;
    }

    /** `addBill`: move an existing copy to the front, or put the bill in front. */
    method AddBill(bill: Bill)
      modifies this
      ensures bills == Promote(old(bills), bill)
    {
      var i := FindIndex(bill.slug);
      if i >= 0 {
        var updated := bills;
        updated := updated[..i] + updated[i + 1..];
        bills := [bill] + updated;
      } else {
        bills := [bill] + bills;
      }
    }

    /** `removeBill`. */
    method RemoveBill(slug: string)
      modifies this
      ensures bills == WithoutSlug(old(bills), slug)
    {
      bills := WithoutSlug(bills, slug);
    }

    /** `clearHistory`. */
    method ClearHistory()
      modifies this
      ensures bills == []
    {
      bills := [];
    }
  }
}
