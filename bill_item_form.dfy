/**
 * The bill item form: the derived split summary (total charged, remaining
 * amount, unassigned rows, whether the amounts match), "split equally", the
 * button guards, and the form state the add/remove/edit handlers change.
 */
module BillItemForm {
  import opened Wrappers
  import opened Folds
  import opened Numerals
  import opened Utils
  import opened Database
  import opened Validations

  /** `!user.amount || parseFloat(user.amount) === 0`. */
  predicate IsUnassigned(row: ChargedUser)
  {
    row.amount == "" || ParseAmount(row.amount) == Some(0)
  }

  /** An unassigned row counts 0 towards the charged total. */
  lemma UnassignedCountsZero(row: ChargedUser)
    requires IsUnassigned(row)
    ensures RowAmount(row) == 0
  {
  }

  /** `chargedUsers.reduce((sum, user) => sum + (parseFloat(user.amount) || 0), 0)`. */
  function TotalCharged(rows: seq<ChargedUser>): int
  {
    Sum(rows, RowAmount)
  }

  /** `(parseFloat(totalAmount) || 0) - totalCharged`. */
  function RemainingAmount(amount: string, rows: seq<ChargedUser>): int
  {
    AmountOrZero(amount) - TotalCharged(rows)
  }

  function UnassignedUsers(rows: seq<ChargedUser>): seq<ChargedUser>
  {
    Filter(rows, IsUnassigned)
  }

  /** `Math.abs(remainingAmount) < 0.01`. */
  predicate AmountsMatch(amount: string, rows: seq<ChargedUser>)
  {
    WithinTolerance(AmountOrZero(amount), TotalCharged(rows))
  }

  /** `parseFloat(totalAmount) > 0 && amountsMatch`. */
  predicate HasValidAmounts(amount: string, rows: seq<ChargedUser>)
  {
    ParseAmount(amount).Some? && ParseAmount(amount).value > 0 && AmountsMatch(amount, rows)
  }

  /** The submit button: `disabled={isLoading || !hasValidAmounts}`. */
  predicate SubmitEnabled(isLoading: bool, amount: string, rows: seq<ChargedUser>)
  {
    !isLoading && HasValidAmounts(amount, rows)
  }

  /** The split button: `disabled={unassignedUsers.length === 0 || remainingAmount <= 0}`. */
  predicate SplitEnabled(amount: string, rows: seq<ChargedUser>)
  {
    !(|UnassignedUsers(rows)| == 0 || RemainingAmount(amount, rows) <= 0)
  }

  /** The amounts match exactly when the charges add up to the amount read with `|| 0`. */
  lemma AmountsMatchIff(amount: string, rows: seq<ChargedUser>)
    ensures AmountsMatch(amount, rows) <==> RemainingAmount(amount, rows) == 0
    ensures SubmitEnabled(false, amount, rows) <==>
      ParseAmount(amount).Some? && ParseAmount(amount).value > 0 && ParseAmount(amount).value == TotalCharged(rows)
    ensures !SubmitEnabled(true, amount, rows)
  {
    WithinToleranceIsEquality(AmountOrZero(amount), TotalCharged(rows));
  }

  /**
   * `(remaining / count).toFixed(0)` for positive `remaining` and `count`:
   * the integer nearest to the quotient, the larger one on a tie.
   */
  function Share(remaining: nat, count: nat): (share: nat)
    requires remaining > 0 && count > 0
    ensures NearestShare(remaining, count, share)
  {
    var n := 2 * remaining + count;
    DivMod(n, 2 * count);
    ShareBound(remaining, count, n / (2 * count), n % (2 * count));
    n / (2 * count)
  }

  /** `m` is within half a unit of `remaining / count`, a tie counting as the upper one. */
  predicate NearestShare(remaining: int, count: int, m: int)
  {
    -count < 2 * (count * m - remaining) <= count
  }

  lemma ShareBound(remaining: int, count: int, q: int, rem: int)
    requires 2 * remaining + count == q * (2 * count) + rem && 0 <= rem < 2 * count
    ensures NearestShare(remaining, count, q)
  {
    assert q * (2 * count) == 2 * (count * q);
  }

  /** No other integer is as near: the share is the only one in that window. */
  lemma ShareUnique(remaining: nat, count: nat, m: int)
    requires remaining > 0 && count > 0
    requires NearestShare(remaining, count, m)
    ensures m == Share(remaining, count)
  {
    var s := Share(remaining, count);
    if m < s {
      MulStepInt(m, s, count);
    } else if m > s {
      MulStepInt(s, m, count);
    }
  }

  lemma MulStepInt(a: int, b: int, c: nat)
    requires a < b
    ensures a * c + c <= b * c
  {
    var d := b - a;
    assert b * c == a * c + d * c;
    assert d * c >= c by {
      assert d >= 1;
      assert d * c == (d - 1) * c + c;
      assert (d - 1) * c >= 0;
    }
  }

  /** When `count` divides `remaining` the share is the exact quotient. */
  lemma ShareExact(remaining: nat, count: nat, q: nat)
    requires remaining > 0 && count > 0 && remaining == count * q
    ensures Share(remaining, count) == q
  {
    ShareUnique(remaining, count, q);
  }

  /** One row of the split: an unassigned row is given the share's text, the others stay as they are. */
  function Assigner(share: string): ChargedUser -> ChargedUser
  {
    row => if IsUnassigned(row) then row.(amount := share) else row
  }

  /** Every unassigned row is given the share's text; the others stay as they are. */
  function AssignShare(rows: seq<ChargedUser>, share: string): seq<ChargedUser>
  {
    Map(rows, Assigner(share))
  }

  /** `splitEqually`, as the new value of `chargedUsers`. */
  function SplitEqually(amount: string, rows: seq<ChargedUser>): seq<ChargedUser>
  {
    var remaining := RemainingAmount(amount, rows);
    if remaining <= 0 then rows
    else
      var count := |UnassignedUsers(rows)|;
      if count == 0 then rows
      else AssignShare(rows, DecimalString(Share(remaining, count)))
  }

  /** The share `splitEqually` hands out. */
  function SplitShare(amount: string, rows: seq<ChargedUser>): nat
    requires SplitEnabled(amount, rows)
  {
    Share(RemainingAmount(amount, rows), |UnassignedUsers(rows)|)
  }

  /** With nothing left to split, or nobody unassigned, the rows are unchanged; the split button is disabled exactly then. */
  lemma SplitUnchangedUnlessEnabled(amount: string, rows: seq<ChargedUser>)
    ensures RemainingAmount(amount, rows) <= 0 ==> SplitEqually(amount, rows) == rows
    ensures |UnassignedUsers(rows)| == 0 ==> SplitEqually(amount, rows) == rows
    ensures SplitEnabled(amount, rows) ==>
      SplitEqually(amount, rows) == AssignShare(rows, DecimalString(SplitShare(amount, rows)))
  {
  }

  /** Row by row: the same user, the share for each unassigned row, no change to the others. */
  lemma SplitRows(amount: string, rows: seq<ChargedUser>)
    requires SplitEnabled(amount, rows)
    ensures var r := SplitEqually(amount, rows);
      && |r| == |rows|
      && forall i :: 0 <= i < |rows| ==>
           && r[i].userId == rows[i].userId
           && (IsUnassigned(rows[i]) ==> r[i].amount == DecimalString(SplitShare(amount, rows)))
           && (!IsUnassigned(rows[i]) ==> r[i] == rows[i])
  {
  }

  /** Giving `share` to the unassigned rows adds `share` once per unassigned row. */
  lemma AssignShareTotal(rows: seq<ChargedUser>, share: nat)
    ensures TotalCharged(AssignShare(rows, DecimalString(share)))
         == TotalCharged(rows) + |UnassignedUsers(rows)| * share
  {
    var assign := Assigner(DecimalString(share));
    var after := (row: ChargedUser) => RowAmount(assign(row));
    var added := (row: ChargedUser) => if IsUnassigned(row) then share else 0;
    forall row | row in rows ensures after(row) == RowAmount(row) + added(row) {
      if IsUnassigned(row) {
        AmountRoundTrip(share);
        assert assign(row).amount == DecimalString(share);
      }
    }
    SumMap(rows, assign, RowAmount, after);
    SumAdd(rows, RowAmount, added, after);
    SumCount(rows, IsUnassigned, share, added);
  }

  /**
   * After a split the remaining amount is at most half a unit per unassigned
   * row away from zero, and it is zero when their number divides what remained.
   */
  lemma SplitTotals(amount: string, rows: seq<ChargedUser>)
    requires SplitEnabled(amount, rows)
    ensures var remaining, count := RemainingAmount(amount, rows), |UnassignedUsers(rows)|;
      var after := RemainingAmount(amount, SplitEqually(amount, rows));
      && after == remaining - count * SplitShare(amount, rows)
      && -(count as int) <= 2 * after < count
      && (remaining % count == 0 ==> after == 0 && AmountsMatch(amount, SplitEqually(amount, rows)))
  {
    var remaining, count := RemainingAmount(amount, rows), |UnassignedUsers(rows)|;
    var share := SplitShare(amount, rows);
    SplitRemaining(amount, rows);
    assert NearestShare(remaining, count, share);
    if remaining % count == 0 {
      SplitExact(amount, rows);
    }
  }

  /** What remains after a split: the share is taken once per unassigned row. */
  lemma SplitRemaining(amount: string, rows: seq<ChargedUser>)
    requires SplitEnabled(amount, rows)
    ensures RemainingAmount(amount, SplitEqually(amount, rows))
         == RemainingAmount(amount, rows) - |UnassignedUsers(rows)| * SplitShare(amount, rows)
  {
    var share := SplitShare(amount, rows);
    assert SplitEqually(amount, rows) == AssignShare(rows, DecimalString(share));
    AssignShareTotal(rows, share);
  }

  /** When the number of unassigned rows divides what remained, the split leaves nothing. */
  lemma SplitExact(amount: string, rows: seq<ChargedUser>)
    requires SplitEnabled(amount, rows)
    requires RemainingAmount(amount, rows) % |UnassignedUsers(rows)| == 0
    ensures RemainingAmount(amount, SplitEqually(amount, rows)) == 0
    ensures AmountsMatch(amount, SplitEqually(amount, rows))
  {
    var remaining, count := RemainingAmount(amount, rows), |UnassignedUsers(rows)|;
    var q := remaining / count;
    assert remaining == count * q;
    ShareExact(remaining, count, q);
    SplitRemaining(amount, rows);
    WithinToleranceIsEquality(AmountOrZero(amount), TotalCharged(SplitEqually(amount, rows)));
  }

  /** A second split changes nothing. */
  lemma SplitIdempotent(amount: string, rows: seq<ChargedUser>)
    ensures SplitEqually(amount, SplitEqually(amount, rows)) == SplitEqually(amount, rows)
  {
    if SplitEnabled(amount, rows) {
      if SplitShare(amount, rows) > 0 {
        SplitPositiveShare(amount, rows);
      } else {
        SplitZeroShare(amount, rows);
      }
    }
  }

  /** A positive share leaves no row unassigned. */
  lemma SplitPositiveShare(amount: string, rows: seq<ChargedUser>)
    requires SplitEnabled(amount, rows) && SplitShare(amount, rows) > 0
    ensures UnassignedUsers(SplitEqually(amount, rows)) == []
  {
    var share := SplitShare(amount, rows);
    var r := AssignShare(rows, DecimalString(share));
    assert SplitEqually(amount, rows) == r;
    AmountRoundTrip(share);
    forall i | 0 <= i < |r| ensures !IsUnassigned(r[i]) {
      assert r[i] == Assigner(DecimalString(share))(rows[i]);
    }
    FilterNone(r, IsUnassigned);
  }

  /** A share of 0 writes "0", which is still unassigned: the second split writes "0" into the same rows. */
  lemma SplitZeroShare(amount: string, rows: seq<ChargedUser>)
    requires SplitEnabled(amount, rows) && SplitShare(amount, rows) == 0
    ensures SplitEqually(amount, SplitEqually(amount, rows)) == SplitEqually(amount, rows)
  {
    var text := DecimalString(0);
    var assign := Assigner(text);
    var r := AssignShare(rows, text);
    assert SplitEqually(amount, rows) == r;
    AmountRoundTrip(0);
    SplitRemaining(amount, rows);
    forall i | 0 <= i < |r| ensures IsUnassigned(r[i]) == IsUnassigned(rows[i]) {
      assert r[i] == assign(rows[i]);
    }
    UnassignedSameCount(rows, r);
    assert SplitEqually(amount, r) == AssignShare(r, text);
    forall i | 0 <= i < |r| ensures assign(r[i]) == r[i] {
      assert r[i] == assign(rows[i]);
    }
  }

  lemma {:induction false} UnassignedSameCount(a: seq<ChargedUser>, b: seq<ChargedUser>)
    requires |a| == |b| && forall i :: 0 <= i < |a| ==> IsUnassigned(a[i]) == IsUnassigned(b[i])
    ensures |UnassignedUsers(a)| == |UnassignedUsers(b)|
  {
    if a != [] {
      UnassignedSameCount(a[..|a| - 1], b[..|b| - 1]);
    }
  }

  // ---------------------------------------------------------------------
  // The amount inputs

  predicate IsDigitOrDot(c: char)
  {
    IsDecimalDigit(c) || c == '.'
  }

  /** What an amount input stores: `parseDotsFormatted(text.replace(/[^\d.]/g, ''))`. */
  function AmountInput(text: string): string
  {
    ParseDots(Filter(text, IsDigitOrDot))
  }

  /** The stored text is the typed text's digits, in order; retyping what the field shows stores the same text. */
  lemma {:induction false} AmountInputDigits(text: string)
    ensures AmountInput(text) == Filter(text, IsDecimalDigit)
    ensures IsDigits(AmountInput(text))
  {
    if text != [] {
      var init := text[..|text| - 1];
      var c := text[|text| - 1];
      AmountInputDigits(init);
      var kept := if IsDigitOrDot(c) then [c] else [];
      ParseDotsAppend(Filter(init, IsDigitOrDot), kept);
      assert [c][..0] == [];
    }
    FilterSound(text, IsDecimalDigit);
  }

  /** The field shows the stored digits grouped by '.'; reading what it shows back stores the same digits. */
  lemma AmountDisplayRoundTrip(stored: string)
    requires IsDigits(stored)
    ensures FormatWithDots(stored) == Grouped(stored)
    ensures AmountInput(FormatWithDots(stored)) == stored
  {
    FormatDigits(stored);
    FormatRoundTrip(stored);
    var shown := FormatWithDots(stored);
    AmountInputDigits(shown);
    FilterAll(shown, IsDigitOrDot) by {
      GroupedChars(stored);
    }
    FilterAll(stored, IsDecimalDigit) by {
      forall c | c in stored ensures IsDecimalDigit(c) { }
    }
  }

  /** A grouped numeral holds only digits and dots. */
  lemma {:induction false} GroupedChars(s: string)
    requires IsDigits(s)
    ensures forall c :: c in Grouped(s) ==> IsDigitOrDot(c)
    decreases |s|
  {
    if |s| > 3 {
      var a := s[..|s| - 3];
      assert IsDigits(a);
      GroupedChars(a);
    }
  }

  // ---------------------------------------------------------------------
  // The form state

  /** The values of the bill item form that its handlers change. */
  class ItemFormState {
    var name: string
    var amount: string
    var paidBy: int
    var billType: int
    var chargedUsers: seq<ChargedUser>

    /** The values the schema checks on submit. */
    function Values(): ItemForm
      reads this
    {
      ItemForm(name, amount, paidBy, billType, chargedUsers)
    }

    /** `defaultValues` when there is no initial data. */
    constructor ()
      ensures Values() == ItemForm("", "", 0, Code(Others), [ChargedUser(0, "")])
    {
      name, amount, paidBy, billType := "", "", 0, Code(Others);
      chargedUsers := [ChargedUser(0, "")];
    }

    /** `defaultValues: initialData` when editing. */
    constructor FromInitial(initial: ItemForm)
      ensures Values() == initial
    {
      name, amount, paidBy, billType := initial.name, initial.amount, initial.paidBy, initial.billType;
      chargedUsers := initial.chargedUsers;
    }

    /** `append({ userId: 0, amount: '' })`. */
    method AddChargedUser()
      modifies this
      ensures chargedUsers == old(chargedUsers) + [ChargedUser(0, "")]
      ensures name == old(name) && amount == old(amount) && paidBy == old(paidBy) && billType == old(billType)
    {
      chargedUsers := chargedUsers + [ChargedUser(0, "")];
    }

    /** Removes row `index` only while more than one row is left; an index outside the list removes nothing. */
    method RemoveChargedUser(index: int)
      modifies this
      ensures chargedUsers == if |old(chargedUsers)| > 1 && 0 <= index < |old(chargedUsers)|
                              then old(chargedUsers)[..index] + old(chargedUsers)[index + 1..]
                              else old(chargedUsers)
      ensures |old(chargedUsers)| >= 1 ==> |chargedUsers| >= 1
      ensures name == old(name) && amount == old(amount) && paidBy == old(paidBy) && billType == old(billType)
    {
      if |chargedUsers| > 1 && 0 <= index < |chargedUsers| {
        chargedUsers := chargedUsers[..index] + chargedUsers[index + 1..];
      }
    }

    /** `splitEqually`: reads the amount and the rows and writes the rows back. */
    method SplitEquallyNow()
      modifies this
      ensures chargedUsers == SplitEqually(amount, old(chargedUsers))
      ensures name == old(name) && amount == old(amount) && paidBy == old(paidBy) && billType == old(billType)
    {
      chargedUsers := SplitEqually(amount, chargedUsers);
    }

    /** The total amount input's change handler. */
    method EditAmount(text: string)
      modifies this
      ensures amount == AmountInput(text) && IsDigits(amount)
      ensures name == old(name) && paidBy == old(paidBy) && billType == old(billType)
      ensures chargedUsers == old(chargedUsers)
    {
      AmountInputDigits(text);
      amount := AmountInput(text);
    }

    /** A row's amount input change handler. */
    method EditRowAmount(index: nat, text: string)
      requires index < |chargedUsers|
      modifies this
      ensures chargedUsers == old(chargedUsers)[index := old(chargedUsers)[index].(amount := AmountInput(text))]
      ensures IsDigits(chargedUsers[index].amount)
      ensures name == old(name) && amount == old(amount) && paidBy == old(paidBy) && billType == old(billType)
    {
      AmountInputDigits(text);
      chargedUsers := chargedUsers[index := chargedUsers[index].(amount := AmountInput(text))];
    }
  }
}
