/**
 * The form schemas, read as functions from a form's values to the list of
 * issues the schema library reports, in the order it reports them. A form is
 * accepted exactly when the list is empty.
 *
 * The library's evaluation order is kept: the fields of an object are
 * checked in declaration order; every check of a field runs even after an
 * earlier one failed, and so does a refinement on a field whose checks failed;
 * an array's length checks come before its elements' checks; a refinement on
 * the whole object runs unless some field failed in a way that aborts parsing
 * (here only an invalid enumeration value does).
 */
module Validations {
  import opened Wrappers
  import opened Folds
  import opened Numerals
  import opened JsText
  import opened Database

  datatype PathKey = Field(name: string) | Index(i: nat)

  /** One validation error: where it is shown and what it says. */
  datatype Issue = Issue(path: seq<PathKey>, message: string)

  /** `z.string().min(lo, loMessage).max(hi, hiMessage)` on the field at `path`. */
  function LengthIssues(path: seq<PathKey>, s: string, lo: nat, loMessage: string,
                        hi: nat, hiMessage: string): (r: seq<Issue>)
    ensures r == [] <==> lo <= |s| <= hi
    ensures forall k :: 0 <= k < |r| ==> r[k].path == path
  {
    (if |s| < lo then [Issue(path, loMessage)] else [])
    + (if |s| > hi then [Issue(path, hiMessage)] else [])
  }

  /** `z.number().min(1, message)`. */
  function PositiveIdIssues(path: seq<PathKey>, id: int, message: string): seq<Issue>
  {
    if id < 1 then [Issue(path, message)] else []
  }

  /** `z.string().min(1, 'Amount is required').refine(v => !isNaN(parseFloat(v)) && parseFloat(v) > 0, ...)`. */
  function PositiveAmountIssues(path: seq<PathKey>, s: string): (r: seq<Issue>)
    ensures r == [] <==> ParseAmount(s).Some? && ParseAmount(s).value > 0
  {
    (if |s| < 1 then [Issue(path, "Amount is required")] else [])
    + (if !(ParseAmount(s).Some? && ParseAmount(s).value > 0)
       then [Issue(path, "Amount must be a positive number")] else [])
  }

  /** The issues of every element of an array, element by element. */
  function Elements<T>(xs: seq<T>, f: (nat, T) -> seq<Issue>): seq<Issue>
  {
    if xs == [] then [] else Elements(xs[..|xs| - 1], f) + f(|xs| - 1, xs[|xs| - 1])
  }

  lemma {:induction false} ElementsEmpty<T>(xs: seq<T>, f: (nat, T) -> seq<Issue>)
    ensures Elements(xs, f) == [] <==> forall i :: 0 <= i < |xs| ==> f(i, xs[i]) == []
  {
    if xs != [] {
      var xs' := xs[..|xs| - 1];
      ElementsEmpty(xs', f);
      assert forall i :: 0 <= i < |xs'| ==> xs'[i] == xs[i];
    }
  }

  /** `Math.abs(a - b) < 0.01`: the tolerance the forms compare totals with. */
  predicate WithinTolerance(a: int, b: int)
  {
    (if a >= b then a - b else b - a) as real < 0.01
  }

  /** On whole amounts the tolerance is equality. */
  lemma WithinToleranceIsEquality(a: int, b: int)
    ensures WithinTolerance(a, b) <==> a == b
  {
  }

  // ---------------------------------------------------------------------
  // createBillSchema

  /** The values checked when a bill is created (`password` is None when the form has no such field). */
  datatype CreateBillInput = CreateBillInput(name: string, password: Option<string>, subjects: seq<string>)

  function SubjectIssues(i: nat, subject: string): seq<Issue>
  {
    LengthIssues([Field("subjects"), Index(i)], subject, 1, "Subject name is required",
                 50, "Subject name must be less than 50 characters")
  }

  /** A missing field is reported as "Required"; a present one with the password's length checks. */
  function PasswordIssues(password: Option<string>): seq<Issue>
  {
    match password
    case None => [Issue([Field("password")], "Required")]
    case Some(p) => LengthIssues([Field("password")], p, 1, "Password is required",
                                 100, "Password must be less than 100 characters")
  }

  function CreateBillIssues(input: CreateBillInput): seq<Issue>
  {
    LengthIssues([Field("name")], input.name, 1, "Bill name is required",
                 100, "Bill name must be less than 100 characters")
    + PasswordIssues(input.password)
    + (if |input.subjects| < 1 then [Issue([Field("subjects")], "At least one subject is required")] else [])
    + (if |input.subjects| > 10 then [Issue([Field("subjects")], "Maximum 10 subjects allowed")] else [])
    + Elements(input.subjects, SubjectIssues)
  }

  /** A bill is accepted exactly when name and password have 1..100 characters and there are 1..10 subjects of 1..50 characters. */
  lemma CreateBillAccepted(input: CreateBillInput)
    ensures CreateBillIssues(input) == [] <==>
      && 1 <= |input.name| <= 100
      && input.password.Some? && 1 <= |input.password.value| <= 100
      && 1 <= |input.subjects| <= 10
      && forall i :: 0 <= i < |input.subjects| ==> 1 <= |input.subjects[i]| <= 50
  {
    ElementsEmpty(input.subjects, SubjectIssues);
  }

  /** A form that has no password field is always rejected, with "Required" on `password`. */
  lemma CreateBillWithoutPassword(name: string, subjects: seq<string>)
    ensures Issue([Field("password")], "Required") in CreateBillIssues(CreateBillInput(name, None, subjects))
  {
    var input := CreateBillInput(name, None, subjects);
    var l := LengthIssues([Field("name")], name, 1, "Bill name is required",
                          100, "Bill name must be less than 100 characters");
    assert CreateBillIssues(input)[|l|] == Issue([Field("password")], "Required");
  }

  // ---------------------------------------------------------------------
  // addBillInformationSchema

  /** One row of the charge split: who is charged and the amount text. */
  datatype ChargedUser = ChargedUser(userId: int, amount: string)

  /** The values of the bill item form. */
  datatype ItemForm = ItemForm(name: string, amount: string, paidBy: int, billType: int,
                               chargedUsers: seq<ChargedUser>)

  /** The decimal text of an integer, as a template literal writes it. */
  function IntString(n: int): string
  {
    if n < 0 then "-" + DecimalString(-n) else DecimalString(n)
  }

  /** The schema library's default message for a value outside the enumeration `{0, 1, 2}`. */
  function EnumMessage(n: int): string
  {
    "Invalid enum value. Expected 0 | 1 | 2, received '" + IntString(n) + "'"
  }

  function ChargedUserIssues(i: nat, row: ChargedUser): seq<Issue>
  {
    PositiveIdIssues([Field("chargedUsers"), Index(i), Field("userId")], row.userId, "Please select a user")
    + (if |row.amount| < 1 then [Issue([Field("chargedUsers"), Index(i), Field("amount")], "Amount is required")] else [])
    + (if ParseAmount(row.amount).None?
       then [Issue([Field("chargedUsers"), Index(i), Field("amount")], "Amount must be a non-negative number")] else [])
  }

  /** `data.reduce((sum, item) => sum + parseFloat(item.amount), 0)`: None (NaN) as soon as one amount does not parse. */
  function ChargedTotal(rows: seq<ChargedUser>): Option<int>
  {
    if rows == [] then Some(0)
    else
      match (ChargedTotal(rows[..|rows| - 1]), ParseAmount(rows[|rows| - 1].amount))
      case (Some(t), Some(v)) => Some(t + v)
      case _ => None
  }

  /** The amount of a row, 0 when it does not parse. */
  function RowAmount(row: ChargedUser): int
  {
    AmountOrZero(row.amount)
  }

  /** The charged total is a number exactly when every amount parses, and then it is their sum. */
  lemma {:induction false} ChargedTotalIsSum(rows: seq<ChargedUser>)
    ensures ChargedTotal(rows).Some? <==> forall i :: 0 <= i < |rows| ==> ParseAmount(rows[i].amount).Some?
    ensures ChargedTotal(rows).Some? ==> ChargedTotal(rows).value == Sum(rows, RowAmount)
  {
    if rows != [] {
      var rows' := rows[..|rows| - 1];
      ChargedTotalIsSum(rows');
      assert forall i :: 0 <= i < |rows'| ==> rows'[i] == rows[i];
    }
  }

  function ChargedUsersIssues(rows: seq<ChargedUser>): seq<Issue>
  {
    (if |rows| < 1 then [Issue([Field("chargedUsers")], "At least one person must be charged")] else [])
    + Elements(rows, ChargedUserIssues)
    + (if !(ChargedTotal(rows).Some? && ChargedTotal(rows).value > 0)
       then [Issue([Field("chargedUsers")], "Total charged amount must be greater than 0")] else [])
  }

  /** The object-level refinement: the charges add up to the amount. */
  predicate TotalsMatch(form: ItemForm)
  {
    ParseAmount(form.amount).Some? && ChargedTotal(form.chargedUsers).Some?
    && WithinTolerance(ParseAmount(form.amount).value, ChargedTotal(form.chargedUsers).value)
  }

  const MismatchIssue := Issue([Field("chargedUsers")], "Total charged amount must equal the total amount")

  /** The issues of the fields, before the object-level refinement. */
  function ItemFieldIssues(form: ItemForm): seq<Issue>
  {
    LengthIssues([Field("name")], form.name, 1, "Item name is required",
                 100, "Item name must be less than 100 characters")
    + PositiveAmountIssues([Field("amount")], form.amount)
    + PositiveIdIssues([Field("paidBy")], form.paidBy, "Please select who paid for this item")
    + (if FromCode(form.billType).None? then [Issue([Field("billType")], EnumMessage(form.billType))] else [])
    + ChargedUsersIssues(form.chargedUsers)
  }

  /** `addBillInformationSchema`; an invalid category aborts before the object-level refinement. */
  function ItemIssues(form: ItemForm): seq<Issue>
  {
    ItemFieldIssues(form)
    + (if FromCode(form.billType).Some? && !TotalsMatch(form) then [MismatchIssue] else [])
  }

  /** What an acceptable bill item is, stated directly. */
  predicate ItemValid(form: ItemForm)
  {
    && 1 <= |form.name| <= 100
    && ParseAmount(form.amount).Some? && ParseAmount(form.amount).value > 0
    && form.paidBy >= 1
    && form.billType in {0, 1, 2}
    && |form.chargedUsers| >= 1
    && (forall i :: 0 <= i < |form.chargedUsers| ==>
          form.chargedUsers[i].userId >= 1 && ParseAmount(form.chargedUsers[i].amount).Some?)
    && Sum(form.chargedUsers, RowAmount) > 0
    && Sum(form.chargedUsers, RowAmount) == ParseAmount(form.amount).value
  }

  /** A row is accepted exactly when a user is selected and its amount parses. */
  lemma ChargedUserAccepted(i: nat, row: ChargedUser)
    ensures ChargedUserIssues(i, row) == [] <==> row.userId >= 1 && ParseAmount(row.amount).Some?
  {
  }

  /** The rows are accepted one by one exactly when each has a user and an amount that parses. */
  lemma ChargedRowsAccepted(rows: seq<ChargedUser>)
    ensures Elements(rows, ChargedUserIssues) == [] <==>
      forall i :: 0 <= i < |rows| ==> rows[i].userId >= 1 && ParseAmount(rows[i].amount).Some?
  {
    ElementsEmpty(rows, ChargedUserIssues);
    forall i | 0 <= i < |rows|
      ensures ChargedUserIssues(i, rows[i]) == [] <==> rows[i].userId >= 1 && ParseAmount(rows[i].amount).Some?
    {
      ChargedUserAccepted(i, rows[i]);
    }
  }

  /** The `chargedUsers` array is accepted exactly when it is non-empty, every row is, and the amounts sum to more than 0. */
  lemma ChargedUsersAccepted(rows: seq<ChargedUser>)
    ensures ChargedUsersIssues(rows) == [] <==>
      && |rows| >= 1
      && (forall i :: 0 <= i < |rows| ==> rows[i].userId >= 1 && ParseAmount(rows[i].amount).Some?)
      && Sum(rows, RowAmount) > 0
  {
    ChargedRowsAccepted(rows);
    ChargedTotalIsSum(rows);
  }

  /** The fields pass exactly when each field's own rule holds. */
  lemma ItemFieldsAccepted(form: ItemForm)
    ensures ItemFieldIssues(form) == [] <==>
      && 1 <= |form.name| <= 100
      && ParseAmount(form.amount).Some? && ParseAmount(form.amount).value > 0
      && form.paidBy >= 1
      && FromCode(form.billType).Some?
      && ChargedUsersIssues(form.chargedUsers) == []
  {
  }

  /** The category rule: exactly the codes 0, 1 and 2 name a category. */
  lemma CategoryCodes(n: int)
    ensures FromCode(n).Some? <==> n in {0, 1, 2}
  {
    if n in {0, 1, 2} {
      assert n == 0 || n == 1 || n == 2;
    }
  }

  /** The whole schema passes exactly when the fields pass and the charges add up. */
  lemma ItemIssuesEmpty(form: ItemForm)
    ensures ItemIssues(form) == [] <==> ItemFieldIssues(form) == [] && TotalsMatch(form)
  {
    ItemFieldsAccepted(form);
  }

  /** The schema accepts a bill item exactly when it is valid. */
  lemma ItemAccepted(form: ItemForm)
    ensures ItemIssues(form) == [] <==> ItemValid(form)
  {
    var rows := form.chargedUsers;
    ItemIssuesEmpty(form);
    ItemFieldsAccepted(form);
    ChargedUsersAccepted(rows);
    ChargedTotalIsSum(rows);
    CategoryCodes(form.billType);
    if TotalsMatch(form) {
      WithinToleranceIsEquality(ParseAmount(form.amount).value, ChargedTotal(rows).value);
    }
  }

  /** When the charges do not add up, the error is the last issue and is shown on `chargedUsers`; with an invalid category it is not reported. */
  lemma ItemMismatchOnChargedUsers(form: ItemForm)
    ensures FromCode(form.billType).Some? && !TotalsMatch(form) ==>
      ItemIssues(form) != [] && ItemIssues(form)[|ItemIssues(form)| - 1] == MismatchIssue
    ensures FromCode(form.billType).None? ==> ItemIssues(form) == ItemFieldIssues(form)
    ensures ItemIssues(form) == [] ==> TotalsMatch(form)
  {
  }

  // ---------------------------------------------------------------------
  // createPaymentSchema

  datatype PaymentInput = PaymentInput(payFromId: int, payToId: int, amount: string)

  const SelfPaymentIssue := Issue([Field("payToId")], "Cannot pay to yourself")

  function PaymentIssues(input: PaymentInput): seq<Issue>
  {
    PositiveIdIssues([Field("payFromId")], input.payFromId, "Please select who is paying")
    + PositiveIdIssues([Field("payToId")], input.payToId, "Please select who is receiving")
    + PositiveAmountIssues([Field("amount")], input.amount)
    + (if input.payFromId == input.payToId then [SelfPaymentIssue] else [])
  }

  /** A payment is accepted exactly when both ends are chosen and differ and the amount is positive. */
  lemma PaymentAccepted(input: PaymentInput)
    ensures PaymentIssues(input) == [] <==>
      && input.payFromId >= 1 && input.payToId >= 1
      && input.payFromId != input.payToId
      && ParseAmount(input.amount).Some? && ParseAmount(input.amount).value > 0
    ensures input.payFromId == input.payToId <==> SelfPaymentIssue in PaymentIssues(input)
  {
    var r := PaymentIssues(input);
    var pre := PositiveIdIssues([Field("payFromId")], input.payFromId, "Please select who is paying")
      + PositiveIdIssues([Field("payToId")], input.payToId, "Please select who is receiving")
      + PositiveAmountIssues([Field("amount")], input.amount);
    assert SelfPaymentIssue !in pre by {
      forall k | 0 <= k < |pre| ensures pre[k] != SelfPaymentIssue { }
    }
    assert r == pre + (if input.payFromId == input.payToId then [SelfPaymentIssue] else []);
  }

  // ---------------------------------------------------------------------
  // joinBillIdSchema and joinBillSchema

  function BillIdIssues(billId: string): seq<Issue>
  {
    (if |billId| < 1 then [Issue([Field("billId")], "Bill ID is required")] else [])
    + (if !(ParseInt(billId).Some? && ParseInt(billId).value > 0)
       then [Issue([Field("billId")], "Please enter a valid bill ID (positive number)")] else [])
  }

  function JoinBillIssues(billId: string, password: string): seq<Issue>
  {
    BillIdIssues(billId)
    + LengthIssues([Field("password")], password, 1, "Password is required",
                   100, "Password must be less than 100 characters")
  }

  /** A bill id is accepted exactly when `parseInt` reads a positive number from it; every positive decimal numeral is. */
  lemma BillIdAccepted(billId: string, n: nat)
    ensures BillIdIssues(billId) == [] <==> ParseInt(billId).Some? && ParseInt(billId).value > 0
    ensures n > 0 ==> BillIdIssues(DecimalString(n)) == []
  {
    if billId == "" {
      assert TrimStart(billId) == "";
    }
    ParseIntDecimalString(n);
  }

  /** `parseInt` reads a prefix, so text after the number is not rejected. */
  lemma BillIdAcceptsTrailingText()
    ensures BillIdIssues("12abc") == []
  {
    var s := "12abc";
    assert !IsJsWhitespace(s[0]);
    assert TrimStart(s) == s;
    assert !IsRadixDigit('a', 10);
    assert DigitPrefix("abc", 10) == "";
    assert DigitPrefix("2abc", 10) == "2" by { assert "2abc"[1..] == "abc"; }
    assert DigitPrefix(s, 10) == "12" by { assert s[1..] == "2abc"; }
    assert ValueOf("1", 10) == 1 by { assert "1"[..0] == ""; }
    assert ValueOf("12", 10) == 12 by { assert "12"[..1] == "1"; }
    assert ParseInt(s) == Some(12);
  }

  /** Joining additionally needs a password of 1..100 characters. */
  lemma JoinBillAccepted(billId: string, password: string)
    ensures JoinBillIssues(billId, password) == [] <==>
      BillIdIssues(billId) == [] && 1 <= |password| <= 100
  {
  }
}
