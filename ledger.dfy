/**
 * The bill detail page's computations: the per-participant summary
 * (paid, charged, net payments, balance), the filter by bill type, the grand
 * total, and the category label.
 */
module Ledger {
  import opened Wrappers
  import opened Folds
  import opened Numerals
  import opened JsText
  import opened Database

  /** What the participant summary shows for one subject. */
  datatype SubjectSummary = SubjectSummary(
    subject: Subject,
    paidAmount: int,
    chargedAmount: int,
    netPayments: int,
    balance: int,
    paymentsInvolved: seq<Payment>)

  /** The sum of the headers `id` paid for. */
  function PaidAmount(headers: seq<Header>, id: int): int
  {
    Sum(Filter(headers, (h: Header) => h.paidById == id), (h: Header) => h.amount)
  }

  /** The sum of the details charged to `id`. */
  function ChargedAmount(details: seq<Detail>, id: int): int
  {
    Sum(Filter(details, (d: Detail) => d.chargedUserId == id), (d: Detail) => d.amount)
  }

  /** The payments `id` sent or received, in the order given. */
  function PaymentsInvolved(payments: seq<Payment>, id: int): seq<Payment>
  {
    Filter(payments, (p: Payment) => p.payFromId == id || p.payToId == id)
  }

  /** Received payments count negative, sent ones positive (the code's sign, not its comment's). */
  function NetPayments(payments: seq<Payment>, id: int): int
  {
    Sum(PaymentsInvolved(payments, id), (p: Payment) => if p.payToId == id then -p.amount else p.amount)
  }

  function Summarize(subject: Subject, headers: seq<Header>, details: seq<Detail>,
                     payments: seq<Payment>): SubjectSummary
  {
    var paid := PaidAmount(headers, subject.id);
    var charged := ChargedAmount(details, subject.id);
    var net := NetPayments(payments, subject.id);
    SubjectSummary(subject, paid, charged, net, paid - charged + net,
                   PaymentsInvolved(payments, subject.id))
  }

  /** `participantSummary`: one entry per subject, in subject order. */
  function ParticipantSummary(subjects: seq<Subject>, headers: seq<Header>, details: seq<Detail>,
                              payments: seq<Payment>): (r: seq<SubjectSummary>)
    ensures |r| == |subjects|
    ensures forall i :: 0 <= i < |r| ==>
      && r[i].subject == subjects[i]
      && r[i].paidAmount == PaidAmount(headers, subjects[i].id)
      && r[i].chargedAmount == ChargedAmount(details, subjects[i].id)
      && r[i].netPayments == NetPayments(payments, subjects[i].id)
      && r[i].balance == r[i].paidAmount - r[i].chargedAmount + r[i].netPayments
  {
    Map(subjects, (s: Subject) => Summarize(s, headers, details, payments))
  }

  // ---------------------------------------------------------------------
  // Each figure as a sum over all records of that record's share.

  /** What a payment does to `id`'s net payments: minus when received, plus when sent. */
  function PaymentEffect(p: Payment, id: int): int
  {
    if p.payToId == id then -p.amount else if p.payFromId == id then p.amount else 0
  }

  /** `paidAmount` is the sum of the headers whose payer is `id`, 0 when there are none. */
  lemma PaidAmountIsSum(headers: seq<Header>, id: int)
    ensures PaidAmount(headers, id) == Sum(headers, (h: Header) => if h.paidById == id then h.amount else 0)
    ensures (forall h :: h in headers ==> h.paidById != id) ==> PaidAmount(headers, id) == 0
  {
    SumFilter(headers, (h: Header) => h.paidById == id, (h: Header) => h.amount,
              (h: Header) => if h.paidById == id then h.amount else 0);
    if forall h :: h in headers ==> h.paidById != id {
      SumZero(headers, (h: Header) => if h.paidById == id then h.amount else 0);
    }
  }

  lemma ChargedAmountIsSum(details: seq<Detail>, id: int)
    ensures ChargedAmount(details, id) == Sum(details, (d: Detail) => if d.chargedUserId == id then d.amount else 0)
    ensures (forall d :: d in details ==> d.chargedUserId != id) ==> ChargedAmount(details, id) == 0
  {
    SumFilter(details, (d: Detail) => d.chargedUserId == id, (d: Detail) => d.amount,
              (d: Detail) => if d.chargedUserId == id then d.amount else 0);
    if forall d :: d in details ==> d.chargedUserId != id {
      SumZero(details, (d: Detail) => if d.chargedUserId == id then d.amount else 0);
    }
  }

  /** Net payments: each payment involving `id` adds its effect; the others add nothing. */
  lemma NetPaymentsIsSum(payments: seq<Payment>, id: int)
    ensures NetPayments(payments, id) == Sum(payments, (p: Payment) => PaymentEffect(p, id))
  {
    SumFilter(payments, (p: Payment) => p.payFromId == id || p.payToId == id,
              (p: Payment) => if p.payToId == id then -p.amount else p.amount,
              (p: Payment) => PaymentEffect(p, id));
  }

  // ---------------------------------------------------------------------
  // Order independence

  /** Every figure of a subject's entry is the same for any ordering of the records. */
  lemma SummaryOrderIndependent(subject: Subject,
                                headers: seq<Header>, details: seq<Detail>, payments: seq<Payment>,
                                headers': seq<Header>, details': seq<Detail>, payments': seq<Payment>)
    requires multiset(headers) == multiset(headers')
    requires multiset(details) == multiset(details')
    requires multiset(payments) == multiset(payments')
    ensures var e, e' := Summarize(subject, headers, details, payments),
                         Summarize(subject, headers', details', payments');
      && e.paidAmount == e'.paidAmount
      && e.chargedAmount == e'.chargedAmount
      && e.netPayments == e'.netPayments
      && e.balance == e'.balance
      && multiset(e.paymentsInvolved) == multiset(e'.paymentsInvolved)
  {
    var id := subject.id;
    PaidAmountIsSum(headers, id);
    PaidAmountIsSum(headers', id);
    SumPermutation(headers, headers', (h: Header) => if h.paidById == id then h.amount else 0);
    ChargedAmountIsSum(details, id);
    ChargedAmountIsSum(details', id);
    SumPermutation(details, details', (d: Detail) => if d.chargedUserId == id then d.amount else 0);
    NetPaymentsIsSum(payments, id);
    NetPaymentsIsSum(payments', id);
    SumPermutation(payments, payments', (p: Payment) => PaymentEffect(p, id));
    FilterPermutation(payments, payments', (p: Payment) => p.payFromId == id || p.payToId == id);
  }

  // ---------------------------------------------------------------------
  // The balances of a consistent bill sum to zero.

  /** Subject ids are pairwise distinct. */
  ghost predicate DistinctIds(subjects: seq<Subject>)
  {
    forall i, j :: 0 <= i < j < |subjects| ==> subjects[i].id != subjects[j].id
  }

  ghost predicate IsSubjectId(subjects: seq<Subject>, id: int)
  {
    exists s :: s in subjects && s.id == id
  }

  /**
   * What the rest of the application maintains about the records: every payer,
   * charged user and payment end is a subject; header ids are distinct and each
   * header's details sum to its amount.
   */
  ghost predicate ConsistentRecords(subjects: seq<Subject>, headers: seq<Header>, details: seq<Detail>,
                                    payments: seq<Payment>)
  {
    && DistinctIds(subjects)
    && (forall h :: h in headers ==> IsSubjectId(subjects, h.paidById))
    && (forall d :: d in details ==> IsSubjectId(subjects, d.chargedUserId))
    && (forall p :: p in payments ==> IsSubjectId(subjects, p.payFromId) && IsSubjectId(subjects, p.payToId))
    && (forall i, j :: 0 <= i < j < |headers| ==> headers[i].id != headers[j].id)
    && (forall d :: d in details ==> exists h :: h in headers && h.id == d.headerId)
    && (forall h :: h in headers ==>
          h.amount == Sum(Filter(details, (d: Detail) => d.headerId == h.id), (d: Detail) => d.amount))
  }

  /** A consistent bill also has no payment from a subject to itself. */
  ghost predicate Consistent(subjects: seq<Subject>, headers: seq<Header>, details: seq<Detail>,
                             payments: seq<Payment>)
  {
    && ConsistentRecords(subjects, headers, details, payments)
    && (forall p :: p in payments ==> p.payFromId != p.payToId)
  }

  /** The amount of a payment from a subject to itself, 0 for any other payment. */
  function SelfAmount(p: Payment): int
  {
    if p.payFromId == p.payToId then p.amount else 0
  }

  function TotalBalance(summary: seq<SubjectSummary>): int
  {
    Sum(summary, (e: SubjectSummary) => e.balance)
  }

  /**
   * Summing, over subjects with distinct ids, each subject's share `c` of every
   * record gives the total of the records, when every record's key is a subject.
   */
  lemma SumOverSubjects<T>(subjects: seq<Subject>, xs: seq<T>, key: T -> int, f: T -> int,
                           c: (Subject, T) -> int, perSubject: Subject -> int)
    requires DistinctIds(subjects)
    requires forall x :: x in xs ==> IsSubjectId(subjects, key(x))
    requires forall s: Subject, x: T :: c(s, x) == if key(x) == s.id then f(x) else 0
    requires forall s :: s in subjects ==> perSubject(s) == Sum(xs, Row(c, s))
    ensures Sum(subjects, perSubject) == Sum(xs, f)
  {
    var cols := (x: T) => Sum(subjects, Column(c, x));
    SumSwap(subjects, xs, c, perSubject, cols);
    forall x | x in xs ensures cols(x) == f(x) {
      SumPickOne(subjects, (s: Subject) => s.id, key(x), f(x), Column(c, x));
    }
    SumCongruent(xs, cols, f);
  }

  lemma TotalPaid(subjects: seq<Subject>, headers: seq<Header>)
    requires DistinctIds(subjects)
    requires forall h :: h in headers ==> IsSubjectId(subjects, h.paidById)
    ensures Sum(subjects, (s: Subject) => PaidAmount(headers, s.id)) == Sum(headers, (h: Header) => h.amount)
  {
    var c := (s: Subject, h: Header) => if h.paidById == s.id then h.amount else 0;
    forall s | s in subjects ensures PaidAmount(headers, s.id) == Sum(headers, Row(c, s)) {
      SumFilter(headers, (h: Header) => h.paidById == s.id, (h: Header) => h.amount, Row(c, s));
    }
    SumOverSubjects(subjects, headers, (h: Header) => h.paidById, (h: Header) => h.amount, c,
                    (s: Subject) => PaidAmount(headers, s.id));
  }

  lemma TotalCharged(subjects: seq<Subject>, details: seq<Detail>)
    requires DistinctIds(subjects)
    requires forall d :: d in details ==> IsSubjectId(subjects, d.chargedUserId)
    ensures Sum(subjects, (s: Subject) => ChargedAmount(details, s.id)) == Sum(details, (d: Detail) => d.amount)
  {
    var c := (s: Subject, d: Detail) => if d.chargedUserId == s.id then d.amount else 0;
    forall s | s in subjects ensures ChargedAmount(details, s.id) == Sum(details, Row(c, s)) {
      SumFilter(details, (d: Detail) => d.chargedUserId == s.id, (d: Detail) => d.amount, Row(c, s));
    }
    SumOverSubjects(subjects, details, (d: Detail) => d.chargedUserId, (d: Detail) => d.amount, c,
                    (s: Subject) => ChargedAmount(details, s.id));
  }

  lemma TotalNetPayments(subjects: seq<Subject>, payments: seq<Payment>)
    requires DistinctIds(subjects)
    requires forall p :: p in payments ==> IsSubjectId(subjects, p.payFromId) && IsSubjectId(subjects, p.payToId)
    requires forall p :: p in payments ==> p.payFromId != p.payToId
    ensures Sum(subjects, (s: Subject) => NetPayments(payments, s.id)) == 0
  {
    TotalNetPaymentsWithSelf(subjects, payments);
    SumZero(payments, SelfAmount);
  }

  /** Over all subjects the net payments total minus the payments each subject made to itself. */
  lemma TotalNetPaymentsWithSelf(subjects: seq<Subject>, payments: seq<Payment>)
    requires DistinctIds(subjects)
    requires forall p :: p in payments ==> IsSubjectId(subjects, p.payFromId) && IsSubjectId(subjects, p.payToId)
    ensures Sum(subjects, (s: Subject) => NetPayments(payments, s.id)) == -Sum(payments, SelfAmount)
  {
    var c := (s: Subject, p: Payment) => PaymentEffect(p, s.id);
    var cols := (p: Payment) => Sum(subjects, Column(c, p));
    forall s | s in subjects ensures NetPayments(payments, s.id) == Sum(payments, Row(c, s)) {
      SumFilter(payments, (p: Payment) => p.payFromId == s.id || p.payToId == s.id,
                (p: Payment) => if p.payToId == s.id then -p.amount else p.amount, Row(c, s));
    }
    SumSwap(subjects, payments, c, (s: Subject) => NetPayments(payments, s.id), cols);
    forall p | p in payments ensures cols(p) == -SelfAmount(p) {
      PaymentColumn(subjects, p, c);
    }
    SumNegate(payments, SelfAmount, cols);
  }

  /** One payment's effects over all subjects: they cancel, unless it goes to its own sender. */
  lemma PaymentColumn(subjects: seq<Subject>, p: Payment, c: (Subject, Payment) -> int)
    requires DistinctIds(subjects)
    requires IsSubjectId(subjects, p.payFromId) && IsSubjectId(subjects, p.payToId)
    requires forall s: Subject, q: Payment :: c(s, q) == PaymentEffect(q, s.id)
    ensures Sum(subjects, Column(c, p)) == -SelfAmount(p)
  {
    if p.payFromId != p.payToId {
      PaymentCancels(subjects, p, c);
    } else {
      SumPickOne(subjects, (s: Subject) => s.id, p.payToId, -p.amount, Column(c, p));
    }
  }

  /** A payment between two subjects is received by one and sent by the other: its effects cancel. */
  lemma PaymentCancels(subjects: seq<Subject>, p: Payment, c: (Subject, Payment) -> int)
    requires DistinctIds(subjects)
    requires IsSubjectId(subjects, p.payFromId) && IsSubjectId(subjects, p.payToId) && p.payFromId != p.payToId
    requires forall s: Subject, q: Payment :: c(s, q) == PaymentEffect(q, s.id)
    ensures Sum(subjects, Column(c, p)) == 0
  {
    var received := (s: Subject) => if s.id == p.payToId then -p.amount else 0;
    var sent := (s: Subject) => if s.id == p.payFromId then p.amount else 0;
    SumPickOne(subjects, (s: Subject) => s.id, p.payToId, -p.amount, received);
    SumPickOne(subjects, (s: Subject) => s.id, p.payFromId, p.amount, sent);
    SumAdd(subjects, received, sent, Column(c, p));
  }

  /** With header ids distinct and every detail under some header, the details total the headers. */
  lemma DetailsTotalHeaders(headers: seq<Header>, details: seq<Detail>)
    requires forall i, j :: 0 <= i < j < |headers| ==> headers[i].id != headers[j].id
    requires forall d :: d in details ==> exists h :: h in headers && h.id == d.headerId
    requires forall h :: h in headers ==>
      h.amount == Sum(Filter(details, (d: Detail) => d.headerId == h.id), (d: Detail) => d.amount)
    ensures Sum(headers, (h: Header) => h.amount) == Sum(details, (d: Detail) => d.amount)
  {
    var c := (h: Header, d: Detail) => if d.headerId == h.id then d.amount else 0;
    var cols := (d: Detail) => Sum(headers, Column(c, d));
    forall h | h in headers ensures h.amount == Sum(details, Row(c, h)) {
      SumFilter(details, (d: Detail) => d.headerId == h.id, (d: Detail) => d.amount, Row(c, h));
    }
    SumSwap(headers, details, c, (h: Header) => h.amount, cols);
    forall d | d in details ensures cols(d) == d.amount {
      SumPickOne(headers, (h: Header) => h.id, d.headerId, d.amount, Column(c, d));
    }
    SumCongruent(details, cols, (d: Detail) => d.amount);
  }

  /** In a consistent bill the participants' balances sum to zero. */
  lemma BalancesSumToZero(subjects: seq<Subject>, headers: seq<Header>, details: seq<Detail>,
                          payments: seq<Payment>)
    requires Consistent(subjects, headers, details, payments)
    ensures TotalBalance(ParticipantSummary(subjects, headers, details, payments)) == 0
  {
    SelfPaymentBreaksZeroSum(subjects, headers, details, payments);
    SumZero(payments, SelfAmount);
  }

  /**
   * Without the "no payment to oneself" condition the zero sum fails: a
   * self-payment counts only as received, so the balances total minus the
   * amounts the subjects paid to themselves.
   */
  lemma SelfPaymentBreaksZeroSum(subjects: seq<Subject>, headers: seq<Header>, details: seq<Detail>,
                                 payments: seq<Payment>)
    requires ConsistentRecords(subjects, headers, details, payments)
    ensures TotalBalance(ParticipantSummary(subjects, headers, details, payments)) == -Sum(payments, SelfAmount)
  {
    var paid := (s: Subject) => PaidAmount(headers, s.id);
    var charged := (s: Subject) => ChargedAmount(details, s.id);
    var net := (s: Subject) => NetPayments(payments, s.id);
    var balance := (s: Subject) => paid(s) - charged(s) + net(s);
    var owed := (s: Subject) => paid(s) - charged(s);
    var minusCharged := (s: Subject) => -charged(s);
    SumMap(subjects, (s: Subject) => Summarize(s, headers, details, payments), (e: SubjectSummary) => e.balance, balance);
    SumAdd(subjects, owed, net, balance);
    SumAdd(subjects, paid, minusCharged, owed);
    SumNegate(subjects, charged, minusCharged);
    TotalPaid(subjects, headers);
    TotalCharged(subjects, details);
    TotalNetPaymentsWithSelf(subjects, payments);
    DetailsTotalHeaders(headers, details);
  }

  // ---------------------------------------------------------------------
  // Filter by type and grand total

  /** `selectedBillType === 'all' ? headers : headers.filter((h: Header) => h.bill_type === parseInt(selectedBillType))`. */
  function FilteredHeaders(headers: seq<Header>, selected: string): seq<Header>
  {
    if selected == "all" then headers
    else Filter(headers, (h: Header) => ParseInt(selected) == Some(h.billType))
  }

  /** The grand total of the filtered headers. */
  function GrandTotal(headers: seq<Header>, selected: string): int
  {
    Sum(FilteredHeaders(headers, selected), (h: Header) => h.amount)
  }

  /** The select value of a category. */
  function SelectValue(t: BillType): string
  {
    DecimalString(Code(t))
  }

  /** Choosing a category keeps exactly the headers of that category, each as often as it occurs. */
  lemma FilterByType(headers: seq<Header>, t: BillType)
    ensures FilteredHeaders(headers, SelectValue(t)) == Filter(headers, (h: Header) => h.billType == Code(t))
    ensures forall h :: multiset(FilteredHeaders(headers, SelectValue(t)))[h]
                      == if h.billType == Code(t) then multiset(headers)[h] else 0
  {
    var v := SelectValue(t);
    ParseIntDecimalString(Code(t));
    assert ParseInt(v) == Some(Code(t));
    assert v != "all" by {
      assert IsDigits(v);
      assert !IsDecimalDigit('a');
    }
    var q := (h: Header) => h.billType == Code(t);
    FilterSame(headers, (h: Header) => ParseInt(v) == Some(h.billType), q);
    forall h ensures multiset(Filter(headers, q))[h] == if q(h) then multiset(headers)[h] else 0 {
      FilterCount(headers, q, h);
    }
  }

  /** A header's amount counted towards category `t` only. */
  function CategoryPart(t: BillType): Header -> int
  {
    (h: Header) => if h.billType == Code(t) then h.amount else 0
  }

  /** A category's grand total counts every header of that category once. */
  lemma CategoryTotal(headers: seq<Header>, t: BillType)
    ensures GrandTotal(headers, SelectValue(t)) == Sum(headers, CategoryPart(t))
  {
    FilterByType(headers, t);
    SumFilter(headers, (h: Header) => h.billType == Code(t), (h: Header) => h.amount, CategoryPart(t));
  }

  /** When every header has a valid category, the three category totals add up to the 'all' total. */
  lemma GrandTotalsAddUp(headers: seq<Header>)
    requires forall h :: h in headers ==> FromCode(h.billType).Some?
    ensures GrandTotal(headers, SelectValue(Others)) + GrandTotal(headers, SelectValue(Transportation))
            + GrandTotal(headers, SelectValue(Food)) == GrandTotal(headers, "all")
  {
    CategoryTotal(headers, Others);
    CategoryTotal(headers, Transportation);
    CategoryTotal(headers, Food);
    var two := (h: Header) => CategoryPart(Others)(h) + CategoryPart(Transportation)(h);
    var amount := (h: Header) => h.amount;
    forall h | h in headers ensures amount(h) == two(h) + CategoryPart(Food)(h) {
      assert 0 <= h.billType <= 2;
    }
    SumAdd(headers, CategoryPart(Others), CategoryPart(Transportation), two);
    SumAdd(headers, two, CategoryPart(Food), amount);
  }

  /** `getBillTypeLabel`. */
  function BillTypeLabel(billType: int): string
  {
    if billType == Code(Transportation) then "Transportation"
    else if billType == Code(Food) then "Food"
    else "Others"
  }

  /** 1 and 2 have their own labels; 0 and every number outside the enumeration read "Others". */
  lemma BillTypeLabels(n: int)
    ensures BillTypeLabel(1) == "Transportation" && BillTypeLabel(2) == "Food"
    ensures FromCode(n) != Some(Transportation) && FromCode(n) != Some(Food) ==> BillTypeLabel(n) == "Others"
  {
  }
}
