# Split-bill core in Dafny

This project models the domain logic of a bill-splitting web application and
proves properties of that model. A bill has participants ("subjects"). Each
bill item (a "header") says who paid how much. Its "details" say how much each
participant is charged. "Payments" settle debts directly.

The model covers:

- **Ledger** (`ledger.dfy`). The detail page's participant summary:
  - each subject's paid, charged and net-payment figures, and their balance;
  - the bill-type filter;
  - the grand total;
  - the category labels.
- **Bill item form** (`bill_item_form.dfy`). Among them:
  - the split summary (total charged, remaining amount, unassigned rows, amounts-match flag);
  - "split equally", which rounds the share as `toFixed(0)` does;
  - the submit and split button guards;
  - the amount inputs;
  - a class for the form values that the add, remove, split and edit handlers change.
- **Validation schemas** (`validations.ts`, in `validations.dfy`). Each schema is an
  ordered list of issues, each with a path and the source's message. "Accepted" means
  the list is empty. Each schema is then proved equal to a direct statement of what
  it accepts.
- **Input formatting and the digest text** (`utils.dfy`):
  - `formatWithDots`, including its regular expression, modelled position by position;
  - `parseDotsFormatted`;
  - the byte-to-hexadecimal step of `hashPassword`.
- **Recent-bills store** (`store.dfy`). A class whose `bills` field changes under:
  - `addBill`, which moves the bill to the front and drops its first old copy;
  - `removeBill`;
  - `clearHistory`.
- **Slug generation and the bill-type enumeration** (`database.dfy`).
- **Create page** (`create_page.dfy`):
  - the participant-list guards (1 to 10 rows);
  - the default values;
  - the blank-row filter applied on submit.

Shared building blocks:

- `folds.dfy` holds `Sum`, `Filter` and `Map`, standing for `reduce`, `filter` and `map`, with their algebra.
- `numerals.dfy` holds `toString(radix)`, the digit reading shared by `parseFloat` and `parseInt`, `trim`, and ASCII `toLowerCase`.

Modelling decisions:

- **Money.** Amounts are integers, since the currency (IDR) has no decimals.
- **Amount text.** The inputs only ever store decimal digit strings, so `parseFloat` is read on digit strings. `None` stands for `NaN`.
- **Time.** `Date.now()` is a parameter of `GenerateSlug`.

The ledger's sign convention follows the code at `src/pages/DetailPage.tsx:71-74`:

- a payment received subtracts its amount;
- a payment sent adds it.

The comment on line 69 says the opposite.

Two facts about the source that the model makes explicit:

- The create page's form has no password field. `createBillSchema` requires one, so that form is always rejected with "Required" on `password` (`CreateBillWithoutPassword`).
- A row of one space passes the schema's per-subject length rule, yet it is dropped before sending (`BlankRowPassesSchema`).

## Model

| member | source | states |
|---|---|---|
| Ledger.PaidAmount | src/pages/DetailPage.tsx:56-58 | `filter` by payer then `reduce` of the amounts; its meaning is stated by `Ledger.PaidAmountIsSum` |
| Ledger.ChargedAmount | src/pages/DetailPage.tsx:60-62 | `filter` by charged user then `reduce` of the amounts; its meaning is stated by `Ledger.ChargedAmountIsSum` |
| Ledger.PaymentsInvolved | src/pages/DetailPage.tsx:65-67 | the payments the subject sent or received, in order; `Ledger.SummaryOrderIndependent` states that they are the same multiset for any ordering of the payments |
| Ledger.NetPayments | src/pages/DetailPage.tsx:70-76 | the `reduce` with the code's signs; its meaning is stated by `Ledger.NetPaymentsIsSum` |
| Ledger.Summarize | src/pages/DetailPage.tsx:55-88 | one subject's entry; its figures are stated by `Ledger.ParticipantSummary` and `Ledger.SummaryOrderIndependent` |
| Ledger.ParticipantSummary | src/pages/DetailPage.tsx:55-88 | one entry per subject, in subject order, carrying the subject, its paid, charged and net-payment figures, and balance = paid − charged + net |
| Ledger.PaidAmountIsSum | src/pages/DetailPage.tsx:56-58 | paid amount = sum over all headers of the amount when the payer is the subject, else 0; it is 0 when the subject paid for nothing |
| Ledger.ChargedAmountIsSum | src/pages/DetailPage.tsx:60-62 | charged amount = sum over all details of the amount when charged to the subject, else 0; it is 0 when the subject is charged nothing |
| Ledger.NetPaymentsIsSum | src/pages/DetailPage.tsx:65-76 | net payments = sum of −amount for each payment received, +amount for each payment sent, 0 for the others |
| Ledger.SummaryOrderIndependent | src/pages/DetailPage.tsx:55-88 | every figure of an entry is the same for any permutation of headers, details and payments |
| Ledger.TotalPaid | src/pages/DetailPage.tsx:56-58 | with distinct subject ids and every payer a subject, the paid amounts over all subjects total all headers |
| Ledger.TotalCharged | src/pages/DetailPage.tsx:60-62 | with distinct subject ids and every charged user a subject, the charged amounts total all details |
| Ledger.TotalNetPayments | src/pages/DetailPage.tsx:65-76 | when no payment goes to its own sender and both ends are subjects, the net payments over all subjects sum to 0 |
| Ledger.TotalNetPaymentsWithSelf | src/pages/DetailPage.tsx:65-76 | when both ends of every payment are subjects, the net payments over all subjects total minus the sum of the self-payments' amounts |
| Ledger.PaymentColumn | src/pages/DetailPage.tsx:70-76 | over all subjects one payment's effects total 0, or −amount when it goes to its own sender |
| Ledger.PaymentCancels | src/pages/DetailPage.tsx:70-76 | a payment between two different subjects adds +amount for one and −amount for the other, 0 in total |
| Ledger.DetailsTotalHeaders | src/pages/DetailPage.tsx:55-62 | when header ids are distinct, every detail belongs to a header and each header's details sum to its amount, all details total all headers |
| Ledger.BalancesSumToZero | src/pages/DetailPage.tsx:55-78 | in a consistent bill the balances of all participants sum to 0 |
| Ledger.SelfPaymentBreaksZeroSum | src/pages/DetailPage.tsx:55-78 | for every bill consistent apart from self-payments, the balances total minus the sum of the amounts each subject paid to itself; a self-payment counts only as received |
| Ledger.FilteredHeaders | src/pages/DetailPage.tsx:50-52 | 'all' keeps every header, and otherwise the headers whose `bill_type` equals `parseInt` of the choice; stated per category by `Ledger.FilterByType` |
| Ledger.FilterByType | src/pages/DetailPage.tsx:50-52 | choosing a category keeps exactly its headers, each as often as it occurs, in order |
| Ledger.GrandTotal | src/pages/DetailPage.tsx:198 | the `reduce` of the filtered headers' amounts; stated by `Ledger.CategoryTotal` and `Ledger.GrandTotalsAddUp` |
| Ledger.CategoryTotal | src/pages/DetailPage.tsx:198 | a category's grand total counts each header of that category once |
| Ledger.GrandTotalsAddUp | src/pages/DetailPage.tsx:198 | when every header has a valid category, the three category totals add up to the 'all' total |
| Ledger.BillTypeLabel | src/pages/DetailPage.tsx:136-146 | the `switch` with its `default`; the whole table is stated by `Ledger.BillTypeLabels` |
| Ledger.BillTypeLabels | src/pages/DetailPage.tsx:136-146 | 1 reads "Transportation", 2 reads "Food", and every other number "Others" |
| BillItemForm.TotalCharged | src/components/BillItemForm.tsx:130-133 | the sum of the rows' amounts, with an amount that does not parse counting 0; stated by `BillItemForm.AssignShareTotal` and `BillItemForm.UnassignedCountsZero` |
| BillItemForm.RemainingAmount | src/components/BillItemForm.tsx:135 | the item amount (0 when it does not parse) minus the charged total; stated by `BillItemForm.SplitRemaining` and `BillItemForm.AmountsMatchIff` |
| BillItemForm.UnassignedUsers | src/components/BillItemForm.tsx:136-138 | the rows with an empty or zero amount, in order; stated by `BillItemForm.SplitRows` and `BillItemForm.SplitPositiveShare` |
| BillItemForm.AmountsMatch | src/components/BillItemForm.tsx:141 | the 0.01 tolerance on the remaining amount; stated by `BillItemForm.AmountsMatchIff` |
| BillItemForm.HasValidAmounts | src/components/BillItemForm.tsx:142 | a positive item amount whose charges match; stated by `BillItemForm.AmountsMatchIff` |
| BillItemForm.SubmitEnabled | src/components/BillItemForm.tsx:401 | the submit button's guard; stated by `BillItemForm.AmountsMatchIff` |
| BillItemForm.SplitEnabled | src/components/BillItemForm.tsx:267 | the split button's guard; stated by `BillItemForm.SplitUnchangedUnlessEnabled` |
| BillItemForm.SplitEqually | src/components/BillItemForm.tsx:89-126 | both early returns, the share, and the `map` over the rows; stated by `BillItemForm.SplitUnchangedUnlessEnabled`, `BillItemForm.SplitRows`, `BillItemForm.SplitTotals` and `BillItemForm.SplitIdempotent` |
| BillItemForm.UnassignedCountsZero | src/components/BillItemForm.tsx:130-138 | an unassigned row (empty or zero amount) counts 0 towards the charged total |
| BillItemForm.AmountsMatchIff | src/components/BillItemForm.tsx:135-142 | amounts match iff the remaining amount is 0; with the form idle, submit is enabled iff the amount parses, is positive and equals the charged total; submit is never enabled while loading |
| BillItemForm.Share | src/components/BillItemForm.tsx:115-120 | the share is within half a unit of remaining / count, a tie rounding up |
| BillItemForm.ShareUnique | src/components/BillItemForm.tsx:115-120 | no other integer is that near: the rounded share is unique |
| BillItemForm.ShareExact | src/components/BillItemForm.tsx:115-120 | when count divides the remaining amount, the share is the exact quotient |
| BillItemForm.SplitUnchangedUnlessEnabled | src/components/BillItemForm.tsx:99-112 | nothing remaining, or no unassigned row, leaves the rows unchanged; the split button is enabled exactly when the update branch runs |
| BillItemForm.SplitRows | src/components/BillItemForm.tsx:118-123 | the split keeps the number of rows and every user; each unassigned row gets the share's text and every other row is untouched |
| BillItemForm.AssignShareTotal | src/components/BillItemForm.tsx:118-133 | giving the share to the unassigned rows raises the charged total by share × (number of unassigned rows) |
| BillItemForm.SplitRemaining | src/components/BillItemForm.tsx:115-135 | after a split the remaining amount is the old one minus count × share |
| BillItemForm.SplitTotals | src/components/BillItemForm.tsx:115-141 | after a split, −count ≤ 2 × remaining < count; when count divided the old remaining amount, the totals match exactly |
| BillItemForm.SplitExact | src/components/BillItemForm.tsx:115-141 | when count divides the remaining amount, nothing remains after the split and the amounts match |
| BillItemForm.SplitIdempotent | src/components/BillItemForm.tsx:89-126 | splitting a second time changes nothing |
| BillItemForm.SplitPositiveShare | src/components/BillItemForm.tsx:106-123 | a positive share leaves no row unassigned |
| BillItemForm.SplitZeroShare | src/components/BillItemForm.tsx:106-123 | with a share of 0 the rows get "0" and so stay unassigned, yet splitting again changes nothing |
| BillItemForm.AmountInput | src/components/BillItemForm.tsx:195 | the amount inputs' `onChange`: drop every character other than digits and '.', then the dots; stated by `BillItemForm.AmountInputDigits` |
| BillItemForm.AmountInputDigits | src/components/BillItemForm.tsx:195 | what an amount input stores is exactly the typed text's decimal digits, in order |
| BillItemForm.AmountDisplayRoundTrip | src/components/BillItemForm.tsx:192-196 | a stored digit string is shown as its grouping, and retyping what is shown stores the same digits |
| BillItemForm.ItemFormState.constructor | src/components/BillItemForm.tsx:55-64 | without initial data: empty name and amount, payer 0, category Others, one row with user 0 and empty amount |
| BillItemForm.ItemFormState.FromInitial | src/components/BillItemForm.tsx:57 | with initial data the form starts from exactly those values |
| BillItemForm.ItemFormState.AddChargedUser | src/components/BillItemForm.tsx:79-81 | appends a row with user 0 and empty amount; no other field changes |
| BillItemForm.ItemFormState.RemoveChargedUser | src/components/BillItemForm.tsx:83-87 | removes the row only while more than one is left, so a non-empty list stays non-empty; no other field changes |
| BillItemForm.ItemFormState.SplitEquallyNow | src/components/BillItemForm.tsx:89-126 | the rows become the split of the current amount and rows; no other field changes |
| BillItemForm.ItemFormState.EditAmount | src/components/BillItemForm.tsx:193-196 | the amount becomes the typed text's digits; the rest is unchanged |
| BillItemForm.ItemFormState.EditRowAmount | src/components/BillItemForm.tsx:323-326 | only that row's amount changes, to the typed text's digits |
| Validations.LengthIssues | src/lib/validations.ts:5-8 | no issue iff lo ≤ length ≤ hi (both bounds inclusive); every issue is on the field's path |
| Validations.PositiveAmountIssues | src/lib/validations.ts:26-31 | no issue iff the amount parses to a value greater than 0 |
| Validations.WithinToleranceIsEquality | src/lib/validations.ts:55 | on whole amounts, a difference below 0.01 means equality |
| Validations.CreateBillIssues | src/lib/validations.ts:4-17 | the issues `createBillSchema` reports, field by field, in order; stated by `Validations.CreateBillAccepted` and `Validations.CreateBillWithoutPassword` |
| Validations.CreateBillAccepted | src/lib/validations.ts:4-17 | a bill is accepted iff the name and password have 1..100 characters and there are 1..10 subjects of 1..50 characters |
| Validations.CreateBillWithoutPassword | src/lib/validations.ts:9-12 | input without a password always carries the issue "Required" on `password` |
| Validations.ChargedTotalIsSum | src/lib/validations.ts:46-48 | the `reduce` total is a number iff every amount parses, and is then the sum of the amounts |
| Validations.ChargedUserAccepted | src/lib/validations.ts:38-44 | a row passes iff a user is selected (id ≥ 1) and its amount parses |
| Validations.ChargedRowsAccepted | src/lib/validations.ts:38-44 | the rows pass one by one iff each has a user and an amount that parses |
| Validations.ChargedUsersAccepted | src/lib/validations.ts:37-51 | the charged users pass iff there is at least one, each row passes, and the amounts sum to more than 0 |
| Validations.ItemFieldsAccepted | src/lib/validations.ts:21-51 | the fields pass iff: name has 1..100 characters; amount is positive; payer ≥ 1; category valid; charged users pass |
| Validations.CategoryCodes | src/lib/validations.ts:35-36 | the enumeration accepts exactly 0, 1 and 2 |
| Validations.ItemIssuesEmpty | src/lib/validations.ts:52-59 | the whole schema passes iff the fields pass and the charges add up to the amount |
| Validations.ItemIssues | src/lib/validations.ts:21-59 | the issues `addBillInformationSchema` reports, the object refinement last; stated by `Validations.ItemAccepted` and `Validations.ItemMismatchOnChargedUsers` |
| Validations.ItemAccepted | src/lib/validations.ts:21-59 | an item is accepted iff: name has 1..100 characters; amount is positive; payer ≥ 1; category in {0,1,2}; at least one row; every row has a user and a parsing amount; charges are positive and sum to the amount |
| Validations.ItemMismatchOnChargedUsers | src/lib/validations.ts:52-59 | with a valid category and charges that do not add up, the last issue is the mismatch on `chargedUsers`; with an invalid category the refinement is not run; acceptance implies the totals match |
| Validations.PaymentIssues | src/lib/validations.ts:63-79 | the issues `createPaymentSchema` reports; stated by `Validations.PaymentAccepted` |
| Validations.PaymentAccepted | src/lib/validations.ts:63-79 | a payment is accepted iff both ids are ≥ 1 and differ and the amount is positive; paying oneself yields the issue on `payToId`, and only then |
| Validations.BillIdIssues | src/lib/validations.ts:96-103 | the issues of the `billId` field, shared by `joinBillIdSchema` and `joinBillSchema`; stated by `Validations.BillIdAccepted` |
| Validations.BillIdAccepted | src/lib/validations.ts:96-103 | a bill id is accepted iff `parseInt` reads a positive number from it; every positive decimal numeral is accepted |
| Validations.BillIdAcceptsTrailingText | src/lib/validations.ts:100 | "12abc" is accepted, because `parseInt` reads a prefix |
| Validations.JoinBillIssues | src/lib/validations.ts:83-94 | the issues `joinBillSchema` reports; stated by `Validations.JoinBillAccepted` |
| Validations.JoinBillAccepted | src/lib/validations.ts:83-94 | joining is accepted iff the bill id is accepted and the password has 1..100 characters |
| Utils.ParseDots | src/lib/utils.ts:42-44 | `parseDotsFormatted`: the text without its dots; stated by `Utils.ParseDotsProperties` |
| Utils.ParseDotsProperties | src/lib/utils.ts:42-44 | the result has no '.', keeps every other character as often as it occurs, is idempotent, and leaves dot-free text unchanged |
| Utils.ParseDotsAppend | src/lib/utils.ts:42-44 | removing dots from a concatenation removes them from each part |
| Utils.SplitDotsPieces | src/lib/utils.ts:37 | no piece of the split holds a '.', and the first piece is the text before the first '.' |
| Utils.JoinSplit | src/lib/utils.ts:37-39 | joining the split pieces with '.' gives the text back |
| Utils.SplitJoin | src/lib/utils.ts:37-39 | splitting a join of dot-free pieces gives the pieces back |
| Utils.FormatWithDots | src/lib/utils.ts:35-40 | `formatWithDots` on strings: '' gives ''; otherwise split at '.', regroup the first piece, join; stated by `Utils.FormatRegroupsHead`, `Utils.FormatDigits` and `Utils.FormatRoundTrip` |
| Utils.FormatRegroupsHead | src/lib/utils.ts:35-40 | '' gives ''; otherwise only the text before the first '.' is regrouped and everything from the first '.' on is kept verbatim |
| Utils.GroupsAheadIff | src/lib/utils.ts:38 | the lookahead holds iff the run of digits ahead is a positive multiple of 3 long |
| Utils.DotAtDigits | src/lib/utils.ts:38 | in a digit string, a '.' is inserted exactly before positions followed by a positive multiple of 3 digits, never at the start |
| Utils.InsertDotsDigits | src/lib/utils.ts:38 | on digit strings the replacement equals the reference grouping (last three digits split off, recursively) |
| Utils.GroupedLength | src/lib/utils.ts:38 | a grouped numeral of n ≥ 1 digits has n + (n − 1) div 3 characters |
| Utils.GroupsShape | src/lib/utils.ts:38 | the reference groups: the first has 1..3 characters, each later one exactly 3, and together they are the input |
| Utils.GroupedShape | src/lib/utils.ts:38 | the groups of a grouped digit string: the first has 1..3 digits, every later one 3, and together they are the digits |
| Utils.ParseDotsDotsFrom | src/lib/utils.ts:38-43 | the replacement only inserts dots: removing dots afterwards gives the same as removing them from the input |
| Utils.FormatRoundTrip | src/lib/utils.ts:35-44 | `parseDotsFormatted(formatWithDots(s))` equals `parseDotsFormatted(s)`, which is `s` for every digit string |
| Utils.FormatDigits | src/lib/utils.ts:35-40 | on a digit string, `formatWithDots` is the reference grouping |
| Utils.PadStart | src/lib/utils.ts:30 | the result is at least n long, ends with the input and is padded in front with the pad character |
| Utils.HexByteShape | src/lib/utils.ts:30 | each byte becomes exactly two lowercase hexadecimal characters, which read back as the byte |
| Utils.HexByteInjective | src/lib/utils.ts:30 | different bytes have different encodings |
| Utils.HexDigest | src/lib/utils.ts:29-31 | each byte as two hexadecimal characters, joined; stated by `Utils.HexDigestShape`, `Utils.HexDigestRoundTrip` and `Utils.HexDigestInjective` |
| Utils.HexDigestShape | src/lib/utils.ts:29-31 | the digest text has 2 lowercase hexadecimal characters per byte (64 for a 32-byte digest) |
| Utils.HexDigestRoundTrip | src/lib/utils.ts:29-31 | the digest text decodes back to the bytes |
| Utils.HexDigestInjective | src/lib/utils.ts:29-31 | different byte sequences have different digest texts |
| BillHistory.FirstIndex | src/lib/store.ts:19 | the index of the first bill with the slug, or −1 exactly when none has it |
| BillHistory.Promote | src/lib/store.ts:19-28 | the list `addBill` makes; stated by `BillHistory.PromoteShape`, `BillHistory.PromoteUnique` and `BillHistory.PromoteKeepsOrder` |
| BillHistory.WithoutSlug | src/lib/store.ts:34 | the list `removeBill` makes; stated by `BillHistory.WithoutSlugProperties` |
| BillHistory.PromoteShape | src/lib/store.ts:19-28 | after adding, the bill is first; the length is unchanged iff a bill with its slug was present, and grows by one otherwise |
| BillHistory.PromoteUnique | src/lib/store.ts:19-28 | on a list with unique slugs, adding is "remove the slug, put the bill in front", and slugs stay unique |
| BillHistory.PromoteKeepsOrder | src/lib/store.ts:23-28 | apart from the slug's first old copy, the other bills keep their relative order; adding a bill then removing its slug leaves the old list with that slug removed |
| BillHistory.WithoutSlugProperties | src/lib/store.ts:32-36 | removing keeps exactly the bills with another slug, is idempotent, and is the identity when the slug is absent |
| BillHistory.BillHistoryStore.constructor | src/lib/store.ts:15 | the history starts empty |
| BillHistory.BillHistoryStore.FindIndex | src/lib/store.ts:19 | the loop returns the first index with the slug, or −1 |
| BillHistory.BillHistoryStore.AddBill | src/lib/store.ts:16-31 | the new list is the old one with the bill promoted to the front |
| BillHistory.BillHistoryStore.RemoveBill | src/lib/store.ts:32-36 | the new list is the old one without the slug |
| BillHistory.BillHistoryStore.ClearHistory | src/lib/store.ts:37-39 | the list becomes empty |
| Database.FromCode | src/lib/database.ts:3-7 | a stored number denotes a member exactly when it is that member's code (0, 1, 2) |
| Database.FromCodeOfCode | src/lib/database.ts:3-7 | each member's code reads back as the member |
| Database.CollapseRuns | src/lib/database.ts:398 | the result holds only `[a-z0-9]` and '-', never "--", and starts with '-' iff the input starts outside `[a-z0-9]` |
| Database.TrimDashes | src/lib/database.ts:399 | drops one leading and one trailing '-'; stated by `Database.SlugPrefixWellFormed` and `Database.TrimDashesKeepsSlugChars` |
| Database.SlugPrefix | src/lib/database.ts:396-399 | lower-case, collapse the runs, trim the end dashes; stated by `Database.SlugPrefixWellFormed` and `Database.SlugPrefixKeepsAlnums` |
| Database.GenerateSlug | src/lib/database.ts:395-401 | the prefix, '-', and `Date.now()` in base 36; stated by `Database.SlugShape` and `Database.SlugTimestampsDistinguish` |
| Database.SlugShape | src/lib/database.ts:395-401 | the slug is the prefix, '-', and the timestamp in base 36; the text after the last '-' uses only 0-9a-z and reads back as the timestamp |
| Database.SlugTimestampsDistinguish | src/lib/database.ts:400 | different creation times give different slugs, whatever the names |
| Database.SlugPrefixWellFormed | src/lib/database.ts:397-399 | the prefix holds only a-z, 0-9 and '-', never "--", and neither starts nor ends with '-' |
| Database.CollapseRunsBetween | src/lib/database.ts:398 | a non-empty run outside `[a-z0-9]` between a part ending and a part starting with a kept character becomes exactly one '-' between the two collapsed parts |
| Database.CollapseKeepsSlugChars | src/lib/database.ts:398 | collapsing runs keeps the letters and digits, in order |
| Database.LowerKeepsAlnums | src/lib/database.ts:397 | lower-casing and keeping `[a-z0-9]` equals keeping the ASCII letters and digits and lower-casing them |
| Database.TrimDashesKeepsSlugChars | src/lib/database.ts:399 | trimming the end dashes keeps the letters and digits |
| Database.SlugPrefixKeepsAlnums | src/lib/database.ts:397-399 | the prefix's letters and digits are the name's ASCII letters and digits, lower-cased, in order |
| Database.EmptySlugPrefix | src/lib/database.ts:397-399 | a name without ASCII letters or digits gives an empty prefix |
| Database.SlugOfNameWithoutAlnums | src/lib/database.ts:398-400 | such a name gives the slug "-" followed by the timestamp in base 36 |
| Numerals.ToRadix | src/lib/database.ts:400 | `toString(radix)` writes at least one digit of the radix, in lower case, with a leading zero only for 0 itself |
| Numerals.ValueOfToRadix | src/lib/database.ts:400 | the digits `toString(radix)` writes have the number as their positional value |
| Numerals.RadixRoundTrip | src/lib/database.ts:400 | reading back what `toString(radix)` wrote gives the number |
| Numerals.ToRadixValueOf | src/lib/database.ts:400 | a lower-case numeral without a leading zero is exactly what `toString` writes for its value |
| Numerals.ToRadixInjective | src/lib/database.ts:400 | different numbers are written differently |
| Numerals.ParseAmount | src/components/BillItemForm.tsx:131 | an amount text reads as a number iff it is a non-empty digit string |
| Numerals.DecimalString | src/components/BillItemForm.tsx:120 | `toFixed(0)` of a whole share is a non-empty decimal digit string, which the amount inputs accept |
| Numerals.AmountRoundTrip | src/components/BillItemForm.tsx:120 | the decimal text of a share reads back as the share |
| JsText.TrimStart | src/pages/CreatePage.tsx:33 | the result is a suffix that does not start with white space, and only white space was removed |
| JsText.TrimEnd | src/pages/CreatePage.tsx:33 | the result is a prefix that does not end with white space, and only white space was removed |
| JsText.Trim | src/pages/CreatePage.tsx:33 | `trim()`: `TrimEnd` of `TrimStart`; stated by `JsText.TrimStart`, `JsText.TrimEnd` and `JsText.TrimEmptyIffBlank` |
| JsText.TrimEmptyIffBlank | src/pages/CreatePage.tsx:33 | trimming gives '' iff every character is JavaScript white space |
| JsText.DigitPrefix | src/lib/validations.ts:100 | the prefix `parseInt` reads is made of radix digits and is the longest such: the character after it, if any, is not a digit |
| JsText.ParseInt | src/lib/validations.ts:100 | `parseInt(s)`: leading white space, an optional sign, a `0x` prefix, the digit prefix, or `NaN`; stated by `JsText.DigitPrefix`, `JsText.ParseIntDigits` and `Validations.BillIdAcceptsTrailingText` |
| JsText.ParseIntDigits | src/pages/DetailPage.tsx:52 | `parseInt` reads a decimal digit string as its value |
| JsText.ParseIntDecimalString | src/pages/DetailPage.tsx:52 | `parseInt(n.toString())` is n |
| JsText.ToLower | src/lib/database.ts:397 | same length, each character lower-cased |
| CreatePage.ApplyEdit | src/pages/CreatePage.tsx:44-54 | one click's effect on the rows; stated by `CreatePage.ApplyEditEffect` |
| CreatePage.ApplyEditEffect | src/pages/CreatePage.tsx:44-54 | "add" appends '' only below 10 rows; "remove i" drops row i only while more than one row is left; otherwise the list is unchanged |
| CreatePage.AddThenRemove | src/pages/CreatePage.tsx:44-54 | on a list of 1..9 rows, adding a row and removing it again gives back the list |
| CreatePage.EditsKeepBounds | src/pages/CreatePage.tsx:44-54 | no sequence of clicks takes a list of 1..10 rows out of that range |
| CreatePage.ReachableListsHaveValidCount | src/pages/CreatePage.tsx:20-54 | every list reachable from the default single row has 1..10 rows |
| CreatePage.SubmittedSubjects | src/pages/CreatePage.tsx:33 | the rows kept by the blank-row filter; stated by `CreatePage.SubmittedSubjectsMeaning`, `CreatePage.SubmittedSubjectsCount` and `CreatePage.SubmittedSubjectsOrder` |
| CreatePage.SubmittedSubjectsMeaning | src/pages/CreatePage.tsx:33 | a name is sent iff it is a row containing a character other than white space |
| CreatePage.SubmittedSubjectsCount | src/pages/CreatePage.tsx:33 | each named row is sent as often as it occurs; blank rows are not sent |
| CreatePage.SubmittedSubjectsOrder | src/pages/CreatePage.tsx:33 | the filter keeps the order of the rows |
| CreatePage.SubmittedSubjectsAllNamed | src/pages/CreatePage.tsx:33 | when every row holds a name, the list is sent unchanged |
| CreatePage.BlankRowPassesSchema | src/pages/CreatePage.tsx:33 | a row of one space passes the per-subject length rule, yet is dropped before sending |
| CreatePage.CreateForm.constructor | src/pages/CreatePage.tsx:18-21 | the form starts with an empty name and one empty row, which is a valid list |
| CreatePage.CreateForm.AddSubject | src/pages/CreatePage.tsx:44-48 | the rows become the result of "add"; the name is unchanged and a valid list stays valid |
| CreatePage.CreateForm.RemoveSubject | src/pages/CreatePage.tsx:50-54 | the rows become the result of "remove index"; the name is unchanged and a valid list stays valid |

## Left out

- Network and storage. The Supabase reads and writes, the react-query hooks and the `persist` middleware of the store are not modelled. The model keeps only the values they carry.
- SHA-256 and `TextEncoder` in `hashPassword`. Only the byte-to-hexadecimal step after the digest is modelled.
- `Date.now()`. It is a parameter of `GenerateSlug`.
- `formatCurrency` and `formatNumber`. They call `Intl.NumberFormat`, a locale-dependent foreign formatter. The grand total is modelled as the number it formats.
- The `localeCompare` sorts of the subject lists, because they are locale-dependent.
- Numbers passed to `formatWithDots` (the `value: number` case) are left out. The inputs only pass strings.
- ParseAmount: reads only decimal digit strings, where `parseFloat` also reads prefixes such as "12abc", signs, exponents and decimals. The amount inputs only ever store digit strings.
- Share: rounds the exact quotient half up, as `toFixed(0)` does for positive values. The binary floating-point error of `remaining / count` is not modelled.
- WithinToleranceIsEquality: the 0.01 tolerance is compared on exact integers. Floating-point error in the sums is not modelled.
- JsText.ToLower: lower-cases only ASCII letters. Unicode case mapping, such as the Kelvin sign, is not modelled.
- Database.SlugPrefixKeepsAlnums: holds for the program only on ASCII names, because JavaScript lower-cases the Kelvin sign (U+212A) to 'k', which the slug then keeps.
- Database.EmptySlugPrefix: holds for the program only on ASCII names; for the Kelvin sign alone the program's prefix is "k", not empty.
- Database.SlugOfNameWithoutAlnums: holds for the program only on ASCII names, for the same reason.
- String lengths count code points, not UTF-16 code units, so the schema length bounds differ for characters outside the Basic Multilingual Plane.
- The enumeration's failure message stands for the schema library's default text. It is not proved to be that library's exact wording.
- The detail page selects the payments involving a subject by the ids of the joined payer and payee rows. The model uses `pay_from_id` and `pay_to_id`, which those joins carry unchanged.
- The form library's internals: field registration, re-rendering, and `remove` with an index outside the list. For an out-of-range or negative index, the model removes nothing.
- The category `Select` handlers and the dialogs that host the forms, which are user-interface wiring.
- `capitalizeFirstLetter` and the relative-time display, which depend on Unicode case mapping and the clock.
