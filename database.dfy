/**
 * The row types of the backend tables, the bill category enumeration, and the
 * slug a new bill is given. The reads and writes against the backend are not
 * part of this model.
 */
module Database {
  import opened Wrappers
  import opened Folds
  import opened Numerals
  import opened JsText

  /** `enum BillType { Others = 0, Transportation = 1, Food = 2 }`. */
  datatype BillType = Others | Transportation | Food

  /** The number the enumeration member stands for. */
  function Code(t: BillType): int
  {
    match t
    case Others => 0
    case Transportation => 1
    case Food => 2
  }

  /** The member a stored number denotes, if any. */
  function FromCode(n: int): (r: Option<BillType>)
    ensures r.Some? ==> Code(r.value) == n
    ensures r.None? ==> forall t :: Code(t) != n
  {
    if n == 0 then Some(Others)
    else if n == 1 then Some(Transportation)
    else if n == 2 then Some(Food)
    else None
  }

  lemma FromCodeOfCode(t: BillType)
    ensures FromCode(Code(t)) == Some(t)
  {
  }

  datatype Bill = Bill(id: int, name: string, slug: string, password: string, createdAt: string)

  datatype Subject = Subject(id: int, name: string, billId: int)

  /** A bill item header: the payer fronted `amount`. */
  datatype Header = Header(id: int, billId: int, name: string, paidById: int, amount: int, billType: int)

  /** A bill item detail: `chargedUserId` owes `amount` of header `headerId`. */
  datatype Detail = Detail(id: int, headerId: int, chargedUserId: int, amount: int)

  /** A direct settlement from `payFromId` to `payToId`. */
  datatype Payment = Payment(id: int, billId: int, payFromId: int, payToId: int, amount: int)

  // ---------------------------------------------------------------------
  // generateSlug

  /** The characters `[a-z0-9]` the slug keeps. */
  predicate IsSlugChar(c: char)
  {
    'a' <= c <= 'z' || '0' <= c <= '9'
  }

  predicate IsAsciiAlnum(c: char)
  {
    'a' <= c <= 'z' || 'A' <= c <= 'Z' || '0' <= c <= '9'
  }

  /** The length of the run of characters outside `[a-z0-9]` that `s` starts with. */
  function RunLength(s: string): (k: nat)
    ensures k <= |s|
    ensures forall i :: 0 <= i < k ==> !IsSlugChar(s[i])
    ensures k < |s| ==> IsSlugChar(s[k])
  {
    if s != [] && !IsSlugChar(s[0]) then 1 + RunLength(s[1..]) else 0
  }

  /** `s.replace(/[^a-z0-9]+/g, '-')`: every maximal run outside `[a-z0-9]` becomes one '-'. */
  function CollapseRuns(s: string): (r: string)
    ensures forall i :: 0 <= i < |r| ==> IsSlugChar(r[i]) || r[i] == '-'
    ensures forall i :: 0 <= i < |r| - 1 ==> r[i] != '-' || r[i + 1] != '-'
    ensures |r| <= |s| && (r != [] ==> (r[0] == '-' <==> !IsSlugChar(s[0])))
    decreases |s|
  {
    if s == [] then []
    else if IsSlugChar(s[0]) then [s[0]] + CollapseRuns(s[1..])
    else
      var rest := CollapseRuns(s[RunLength(s)..]);
      assert rest != [] ==> rest[0] != '-';
      "-" + rest
  }

  /** `t.replace(/(^-|-$)/g, '')`: drop one leading and one trailing '-'. */
  function TrimDashes(t: string): string
  {
    var a := if |t| > 0 && t[0] == '-' then 1 else 0;
    var b := if |t| > a && t[|t| - 1] == '-' then |t| - 1 else |t|;
    t[a..b]
  }

  /** The name part of the slug: lower-cased, runs collapsed, ends trimmed. */
  function SlugPrefix(name: string): string
  {
    TrimDashes(CollapseRuns(ToLower(name)))
  }

  /** `generateSlug(name)` with `Date.now()` passed in as `now`. */
  function GenerateSlug(name: string, now: nat): string
  {
    SlugPrefix(name) + "-" + ToRadix(now, 36)
  }

  /** The text after the last '-' (all of `s` if it has none). */
  function AfterLastDash(s: string): (r: string)
    ensures '-' !in r
  {
    if s == [] then []
    else if s[|s| - 1] == '-' then []
    else AfterLastDash(s[..|s| - 1]) + [s[|s| - 1]]
  }

  /** The creation time a slug carries, read back from its base-36 suffix. */
  function SlugTimestamp(slug: string): Option<nat>
  {
    ParseRadix(AfterLastDash(slug), 36)
  }

  lemma {:induction false} AfterLastDashOf(p: string, b: string)
    requires '-' !in b
    ensures AfterLastDash(p + "-" + b) == b
  {
    if b == [] {
      assert p + "-" + b == p + "-";
    } else {
      var b' := b[..|b| - 1];
      assert (p + "-" + b)[..|p + "-" + b| - 1] == p + "-" + b';
      AfterLastDashOf(p, b');
      assert b == b' + [b[|b| - 1]];
    }
  }

  /** The slug is the prefix, a '-', and the timestamp in base 36, which reads back as the timestamp. */
  lemma SlugShape(name: string, now: nat)
    ensures GenerateSlug(name, now) == SlugPrefix(name) + "-" + ToRadix(now, 36)
    ensures AfterLastDash(GenerateSlug(name, now)) == ToRadix(now, 36)
    ensures forall c :: c in ToRadix(now, 36) ==> '0' <= c <= '9' || 'a' <= c <= 'z'
    ensures SlugTimestamp(GenerateSlug(name, now)) == Some(now)
  {
    var b := ToRadix(now, 36);
    assert '-' !in b;
    AfterLastDashOf(SlugPrefix(name), b);
    RadixRoundTrip(now, 36);
  }

  /** Different creation times give different slugs, whatever the names. */
  lemma SlugTimestampsDistinguish(name1: string, name2: string, now1: nat, now2: nat)
    requires now1 != now2
    ensures GenerateSlug(name1, now1) != GenerateSlug(name2, now2)
  {
    SlugShape(name1, now1);
    SlugShape(name2, now2);
  }

  /** The prefix holds only `[a-z0-9-]`, no "--", and neither starts nor ends with '-'. */
  lemma SlugPrefixWellFormed(name: string)
    ensures var p := SlugPrefix(name);
      && (forall i :: 0 <= i < |p| ==> IsSlugChar(p[i]) || p[i] == '-')
      && (forall i :: 0 <= i < |p| - 1 ==> p[i] != '-' || p[i + 1] != '-')
      && (p != [] ==> p[0] != '-' && p[|p| - 1] != '-')
  {
    var t := CollapseRuns(ToLower(name));
    var p := SlugPrefix(name);
    var a := if |t| > 0 && t[0] == '-' then 1 else 0;
    var b := if |t| > a && t[|t| - 1] == '-' then |t| - 1 else |t|;
    assert p == t[a..b];
    if p != [] {
      assert p[0] == t[a] && p[|p| - 1] == t[b - 1];
      assert a == 1 ==> t[1] != '-';
      assert b == |t| - 1 ==> t[|t| - 2] != '-';
    }
  }

  /** Any length that starts with rejected characters and stops at a kept one (or the end) is the run length. */
  lemma {:induction false} RunLengthUnique(s: string, k: nat)
    requires k <= |s| && forall i :: 0 <= i < k ==> !IsSlugChar(s[i])
    requires k < |s| ==> IsSlugChar(s[k])
    ensures RunLength(s) == k
    decreases k
  {
    if k > 0 {
      assert forall i :: 0 <= i < k - 1 ==> s[1..][i] == s[i + 1];
      RunLengthUnique(s[1..], k - 1);
    }
  }

  /**
   * Where the '-' goes: a non-empty run outside `[a-z0-9]` between a part that
   * ends with a kept character and a part that starts with one becomes exactly
   * one '-' between the collapsed parts.
   */
  lemma {:induction false} CollapseRunsBetween(u: string, w: string, v: string)
    requires u == [] || IsSlugChar(u[|u| - 1])
    requires w != [] && forall i :: 0 <= i < |w| ==> !IsSlugChar(w[i])
    requires v == [] || IsSlugChar(v[0])
    ensures CollapseRuns(u + w + v) == CollapseRuns(u) + "-" + CollapseRuns(v)
    decreases |u|
  {
    if u == [] {
      BetweenEmpty(w, v);
    } else if IsSlugChar(u[0]) {
      CollapseRunsBetween(u[1..], w, v);
      BetweenKeep(u, w, v);
    } else {
      var k := RunLength(u);
      CollapseRunsBetween(u[k..], w, v);
      BetweenRun(u, w, v);
    }
  }

  lemma BetweenEmpty(w: string, v: string)
    requires w != [] && forall i :: 0 <= i < |w| ==> !IsSlugChar(w[i])
    requires v == [] || IsSlugChar(v[0])
    ensures CollapseRuns([] + w + v) == CollapseRuns([]) + "-" + CollapseRuns(v)
  {
    var s := w + v;
    assert [] + w + v == s;
    RunLengthUnique(s, |w|);
    assert s[|w|..] == v;
  }

  lemma BetweenKeep(u: string, w: string, v: string)
    requires u != [] && IsSlugChar(u[0])
    requires CollapseRuns(u[1..] + w + v) == CollapseRuns(u[1..]) + "-" + CollapseRuns(v)
    ensures CollapseRuns(u + w + v) == CollapseRuns(u) + "-" + CollapseRuns(v)
  {
    var s := u + w + v;
    assert s[0] == u[0];
    CollapseKeepUnfold(s);
    CollapseKeepUnfold(u);
    DropConcat(u, w, v, 1);
    Prepend([u[0]], CollapseRuns(u[1..]), CollapseRuns(v));
  }

  lemma BetweenRun(u: string, w: string, v: string)
    requires u != [] && !IsSlugChar(u[0]) && RunLength(u) < |u|
    requires CollapseRuns(u[RunLength(u)..] + w + v) == CollapseRuns(u[RunLength(u)..]) + "-" + CollapseRuns(v)
    ensures CollapseRuns(u + w + v) == CollapseRuns(u) + "-" + CollapseRuns(v)
  {
    var k := RunLength(u);
    var s := u + w + v;
    SameRun(u, w + v);
    assert s == u + (w + v);
    CollapseRunUnfold(s);
    CollapseRunUnfold(u);
    DropConcat(u, w, v, k);
    Prepend("-", CollapseRuns(u[k..]), CollapseRuns(v));
  }

  /** A run that ends inside `a` is the same run in `a + b`. */
  lemma SameRun(a: string, b: string)
    requires RunLength(a) < |a|
    ensures RunLength(a + b) == RunLength(a)
  {
    var k := RunLength(a);
    assert forall i :: 0 <= i < k ==> (a + b)[i] == a[i];
    RunLengthUnique(a + b, k);
  }

  lemma Prepend(c: string, x: string, y: string)
    ensures c + (x + "-" + y) == c + x + "-" + y
  {
    AppendAssoc(c, x + "-", y);
    AppendAssoc(c, x, "-");
  }

  lemma CollapseKeepUnfold(s: string)
    requires s != [] && IsSlugChar(s[0])
    ensures CollapseRuns(s) == [s[0]] + CollapseRuns(s[1..])
  {
  }

  /** Collapsing runs keeps the letters and digits, in order. */
  lemma {:induction false} CollapseKeepsSlugChars(s: string)
    ensures Filter(CollapseRuns(s), IsSlugChar) == Filter(s, IsSlugChar)
    decreases |s|
  {
    if s != [] {
      if IsSlugChar(s[0]) {
        CollapseKeepsSlugChars(s[1..]);
        CollapseKeepStep(s);
      } else {
        CollapseKeepsSlugChars(s[RunLength(s)..]);
        CollapseRunStep(s);
      }
    }
  }

  /** A kept character is kept in front of the rest. */
  lemma CollapseKeepStep(s: string)
    requires s != [] && IsSlugChar(s[0])
    requires Filter(CollapseRuns(s[1..]), IsSlugChar) == Filter(s[1..], IsSlugChar)
    ensures Filter(CollapseRuns(s), IsSlugChar) == Filter(s, IsSlugChar)
  {
    assert CollapseRuns(s) == [s[0]] + CollapseRuns(s[1..]);
    FilterAppend([s[0]], CollapseRuns(s[1..]), IsSlugChar);
    DropCons(s, 0);
    FilterAppend([s[0]], s[1..], IsSlugChar);
  }

  /** A run replaced by '-' contributes nothing to either side. */
  lemma CollapseRunStep(s: string)
    requires s != [] && !IsSlugChar(s[0])
    requires Filter(CollapseRuns(s[RunLength(s)..]), IsSlugChar) == Filter(s[RunLength(s)..], IsSlugChar)
    ensures Filter(CollapseRuns(s), IsSlugChar) == Filter(s, IsSlugChar)
  {
    CollapseRunUnfold(s);
    DashThenRest(CollapseRuns(s[RunLength(s)..]));
    RunThenRest(s);
  }

  lemma CollapseRunUnfold(s: string)
    requires s != [] && !IsSlugChar(s[0])
    ensures CollapseRuns(s) == "-" + CollapseRuns(s[RunLength(s)..])
  {
  }

  lemma DashThenRest(t: string)
    ensures Filter("-" + t, IsSlugChar) == Filter(t, IsSlugChar)
  {
    FilterAppend("-", t, IsSlugChar);
    FilterSingleton('-', IsSlugChar);
  }

  lemma RunThenRest(s: string)
    ensures Filter(s, IsSlugChar) == Filter(s[RunLength(s)..], IsSlugChar)
  {
    FilterDropRejected(s, RunLength(s), IsSlugChar);
  }

  /** Lower-casing one more character. */
  lemma ToLowerSnoc(s: string, c: char)
    ensures ToLower(s + [c]) == ToLower(s) + [LowerChar(c)]
  {
    var l := ToLower(s + [c]);
    assert forall i :: 0 <= i < |s| ==> l[i] == LowerChar(s[i]);
  }

  /** Lower-casing turns exactly the ASCII letters and digits into `[a-z0-9]`. */
  lemma LowerSlugChar(c: char)
    ensures IsSlugChar(LowerChar(c)) <==> IsAsciiAlnum(c)
  {
  }

  /** Lower-casing and keeping `[a-z0-9]` is keeping the ASCII letters and digits and lower-casing them. */
  lemma {:induction false} LowerKeepsAlnums(s: string)
    ensures Filter(ToLower(s), IsSlugChar) == ToLower(Filter(s, IsAsciiAlnum))
  {
    if s != [] {
      var s', c := s[..|s| - 1], s[|s| - 1];
      SplitLast(s);
      ToLowerSnoc(s', c);
      LowerKeepsAlnums(s');
      FilterAppend(ToLower(s'), [LowerChar(c)], IsSlugChar);
      FilterSingleton(LowerChar(c), IsSlugChar);
      LowerSlugChar(c);
      var f := Filter(s', IsAsciiAlnum);
      if IsAsciiAlnum(c) {
        ToLowerSnoc(f, c);
      }
    }
  }

  /** Dropping the end dashes keeps the letters and digits. */
  lemma TrimDashesKeepsSlugChars(t: string)
    ensures Filter(TrimDashes(t), IsSlugChar) == Filter(t, IsSlugChar)
  {
    var a := if |t| > 0 && t[0] == '-' then 1 else 0;
    var b := if |t| > a && t[|t| - 1] == '-' then |t| - 1 else |t|;
    var u := t[a..];
    if a == 1 {
      DropFrontDash(t);
    }
    assert TrimDashes(t) == u[..b - a];
    if b < |t| {
      assert u[|u| - 1] == '-';
      DropBackDash(u);
    } else {
      assert u[..b - a] == u;
    }
  }

  lemma DropFrontDash(t: string)
    requires |t| > 0 && t[0] == '-'
    ensures Filter(t[1..], IsSlugChar) == Filter(t, IsSlugChar)
  {
    DropCons(t, 0);
    FilterAppend([t[0]], t[1..], IsSlugChar);
    FilterSingleton(t[0], IsSlugChar);
  }

  lemma DropBackDash(t: string)
    requires |t| > 0 && t[|t| - 1] == '-'
    ensures Filter(t[..|t| - 1], IsSlugChar) == Filter(t, IsSlugChar)
  {
  }

  /** The prefix's letters and digits are the name's ASCII letters and digits, lower-cased, in order. */
  lemma SlugPrefixKeepsAlnums(name: string)
    ensures Filter(SlugPrefix(name), IsSlugChar) == ToLower(Filter(name, IsAsciiAlnum))
  {
    TrimDashesKeepsSlugChars(CollapseRuns(ToLower(name)));
    CollapseKeepsSlugChars(ToLower(name));
    LowerKeepsAlnums(name);
  }

  /** A name without letters or digits gives the slug "-" followed by the timestamp. */
  lemma SlugOfNameWithoutAlnums(name: string, now: nat)
    requires forall i :: 0 <= i < |name| ==> !IsAsciiAlnum(name[i])
    ensures GenerateSlug(name, now) == "-" + ToRadix(now, 36)
  {
    EmptySlugPrefix(name);
  }

  /** Without letters or digits the whole name collapses to one '-', which is trimmed away. */
  lemma EmptySlugPrefix(name: string)
    requires forall i :: 0 <= i < |name| ==> !IsAsciiAlnum(name[i])
    ensures SlugPrefix(name) == ""
  {
    var l := ToLower(name);
    forall i | 0 <= i < |l| ensures !IsSlugChar(l[i]) {
      LowerSlugChar(name[i]);
    }
    if l != [] {
      assert RunLength(l) == |l|;
      assert CollapseRuns(l) == "-" + CollapseRuns(l[|l|..]);
      assert l[|l|..] == [];
    }
  }
}
