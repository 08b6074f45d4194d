/**
 * The input-field number formatting helpers (`formatWithDots`,
 * `parseDotsFormatted`) and the hexadecimal encoding step of `hashPassword`.
 */
module Utils {
  import opened Folds
  import opened Numerals

  // ---------------------------------------------------------------------
  // parseDotsFormatted

  predicate NotDot(c: char)
  {
    c != '.'
  }

  /** `value.replace(/\./g, '')`. */
  function ParseDots(s: string): string
  {
    Filter(s, NotDot)
  }

  /** The result has no '.', keeps every other character in order, and applying it again changes nothing. */
  lemma ParseDotsProperties(s: string)
    ensures '.' !in ParseDots(s)
    ensures forall c :: c != '.' ==> multiset(ParseDots(s))[c] == multiset(s)[c]
    ensures ParseDots(ParseDots(s)) == ParseDots(s)
    ensures '.' !in s ==> ParseDots(s) == s
  {
    FilterSound(s, NotDot);
    forall c | c != '.' ensures multiset(ParseDots(s))[c] == multiset(s)[c] {
      FilterCount(s, NotDot, c);
    }
    FilterAll(ParseDots(s), NotDot);
    if '.' !in s {
      FilterAll(s, NotDot);
    }
  }

  /** Deleting dots from a concatenation deletes them from each part. */
  lemma ParseDotsAppend(a: string, b: string)
    ensures ParseDots(a + b) == ParseDots(a) + ParseDots(b)
  {
    FilterAppend(a, b, NotDot);
  }

  // ---------------------------------------------------------------------
  // split('.') and join('.')

  /** The index of the first '.', or |s| when there is none. */
  function FirstDot(s: string): (i: nat)
    ensures i <= |s| && (forall j :: 0 <= j < i ==> s[j] != '.') && (i < |s| ==> s[i] == '.')
  {
    if s == [] || s[0] == '.' then 0 else 1 + FirstDot(s[1..])
  }

  /** `s.split('.')`: the pieces between the dots, at least one. */
  function SplitDots(s: string): (parts: seq<string>)
    ensures |parts| >= 1
    decreases |s|
  {
    var i := FirstDot(s);
    if i == |s| then [s] else [s[..i]] + SplitDots(s[i + 1..])
  }

  /** `parts.join('.')`. */
  function JoinDots(parts: seq<string>): string
    requires |parts| >= 1
  {
    if |parts| == 1 then parts[0] else parts[0] + "." + JoinDots(parts[1..])
  }

  /** A text with a '.' is the text before its first '.', the '.', and the rest. */
  lemma DotDecompose(s: string)
    requires FirstDot(s) < |s|
    ensures var i := FirstDot(s);
      && s == s[..i] + "." + s[i + 1..]
      && s[i..] == "." + s[i + 1..]
      && '.' !in s[..i]
  {
    var i := FirstDot(s);
    var a, b := s[..i], s[i + 1..];
    assert forall j :: 0 <= j < |a| ==> a[j] == s[j];
    DropCons(s, i);
    TakeDrop(s, i);
    assert [s[i]] == ".";
    AppendAssoc(a, ".", b);
  }

  /** Where a '.' follows a piece without one, the split starts with that piece. */
  lemma SplitAtDot(a: string, b: string)
    requires '.' !in a
    ensures SplitDots(a + "." + b) == [a] + SplitDots(b)
  {
    FirstDotOf(a, b);
    SliceDot(a, b);
  }

  lemma SliceDot(p: string, rest: string)
    ensures var s := p + "." + rest; s[..|p|] == p && s[|p| + 1..] == rest
  {
  }

  lemma FirstDotOf(p: string, rest: string)
    requires '.' !in p
    ensures FirstDot(p + "." + rest) == |p|
  {
    var s := p + "." + rest;
    assert s[|p|] == '.';
    assert forall j :: 0 <= j < |p| ==> s[j] == p[j];
  }

  /** A text without '.' is a single piece. */
  lemma SplitNoDot(s: string)
    requires '.' !in s
    ensures FirstDot(s) == |s| && SplitDots(s) == [s]
  {
    assert forall j :: 0 <= j < |s| ==> s[j] != '.';
  }

  /** A text whose first '.' is past its end has none. */
  lemma NoFirstDot(s: string)
    requires FirstDot(s) == |s|
    ensures '.' !in s && SplitDots(s) == [s]
  {
    assert forall j :: 0 <= j < |s| ==> s[j] != '.';
  }

  /** No piece holds a '.', and the first piece is the text before the first '.'. */
  lemma {:induction false} SplitDotsPieces(s: string)
    ensures var parts := SplitDots(s);
      && parts[0] == s[..FirstDot(s)]
      && forall k :: 0 <= k < |parts| ==> '.' !in parts[k]
    decreases |s|
  {
    var i := FirstDot(s);
    if i == |s| {
      NoFirstDot(s);
      assert s[..i] == s;
    } else {
      var a, b := s[..i], s[i + 1..];
      DotDecompose(s);
      SplitAtDot(a, b);
      SplitDotsPieces(b);
      NoDotCons(a, SplitDots(b));
    }
  }

  lemma NoDotCons(head: string, rest: seq<string>)
    requires '.' !in head && forall k :: 0 <= k < |rest| ==> '.' !in rest[k]
    ensures var parts := [head] + rest; parts[0] == head && forall k :: 0 <= k < |parts| ==> '.' !in parts[k]
  {
    var parts := [head] + rest;
    assert forall k :: 1 <= k < |parts| ==> parts[k] == rest[k - 1];
  }

  lemma JoinCons(head: string, rest: seq<string>)
    requires |rest| >= 1
    ensures JoinDots([head] + rest) == head + "." + JoinDots(rest)
  {
    assert ([head] + rest)[1..] == rest;
  }

  lemma {:induction false} JoinSplit(s: string)
    ensures JoinDots(SplitDots(s)) == s
    decreases |s|
  {
    var i := FirstDot(s);
    if i == |s| {
      NoFirstDot(s);
    } else {
      var a, b := s[..i], s[i + 1..];
      DotDecompose(s);
      SplitAtDot(a, b);
      JoinSplit(b);
      JoinCons(a, SplitDots(b));
    }
  }

  lemma {:induction false} SplitJoin(parts: seq<string>)
    requires |parts| >= 1 && forall k :: 0 <= k < |parts| ==> '.' !in parts[k]
    ensures SplitDots(JoinDots(parts)) == parts
  {
    var p := parts[0];
    if |parts| == 1 {
      SplitNoDot(p);
    } else {
      var others := parts[1..];
      assert forall k :: 0 <= k < |others| ==> others[k] == parts[k + 1];
      SplitJoin(others);
      SplitAtDot(p, JoinDots(others));
      assert parts == [p] + others;
    }
  }

  // ---------------------------------------------------------------------
  // The regular expression /\B(?=(\d{3})+(?!\d))/g

  /** `\w`. */
  predicate IsWordChar(c: char)
  {
    'a' <= c <= 'z' || 'A' <= c <= 'Z' || '0' <= c <= '9' || c == '_'
  }

  /** Whether the character at `i` is a word character; positions outside the string are not. */
  predicate WordAt(s: string, i: int)
  {
    0 <= i < |s| && IsWordChar(s[i])
  }

  /** `\B` at position `i` (between `s[i-1]` and `s[i]`). */
  predicate NotBoundary(s: string, i: nat)
  {
    WordAt(s, i - 1) == WordAt(s, i)
  }

  /** `(?=(\d{3})+(?!\d))` at position `i`: some positive number of digit triples, then no digit. */
  predicate GroupsAhead(s: string, i: nat)
    requires i <= |s|
  {
    exists k :: 1 <= k <= |s| && i + 3 * k <= |s| && IsDigits(s[i..i + 3 * k])
                && (i + 3 * k == |s| || !IsDecimalDigit(s[i + 3 * k]))
  }

  /** Whether the pattern matches (the empty string) at position `i`. */
  predicate DotAt(s: string, i: nat)
    requires i <= |s|
  {
    NotBoundary(s, i) && GroupsAhead(s, i)
  }

  /** The global replacement from position `i` on: a '.' at every matching position, the characters unchanged. */
  function DotsFrom(s: string, i: nat): string
    requires i <= |s|
    decreases |s| - i
  {
    (if DotAt(s, i) then "." else "") + (if i == |s| then "" else [s[i]] + DotsFrom(s, i + 1))
  }

  /** `t.replace(/\B(?=(\d{3})+(?!\d))/g, ".")`. */
  function InsertDots(t: string): string
  {
    DotsFrom(t, 0)
  }

  /** `formatWithDots` on a string: only the text before the first '.' is regrouped. */
  function FormatWithDots(value: string): string
  {
    if value == "" then ""
    else
      var parts := SplitDots(value);
      JoinDots(parts[0 := InsertDots(parts[0])])
  }

  /** Replacing the first piece of a split and joining back keeps the rest of the text from the first '.' on. */
  lemma ReplaceHead(value: string, h: string)
    ensures JoinDots(SplitDots(value)[0 := h]) == h + value[FirstDot(value)..]
  {
    var i := FirstDot(value);
    if i == |value| {
      ReplaceOnlyPiece(value, h);
    } else {
      var a, b := value[..i], value[i + 1..];
      DotDecompose(value);
      ReplaceFirstPiece(a, b, h);
    }
  }

  lemma ReplaceOnlyPiece(value: string, h: string)
    requires FirstDot(value) == |value|
    ensures JoinDots(SplitDots(value)[0 := h]) == h + value[FirstDot(value)..]
  {
    NoFirstDot(value);
    UpdateHead(value, [], h);
    assert value[|value|..] == "";
  }

  lemma ReplaceFirstPiece(a: string, b: string, h: string)
    requires '.' !in a
    ensures JoinDots(SplitDots(a + "." + b)[0 := h]) == h + "." + b
  {
    var rest := SplitDots(b);
    SplitAtDot(a, b);
    UpdateHead(a, rest, h);
    JoinCons(h, rest);
    JoinSplit(b);
  }

  /** Regrouping the head of a split and joining back leaves the rest of the text as it was. */
  lemma FormatRegroupsHead(value: string)
    ensures var i := FirstDot(value);
      FormatWithDots(value) == (if value == "" then "" else InsertDots(value[..i]) + value[i..])
  {
    if value != "" {
      SplitDotsPieces(value);
      ReplaceHead(value, InsertDots(value[..FirstDot(value)]));
    }
  }

  /** The number of digits from position `i` on before the first non-digit. */
  function DigitRun(s: string, i: nat): (k: nat)
    requires i <= |s|
    ensures i + k <= |s| && IsDigits(s[i..i + k]) && (i + k == |s| || !IsDecimalDigit(s[i + k]))
    decreases |s| - i
  {
    if i < |s| && IsDecimalDigit(s[i]) then
      var k := DigitRun(s, i + 1);
      var t, u := s[i + 1..i + 1 + k], s[i..i + 1 + k];
      assert forall j :: 0 < j <= k ==> u[j] == t[j - 1];
      1 + k
    else 0
  }

  /** A run of digits ending before a non-digit (or the end) is the digit run. */
  lemma {:induction false} DigitRunUnique(s: string, i: nat, m: nat)
    requires i + m <= |s| && IsDigits(s[i..i + m]) && (i + m == |s| || !IsDecimalDigit(s[i + m]))
    ensures DigitRun(s, i) == m
    decreases m
  {
    if m > 0 {
      assert s[i] == s[i..i + m][0];
      var t, u := s[i + 1..i + m], s[i..i + m];
      assert IsDigits(t) by {
        forall j | 0 <= j < |t| ensures IsDecimalDigit(t[j]) {
          assert t[j] == u[j + 1];
        }
      }
      DigitRunUnique(s, i + 1, m - 1);
    }
  }

  /** The lookahead holds exactly when the run of digits ahead is a positive multiple of 3 long. */
  lemma GroupsAheadIff(s: string, i: nat)
    requires i <= |s|
    ensures GroupsAhead(s, i) <==> DigitRun(s, i) > 0 && DigitRun(s, i) % 3 == 0
  {
    if GroupsAhead(s, i) {
      AheadIsRun(s, i);
    }
    if DigitRun(s, i) > 0 && DigitRun(s, i) % 3 == 0 {
      RunIsAhead(s, i);
    }
  }

  lemma AheadIsRun(s: string, i: nat)
    requires i <= |s| && GroupsAhead(s, i)
    ensures DigitRun(s, i) > 0 && DigitRun(s, i) % 3 == 0
  {
    var k :| 1 <= k <= |s| && i + 3 * k <= |s| && IsDigits(s[i..i + 3 * k])
             && (i + 3 * k == |s| || !IsDecimalDigit(s[i + 3 * k]));
    DigitRunUnique(s, i, 3 * k);
  }

  lemma RunIsAhead(s: string, i: nat)
    requires i <= |s| && DigitRun(s, i) > 0 && DigitRun(s, i) % 3 == 0
    ensures GroupsAhead(s, i)
  {
    var d := DigitRun(s, i);
    var k := d / 3;
    assert 3 * k == d;
    assert 1 <= k <= |s| && i + 3 * k <= |s| && IsDigits(s[i..i + 3 * k])
             && (i + 3 * k == |s| || !IsDecimalDigit(s[i + 3 * k]));
  }

  /** In a digit string a '.' goes exactly before the positions followed by a positive multiple of 3 digits, never at the start. */
  lemma DotAtDigits(s: string, i: nat)
    requires IsDigits(s) && i <= |s|
    ensures DotAt(s, i) <==> 0 < i < |s| && (|s| - i) % 3 == 0
  {
    GroupsAheadIff(s, i);
    assert DigitRun(s, i) == |s| - i;
    if 0 < i < |s| {
      assert WordAt(s, i - 1) && WordAt(s, i);
    }
  }

  /** The reference grouping: the last three digits split off, recursively, by '.'. */
  function Grouped(s: string): string
    decreases |s|
  {
    if |s| <= 3 then s else Grouped(s[..|s| - 3]) + "." + s[|s| - 3..]
  }

  /** Positions of the two leftmost triples carry no dot. */
  lemma {:induction false} DotsFromTail(s: string, i: nat)
    requires IsDigits(s) && |s| - 3 < i <= |s| && 0 < i
    ensures DotsFrom(s, i) == s[i..]
    decreases |s| - i
  {
    DotAtDigits(s, i);
    if i < |s| {
      DotsFromTail(s, i + 1);
      assert s[i..] == [s[i]] + s[i + 1..];
    }
  }

  /** Appending a triple to a digit string appends '.' and the triple. */
  lemma {:induction false} DotsFromAppend(a: string, b: string, i: nat)
    requires IsDigits(a + b) && |a| > 0 && |b| == 3 && i <= |a|
    ensures DotsFrom(a + b, i) == DotsFrom(a, i) + "." + b
    decreases |a| - i
  {
    if i == |a| {
      DotsFromAppendEnd(a, b);
    } else {
      DotsFromAppend(a, b, i + 1);
      DotsFromAppendStep(a, b, i);
    }
  }

  lemma DigitsPrefix(a: string, b: string)
    requires IsDigits(a + b)
    ensures IsDigits(a)
  {
    forall j | 0 <= j < |a| ensures IsDecimalDigit(a[j]) { assert a[j] == (a + b)[j]; }
  }

  /** At the end of `a`, the triple is preceded by a '.'. */
  lemma DotsFromAppendEnd(a: string, b: string)
    requires IsDigits(a + b) && |a| > 0 && |b| == 3
    ensures DotsFrom(a + b, |a|) == DotsFrom(a, |a|) + "." + b
  {
    var s := a + b;
    var i := |a|;
    DigitsPrefix(a, b);
    DotAtDigits(s, i);
    DotAtDigits(a, i);
    DotsFromTail(s, i + 1);
    assert s[i + 1..] == b[1..];
    assert s[i] == b[0];
    assert b == [b[0]] + b[1..];
  }

  lemma Regroup<T>(p: seq<T>, c: seq<T>, d: seq<T>, e: seq<T>, b: seq<T>)
    ensures p + (c + (d + e + b)) == p + (c + d) + e + b
  {
  }

  /** Inside `a`, the dot decision at `i` is the same in `a` and in `a + b`. */
  lemma SameDotAt(a: string, b: string, i: nat)
    requires IsDigits(a + b) && |a| > 0 && |b| == 3 && i < |a|
    ensures DotAt(a + b, i) == DotAt(a, i)
  {
    DigitsPrefix(a, b);
    DotAtDigits(a + b, i);
    DotAtDigits(a, i);
  }

  /** One step inside `a`. */
  lemma DotsFromAppendStep(a: string, b: string, i: nat)
    requires IsDigits(a + b) && |a| > 0 && |b| == 3 && i < |a|
    requires DotsFrom(a + b, i + 1) == DotsFrom(a, i + 1) + "." + b
    ensures DotsFrom(a + b, i) == DotsFrom(a, i) + "." + b
  {
    var s := a + b;
    SameDotAt(a, b, i);
    var p := if DotAt(a, i) then "." else "";
    var c := [a[i]];
    assert s[i] == a[i];
    assert DotsFrom(s, i) == p + (c + DotsFrom(s, i + 1));
    assert DotsFrom(a, i) == p + (c + DotsFrom(a, i + 1));
    Regroup(p, c, DotsFrom(a, i + 1), ".", b);
  }

  /** On digit strings the regular expression does what the reference grouping says. */
  lemma {:induction false} InsertDotsDigits(s: string)
    requires IsDigits(s)
    ensures InsertDots(s) == Grouped(s)
    decreases |s|
  {
    if |s| <= 3 {
      if |s| > 0 {
        DotAtDigits(s, 0);
        DotsFromTail(s, 1);
        assert s == [s[0]] + s[1..];
      }
    } else {
      var a, b := s[..|s| - 3], s[|s| - 3..];
      assert s == a + b;
      assert IsDigits(a) by {
        forall j | 0 <= j < |a| ensures IsDecimalDigit(a[j]) { assert a[j] == s[j]; }
      }
      DotsFromAppend(a, b, 0);
      InsertDotsDigits(a);
    }
  }

  /** A grouped numeral of n >= 1 digits has n + (n - 1) / 3 characters. */
  lemma {:induction false} GroupedLength(s: string)
    requires |s| >= 1
    ensures |Grouped(s)| == |s| + (|s| - 1) / 3
    decreases |s|
  {
    if |s| > 3 {
      GroupedLength(s[..|s| - 3]);
    }
  }

  /** The reference groups: the digits of `s` cut into threes from the right. */
  function Groups(s: string): seq<string>
    decreases |s|
  {
    if |s| <= 3 then [s] else Groups(s[..|s| - 3]) + [s[|s| - 3..]]
  }

  lemma {:induction false} JoinSnoc(parts: seq<string>, b: string)
    requires |parts| >= 1
    ensures JoinDots(parts + [b]) == JoinDots(parts) + "." + b
  {
    var r := parts + [b];
    if |parts| > 1 {
      assert r[1..] == parts[1..] + [b];
      JoinSnoc(parts[1..], b);
    } else {
      assert r[1..] == [b];
    }
  }

  /** The reference grouping joins the groups with '.'. */
  lemma {:induction false} GroupsJoin(s: string)
    ensures JoinDots(Groups(s)) == Grouped(s)
    decreases |s|
  {
    if |s| > 3 {
      GroupsJoin(s[..|s| - 3]);
      JoinSnoc(Groups(s[..|s| - 3]), s[|s| - 3..]);
    }
  }

  /** The first group has 1 to 3 characters, each later one exactly 3, together they are `s`, and each is a slice of `s`. */
  lemma {:induction false} GroupsShape(s: string)
    requires |s| >= 1
    ensures var g := Groups(s);
      && 1 <= |g[0]| <= 3
      && (forall j :: 1 <= j < |g| ==> |g[j]| == 3)
      && Concat(g) == s
      && (IsDigits(s) ==> forall j :: 0 <= j < |g| ==> IsDigits(g[j]))
    decreases |s|
  {
    if |s| <= 3 {
      assert Concat([s]) == Concat([]) + s;
    } else {
      var a, b := s[..|s| - 3], s[|s| - 3..];
      GroupsShape(a);
      var ga := Groups(a);
      var g := ga + [b];
      assert g[..|g| - 1] == ga;
      assert forall j :: 0 <= j < |ga| ==> g[j] == ga[j];
      assert s == a + b;
      if IsDigits(s) {
        assert IsDigits(a) && IsDigits(b);
      }
    }
  }

  /** The groups of a grouped numeral: the first has 1 to 3 digits, each later one exactly 3, and together they are the numeral. */
  lemma GroupedShape(s: string)
    requires IsDigits(s) && |s| >= 1
    ensures var g := SplitDots(Grouped(s));
      && 1 <= |g[0]| <= 3
      && (forall j :: 1 <= j < |g| ==> |g[j]| == 3)
      && Concat(g) == s
  {
    var g := Groups(s);
    GroupsShape(s);
    forall j | 0 <= j < |g| ensures '.' !in g[j] {
      NoDotInDigits(g[j]);
    }
    SplitJoin(g);
    GroupsJoin(s);
  }

  lemma NoDotInDigits(s: string)
    requires IsDigits(s)
    ensures '.' !in s
  {
    forall j | 0 <= j < |s| ensures s[j] != '.' {
      assert IsDecimalDigit(s[j]);
    }
  }

  /** `parts.join('')`. */
  function Concat(parts: seq<string>): string
  {
    if parts == [] then "" else Concat(parts[..|parts| - 1]) + parts[|parts| - 1]
  }

  /** The inserted characters are all dots. */
  lemma {:induction false} ParseDotsDotsFrom(s: string, i: nat)
    requires i <= |s|
    ensures ParseDots(DotsFrom(s, i)) == ParseDots(s[i..])
    decreases |s| - i
  {
    var dot := if DotAt(s, i) then "." else "";
    FilterNone(dot, NotDot);
    if i == |s| {
      assert DotsFrom(s, i) == dot + "";
      assert s[i..] == "";
    } else {
      ParseDotsDotsFrom(s, i + 1);
      assert DotsFrom(s, i) == dot + ([s[i]] + DotsFrom(s, i + 1));
      ParseDotsAppend(dot, [s[i]] + DotsFrom(s, i + 1));
      ParseDotsAppend([s[i]], DotsFrom(s, i + 1));
      ParseDotsAppend([s[i]], s[i + 1..]);
      assert s[i..] == [s[i]] + s[i + 1..];
    }
  }

  /** `parseDotsFormatted(formatWithDots(s))` is `parseDotsFormatted(s)`; for a digit string it is `s` itself. */
  lemma FormatRoundTrip(s: string)
    ensures ParseDots(FormatWithDots(s)) == ParseDots(s)
    ensures IsDigits(s) ==> ParseDots(FormatWithDots(s)) == s
  {
    if s != "" {
      var i := FirstDot(s);
      FormatRegroupsHead(s);
      ParseDotsDotsFrom(s[..i], 0);
      assert s[..i][0..] == s[..i];
      ParseDotsAppend(InsertDots(s[..i]), s[i..]);
      ParseDotsAppend(s[..i], s[i..]);
      assert s == s[..i] + s[i..];
    }
    if IsDigits(s) {
      assert '.' !in s by {
        forall j | 0 <= j < |s| ensures s[j] != '.' { assert IsDecimalDigit(s[j]); }
      }
      ParseDotsProperties(s);
    }
  }

  /** `formatWithDots` of a digit string is the reference grouping. */
  lemma FormatDigits(s: string)
    requires IsDigits(s)
    ensures FormatWithDots(s) == Grouped(s)
  {
    FormatRegroupsHead(s);
    if s != "" {
      assert forall j :: 0 <= j < |s| ==> s[j] != '.';
      assert FirstDot(s) == |s|;
      assert s[..|s|] == s;
      InsertDotsDigits(s);
    }
  }

  // ---------------------------------------------------------------------
  // The hexadecimal step of hashPassword

  newtype byte = x: int | 0 <= x < 256

  /** `s.padStart(n, c)` for a one-character pad. */
  function PadStart(s: string, n: nat, c: char): (r: string)
    ensures |r| == if |s| >= n then |s| else n
    ensures r[|r| - |s|..] == s && forall j :: 0 <= j < |r| - |s| ==> r[j] == c
    decreases n - |s|
  {
    if |s| >= n then s else PadStart([c] + s, n, c)
  }

  predicate IsLowerHex(c: char)
  {
    '0' <= c <= '9' || 'a' <= c <= 'f'
  }

  /** `b.toString(16).padStart(2, '0')`. */
  function HexByte(b: byte): string
  {
    PadStart(ToRadix(b as nat, 16), 2, '0')
  }

  /** `Array.from(bytes).map(b => b.toString(16).padStart(2, '0')).join('')`. */
  function HexDigest(bytes: seq<byte>): string
  {
    Concat(Map(bytes, HexByte))
  }

  /** The value of a hexadecimal digit (0 for any other character). */
  function HexValue(c: char): (v: nat)
    ensures v < 16
  {
    if '0' <= c <= '9' then c as nat - '0' as nat
    else if 'a' <= c <= 'f' then c as nat - 'a' as nat + 10
    else 0
  }

  /** Reads two hexadecimal digits back as a byte. */
  function DecodeHexByte(hi: char, lo: char): byte
  {
    (HexValue(hi) * 16 + HexValue(lo)) as byte
  }

  /** Reads a hexadecimal digest back as bytes, two characters per byte from the end. */
  function DecodeHex(h: string): seq<byte>
  {
    if |h| < 2 then [] else DecodeHex(h[..|h| - 2]) + [DecodeHexByte(h[|h| - 2], h[|h| - 1])]
  }

  /** Each byte becomes two lowercase hexadecimal digits, which read back as the byte. */
  lemma HexByteShape(b: byte)
    ensures |HexByte(b)| == 2 && IsLowerHex(HexByte(b)[0]) && IsLowerHex(HexByte(b)[1])
    ensures DecodeHexByte(HexByte(b)[0], HexByte(b)[1]) == b
  {
    var n := b as nat;
    var r := ToRadix(n, 16);
    DivMod(n, 16);
    if n < 16 {
      assert r == [DigitChar(n)];
      assert HexByte(b) == ['0', DigitChar(n)];
    } else {
      assert n / 16 < 16;
      assert ToRadix(n / 16, 16) == [DigitChar(n / 16)];
      assert r == [DigitChar(n / 16)] + [DigitChar(n % 16)];
      assert HexByte(b) == r;
    }
  }

  /** Different bytes have different encodings. */
  lemma HexByteInjective(a: byte, b: byte)
    requires HexByte(a) == HexByte(b)
    ensures a == b
  {
    HexByteShape(a);
    HexByteShape(b);
  }

  predicate AllLowerHex(s: string)
  {
    forall j :: 0 <= j < |s| ==> IsLowerHex(s[j])
  }

  lemma HexBytePiece(b: byte)
    ensures |HexByte(b)| == 2 && AllLowerHex(HexByte(b))
  {
    HexByteShape(b);
    var h := HexByte(b);
    forall j | 0 <= j < |h| ensures IsLowerHex(h[j]) {
      assert j == 0 || j == 1;
    }
  }

  /** Pieces of two lowercase hexadecimal digits join into a text twice as long, all lowercase hexadecimal. */
  lemma {:induction false} ConcatPairs<T>(xs: seq<T>, f: T -> string)
    requires forall x :: |f(x)| == 2 && AllLowerHex(f(x))
    ensures |Concat(Map(xs, f))| == 2 * |xs| && AllLowerHex(Concat(Map(xs, f)))
  {
    if xs != [] {
      var init := xs[..|xs| - 1];
      var last := f(xs[|xs| - 1]);
      ConcatPairs(init, f);
      var c := Concat(Map(init, f));
      MapSnoc(xs, f);
      forall j | 0 <= j < |c + last| ensures IsLowerHex((c + last)[j]) {
        if j < |c| {
          assert (c + last)[j] == c[j];
        } else {
          assert (c + last)[j] == last[j - |c|];
        }
      }
    }
  }

  /** Concatenating the mapped pieces of a list is the pieces of its front followed by the last piece. */
  lemma MapSnoc<T>(xs: seq<T>, f: T -> string)
    requires xs != []
    ensures Concat(Map(xs, f)) == Concat(Map(xs[..|xs| - 1], f)) + f(xs[|xs| - 1])
  {
    var m := Map(xs, f);
    assert m[..|m| - 1] == Map(xs[..|xs| - 1], f);
  }

  /** Two more characters read back as one more byte. */
  lemma DecodeSnoc(c: string, last: string)
    requires |last| == 2
    ensures DecodeHex(c + last) == DecodeHex(c) + [DecodeHexByte(last[0], last[1])]
  {
    var h := c + last;
    TakeAppend(c, last);
    assert h[|h| - 2] == last[0] && h[|h| - 1] == last[1];
  }

  /** Reading back pieces of two characters gives one byte per piece. */
  lemma {:induction false} DecodeConcat<T>(xs: seq<T>, f: T -> string, g: T -> byte)
    requires forall x :: |f(x)| == 2 && DecodeHexByte(f(x)[0], f(x)[1]) == g(x)
    ensures DecodeHex(Concat(Map(xs, f))) == Map(xs, g)
  {
    if xs != [] {
      var init, x := xs[..|xs| - 1], xs[|xs| - 1];
      DecodeConcat(init, f, g);
      MapSnoc(xs, f);
      DecodeSnoc(Concat(Map(init, f)), f(x));
      var m := Map(xs, g);
      assert m == Map(init, g) + [g(x)] by {
        assert m[..|m| - 1] == Map(init, g);
      }
    }
  }

  /** The identity on bytes, to compare a decoded digest with its bytes. */
  function ByteId(b: byte): byte
  {
    b
  }

  /** The digest text has two lowercase hexadecimal characters per byte (64 for a 32-byte SHA-256 digest). */
  lemma HexDigestShape(bytes: seq<byte>)
    ensures |HexDigest(bytes)| == 2 * |bytes|
    ensures forall j :: 0 <= j < |HexDigest(bytes)| ==> IsLowerHex(HexDigest(bytes)[j])
  {
    forall b: byte ensures |HexByte(b)| == 2 && AllLowerHex(HexByte(b)) {
      HexBytePiece(b);
    }
    ConcatPairs(bytes, HexByte);
  }

  /** The digest text decodes back to the bytes. */
  lemma HexDigestRoundTrip(bytes: seq<byte>)
    ensures DecodeHex(HexDigest(bytes)) == bytes
  {
    forall b: byte ensures |HexByte(b)| == 2 && DecodeHexByte(HexByte(b)[0], HexByte(b)[1]) == ByteId(b) {
      HexByteShape(b);
    }
    DecodeConcat(bytes, HexByte, ByteId);
    var m := Map(bytes, ByteId);
    assert forall k :: 0 <= k < |bytes| ==> m[k] == bytes[k];
  }

  /** Different digests never share an encoding. */
  lemma HexDigestInjective(a: seq<byte>, b: seq<byte>)
    requires HexDigest(a) == HexDigest(b)
    ensures a == b
  {
    HexDigestRoundTrip(a);
    HexDigestRoundTrip(b);
  }
}
