// The e621 tag-query builder (parser-api/src/api.rs,
// build_e621_tags_query_with_budget): four groups of terms deduplicated
// case-insensitively, ordered, and cut to a shared budget.
module TagQuery {
  import opened Sorting

  const E621_TAG_LIMIT: nat := 40

  datatype Budget = Budget(limit: nat, boost: nat, blacklist: nat) {
    function Limit(): nat {
      if limit < 1 then 1 else if limit > E621_TAG_LIMIT then E621_TAG_LIMIT else limit
    }

    // Zero means "whatever remains".
    function BlacklistCap(): nat {
      if blacklist == 0 then Limit() else blacklist
    }
  }

  // --- strings ---------------------------------------------------------------------

  function LowerChar(c: char): char {
    if 'A' <= c <= 'Z' then (c as int + 32) as char else c
  }

  function Lower(s: string): string {
    if s == "" then "" else [LowerChar(s[0])] + Lower(s[1..])
  }

  // Unicode White_Space.
  predicate IsSpace(c: char) {
    var u := c as int;
    || 0x9 <= u <= 0xD || u == 0x20 || u == 0x85 || u == 0xA0 || u == 0x1680
    || 0x2000 <= u <= 0x200A || u == 0x2028 || u == 0x2029 || u == 0x202F || u == 0x205F || u == 0x3000
  }

  function StripDashes(s: string): string {
    if s != "" && s[0] == '-' then StripDashes(s[1..]) else s
  }

  function TrimStart(s: string): string {
    if s != "" && IsSpace(s[0]) then TrimStart(s[1..]) else s
  }

  function TrimEnd(s: string): string {
    if s != "" && IsSpace(s[|s| - 1]) then TrimEnd(s[..|s| - 1]) else s
  }

  // A boost tag carrying e621 syntax would restructure the query.
  predicate IsPlain(s: string) {
    forall c | c in s :: !IsSpace(c) && c != '(' && c != ')' && c != '~' && c != '"'
  }

  predicate LexLe(a: string, b: string) {
    a == "" || (b != "" && (a[0] < b[0] || (a[0] == b[0] && LexLe(a[1..], b[1..]))))
  }

  lemma {:induction false} LexTotal(a: string, b: string)
    ensures LexLe(a, b) || LexLe(b, a)
  {
    if a == "" || b == "" {
    } else {
      LexTotal(a[1..], b[1..]);
    }
  }

  lemma {:induction false} LexTransitive(a: string, b: string, c: string)
    requires LexLe(a, b) && LexLe(b, c)
    ensures LexLe(a, c)
  {
    if a == "" || a[0] != b[0] || b[0] != c[0] {
    } else {
      LexTransitive(a[1..], b[1..], c[1..]);
    }
  }

  lemma {:induction false} LexAntisymmetric(a: string, b: string)
    requires LexLe(a, b) && LexLe(b, a)
    ensures a == b
  {
    if a == "" {
    } else {
      LexAntisymmetric(a[1..], b[1..]);
      assert a == [a[0]] + a[1..] && b == [b[0]] + b[1..];
    }
  }

  lemma LexIsATotalOrder()
    ensures TotalPreorder(LexLe) && Antisymmetric(LexLe)
  {
    forall a, b ensures LexLe(a, b) || LexLe(b, a) { LexTotal(a, b); }
    forall a, b, c | LexLe(a, b) && LexLe(b, c) ensures LexLe(a, c) { LexTransitive(a, b, c); }
    forall a, b | LexLe(a, b) && LexLe(b, a) ensures a == b { LexAntisymmetric(a, b); }
  }

  // --- what the string helpers do --------------------------------------------------------

  predicate UpperOf(u: char, l: char) {
    'A' <= u <= 'Z' && l as int == u as int + 32
  }

  // The same letters, up to ASCII case.
  ghost predicate SameIgnoringCase(a: string, b: string) {
    |a| == |b| && forall i | 0 <= i < |a| :: a[i] == b[i] || UpperOf(a[i], b[i]) || UpperOf(b[i], a[i])
  }

  lemma {:induction false} LowerAt(s: string)
    ensures |Lower(s)| == |s| && forall i | 0 <= i < |s| :: Lower(s)[i] == LowerChar(s[i])
  {
    if s == "" {
    } else {
      LowerAt(s[1..]);
    }
  }

  lemma LowerCharsMatch(a: char, b: char)
    ensures LowerChar(a) == LowerChar(b) <==> a == b || UpperOf(a, b) || UpperOf(b, a)
  {
  }

  // Two terms count as one exactly when they differ in ASCII case at most.
  lemma LowersMatchIff(a: string, b: string)
    ensures Lower(a) == Lower(b) <==> SameIgnoringCase(a, b)
  {
    LowerAt(a);
    LowerAt(b);
    forall i | 0 <= i < |a| && i < |b|
      ensures Lower(a)[i] == Lower(b)[i] <==> a[i] == b[i] || UpperOf(a[i], b[i]) || UpperOf(b[i], a[i])
    {
      LowerCharsMatch(a[i], b[i]);
    }
  }

  lemma WhiteSpaceTable(c: char)
    ensures IsSpace(c) <==>
            c as int in {9, 10, 11, 12, 13, 32, 133, 160, 5760, 8192, 8193, 8194, 8195, 8196, 8197, 8198, 8199, 8200,
                         8201, 8202, 8232, 8233, 8239, 8287, 12288}
  {
  }

  // No white space, parenthesis, tilde or quotation mark.
  ghost predicate HasNoSyntax(s: string) {
    forall i | 0 <= i < |s| :: !IsSpace(s[i]) && s[i] !in ['(', ')', '~', '"']
  }

  lemma PlainIsWithoutSyntax(s: string)
    ensures IsPlain(s) <==> HasNoSyntax(s)
  {
    forall i | 0 <= i < |s| ensures s[i] in s {}
  }

  // All leading dashes go, and nothing else.
  lemma {:induction false} DashesGo(s: string) returns (n: nat)
    ensures n <= |s| && StripDashes(s) == s[n..]
    ensures (forall i | 0 <= i < n :: s[i] == '-') && (n < |s| ==> s[n] != '-')
  {
    n := 0;
    if s != "" && s[0] == '-' {
      var m := DashesGo(s[1..]);
      n := m + 1;
    }
  }

  // The white space at both ends goes, and nothing else.
  lemma SpacesGo(s: string) returns (a: nat, b: nat)
    ensures a <= b <= |s| && TrimEnd(TrimStart(s)) == s[a..b]
    ensures forall i | (0 <= i < a || b <= i < |s|) :: IsSpace(s[i])
    ensures a < b ==> !IsSpace(s[a]) && !IsSpace(s[b - 1])
  {
    a := SpacesGoInFront(s);
    var n := SpacesGoBehind(s[a..]);
    b := a + n;
  }

  lemma {:induction false} SpacesGoInFront(s: string) returns (a: nat)
    ensures a <= |s| && TrimStart(s) == s[a..]
    ensures (forall i | 0 <= i < a :: IsSpace(s[i])) && (a < |s| ==> !IsSpace(s[a]))
  {
    a := 0;
    if s != "" && IsSpace(s[0]) {
      var n := SpacesGoInFront(s[1..]);
      a := n + 1;
    }
  }

  lemma {:induction false} SpacesGoBehind(s: string) returns (b: nat)
    ensures b <= |s| && TrimEnd(s) == s[..b]
    ensures (forall i | b <= i < |s| :: IsSpace(s[i])) && (b > 0 ==> !IsSpace(s[b - 1]))
  {
    b := |s|;
    if s != "" && IsSpace(s[|s| - 1]) {
      b := SpacesGoBehind(s[..|s| - 1]);
    }
  }

  // --- deduplication ------------------------------------------------------------------

  ghost function Lowers(tails: seq<string>): set<string> {
    set t | t in tails && t != "" :: Lower(t)
  }

  // Tails that are non-empty and new, case-insensitively, in arrival order.
  function Keep(tails: seq<string>, seen: set<string>): seq<string> {
    if tails == [] then []
    else
      var init := Keep(tails[..|tails| - 1], seen);
      var last := tails[|tails| - 1];
      if last == "" || Lower(last) in Seen(tails[..|tails| - 1], seen) then init else init + [last]
  }

  // The shared set after `tails` went through it.
  function Seen(tails: seq<string>, seen: set<string>): set<string> {
    if tails == [] then seen
    else
      var last := tails[|tails| - 1];
      Seen(tails[..|tails| - 1], seen) + if last == "" then {} else {Lower(last)}
  }

  lemma {:induction false} SeenIsEverything(tails: seq<string>, seen: set<string>)
    ensures Seen(tails, seen) == seen + Lowers(tails)
  {
    if tails == [] {
      assert Lowers(tails) == {};
    } else {
      var init, last := tails[..|tails| - 1], tails[|tails| - 1];
      SeenIsEverything(init, seen);
      assert tails == init + [last];
      LowersAppend(init, last);
    }
  }

  lemma LowersAppend(tails: seq<string>, last: string)
    ensures Lowers(tails + [last]) == Lowers(tails) + if last == "" then {} else {Lower(last)}
  {
  }

  ghost predicate DistinctIgnoringCase(xs: seq<string>) {
    forall i, j | 0 <= i < j < |xs| :: Lower(xs[i]) != Lower(xs[j])
  }

  lemma {:induction false} KeepIsFresh(tails: seq<string>, seen: set<string>)
    ensures DistinctIgnoringCase(Keep(tails, seen))
    ensures forall t | t in Keep(tails, seen) :: t in tails && t != "" && Lower(t) !in seen
    ensures Lowers(Keep(tails, seen)) == Lowers(tails) - seen
  {
    if tails == [] {
      assert Lowers(tails) == {};
    } else {
      var init, last := tails[..|tails| - 1], tails[|tails| - 1];
      var kept := Keep(init, seen);
      KeepIsFresh(init, seen);
      SeenIsEverything(init, seen);
      assert tails == init + [last];
      LowersAppend(init, last);
      if last != "" && Lower(last) !in Seen(init, seen) {
        forall t | t in kept ensures Lower(t) != Lower(last) {
          assert Lower(t) in Lowers(init);
        }
        AppendKeepsDistinct(kept, last);
        LowersAppend(kept, last);
      }
    }
  }

  // No earlier term spells the i-th one, in any case.
  ghost predicate FirstSpelling(tails: seq<string>, i: nat)
    requires i < |tails|
  {
    forall m | 0 <= m < i :: Lower(tails[m]) != Lower(tails[i])
  }

  // `kept` are the terms of `tails` at the positions `at`, in order, each the
  // first spelling of its term.
  ghost predicate InArrivalOrder(kept: seq<string>, tails: seq<string>, at: seq<nat>) {
    && |at| == |kept|
    && (forall j, k | 0 <= j < k < |at| :: at[j] < at[k])
    && (forall j | 0 <= j < |at| :: at[j] < |tails| && kept[j] == tails[at[j]] && FirstSpelling(tails, at[j]))
  }

  lemma LaterTailKeepsOrder(kept: seq<string>, init: seq<string>, last: string, at: seq<nat>)
    requires InArrivalOrder(kept, init, at)
    ensures InArrivalOrder(kept, init + [last], at)
  {
    var tails := init + [last];
    forall j | 0 <= j < |at| ensures kept[j] == tails[at[j]] && FirstSpelling(tails, at[j]) {
      assert FirstSpelling(init, at[j]);
      assert forall m | 0 <= m <= at[j] :: tails[m] == init[m];
    }
  }

  lemma NewTailKeepsOrder(kept: seq<string>, init: seq<string>, last: string, at: seq<nat>)
    requires InArrivalOrder(kept, init, at) && last != "" && Lower(last) !in Lowers(init)
    ensures InArrivalOrder(kept + [last], init + [last], at + [|init|])
  {
    LaterTailKeepsOrder(kept, init, last, at);
    var tails := init + [last];
    forall m | 0 <= m < |init| ensures Lower(tails[m]) != Lower(tails[|init|]) {
      assert tails[m] == init[m] && init[m] in init && tails[|init|] == last;
    }
    assert FirstSpelling(tails, |init|);
  }

  // What the filter keeps, it keeps in the caller's order and in the first spelling.
  lemma {:induction false} KeptInArrivalOrder(tails: seq<string>, seen: set<string>) returns (at: seq<nat>)
    ensures InArrivalOrder(Keep(tails, seen), tails, at)
  {
    if tails == [] {
      at := [];
    } else {
      var init, last := tails[..|tails| - 1], tails[|tails| - 1];
      at := KeptInArrivalOrder(init, seen);
      assert tails == init + [last];
      SeenIsEverything(init, seen);
      if last == "" || Lower(last) in Seen(init, seen) {
        LaterTailKeepsOrder(Keep(init, seen), init, last, at);
      } else {
        NewTailKeepsOrder(Keep(init, seen), init, last, at);
        at := at + [|init|];
      }
    }
  }

  lemma PickedKeepsOrder(plain: seq<string>, tails: seq<string>, at: seq<nat>, x: string, p: nat)
    requires InArrivalOrder(plain, tails, at)
    requires p < |tails| && x == tails[p] && FirstSpelling(tails, p) && forall j | 0 <= j < |at| :: at[j] < p
    ensures InArrivalOrder(plain + [x], tails, at + [p])
  {
  }

  // The plain terms of the first `n` kept, at some of the same positions.
  lemma {:induction false} PlainInArrivalOrder(kept: seq<string>, tails: seq<string>, at: seq<nat>, n: nat)
      returns (at': seq<nat>)
    requires InArrivalOrder(kept, tails, at) && n <= |kept|
    ensures InArrivalOrder(OnlyPlain(kept[..n]), tails, at')
    ensures forall j | 0 <= j < |at'| :: exists k :: 0 <= k < n && at[k] == at'[j]
  {
    at' := [];
    if n == 0 {
    } else {
      at' := PlainInArrivalOrder(kept, tails, at, n - 1);
      assert kept[..n][..n - 1] == kept[..n - 1];
      if IsPlain(kept[n - 1]) {
        PickedKeepsOrder(OnlyPlain(kept[..n - 1]), tails, at', kept[n - 1], at[n - 1]);
        at' := at' + [at[n - 1]];
      }
    }
  }

  // Position `i` puts `x` into the kept terms.
  ghost predicate Contributes(tails: seq<string>, seen: set<string>, i: nat, x: string) {
    i < |tails| && tails[i] == x && x != "" && Lower(x) !in seen && FirstSpelling(tails, i)
  }

  // Which spellings are kept: the first one of every non-empty unseen term.
  lemma KeptExactly(tails: seq<string>, seen: set<string>, x: string)
    ensures x in Keep(tails, seen) <==> exists i :: Contributes(tails, seen, i, x)
  {
    var kept := Keep(tails, seen);
    var at := KeptInArrivalOrder(tails, seen);
    KeepIsFresh(tails, seen);
    if x in kept {
      var j :| 0 <= j < |kept| && kept[j] == x;
      assert Contributes(tails, seen, at[j], x);
    }
    if i :| Contributes(tails, seen, i, x) {
      assert Lower(x) in Lowers(kept);
      var k :| k in kept && k != "" && Lower(k) == Lower(x);
      var j :| 0 <= j < |kept| && kept[j] == k;
      assert at[j] == i;
    }
  }

  lemma {:induction false} OnlyPlainMembers(xs: seq<string>, x: string)
    ensures x in OnlyPlain(xs) <==> x in xs && IsPlain(x)
  {
    if xs == [] {
    } else {
      var init, last := xs[..|xs| - 1], xs[|xs| - 1];
      OnlyPlainMembers(init, x);
      assert xs == init + [last];
    }
  }

  // The boost candidates of a query are the first spellings, free of query syntax
  // and not searched for, of the caller's ranked tags, in the caller's order.
  lemma BoostsKeepCallerOrder(search: seq<string>, boost: seq<string>, required: seq<string>, excluded: seq<string>)
      returns (at: seq<nat>)
    ensures var boosts := Collect(search, boost, required, excluded).boosts;
            && InArrivalOrder(boosts, BoostTails(boost), at)
            && forall x :: x in boosts <==>
                 HasNoSyntax(x) && exists i :: Contributes(BoostTails(boost), Lowers(SearchTails(search)), i, x)
  {
    var tails, seen1 := BoostTails(boost), Seen(SearchTails(search), {});
    var kept := KeptInArrivalOrder(tails, seen1);
    var terms := Keep(tails, seen1);
    assert terms[..|terms|] == terms;
    at := PlainInArrivalOrder(terms, tails, kept, |terms|);
    SeenIsEverything(SearchTails(search), {});
    assert seen1 == Lowers(SearchTails(search));
    forall x ensures x in OnlyPlain(terms) <==> HasNoSyntax(x) && exists i :: Contributes(tails, seen1, i, x) {
      PlainIsWithoutSyntax(x);
      OnlyPlainMembers(terms, x);
      KeptExactly(tails, seen1, x);
    }
  }

  // --- the four groups -----------------------------------------------------------------

  datatype Groups = Groups(search: seq<string>, boosts: seq<string>, required: seq<string>, excluded: seq<string>) {
    function Terms(): nat {
      |search| + |boosts| + |required| + |excluded|
    }
  }

  function SearchTails(search: seq<string>): (r: seq<string>)
    ensures |r| == |search|
  {
    seq(|search|, i requires 0 <= i < |search| => StripDashes(search[i]))
  }

  function BoostTails(boost: seq<string>): (r: seq<string>)
    ensures |r| == |boost|
  {
    seq(|boost|, i requires 0 <= i < |boost| => StripDashes(TrimEnd(TrimStart(boost[i]))))
  }

  function OnlyPlain(xs: seq<string>): seq<string> {
    if xs == [] then []
    else OnlyPlain(xs[..|xs| - 1]) + if IsPlain(xs[|xs| - 1]) then [xs[|xs| - 1]] else []
  }

  // Everything the query would carry without a budget. The boost group keeps the
  // caller's order; the others are sorted.
  function Collect(search: seq<string>, boost: seq<string>, required: seq<string>, excluded: seq<string>): Groups {
    var seen1 := Seen(SearchTails(search), {});
    var seen2 := Seen(BoostTails(boost), seen1);
    var seen3 := Seen(required, seen2);
    Groups(Sort(Keep(SearchTails(search), {}), LexLe),
           OnlyPlain(Keep(BoostTails(boost), seen1)),
           Sort(Keep(required, seen2), LexLe),
           Sort(Keep(excluded, seen3), LexLe))
  }

  function Take(xs: seq<string>, n: nat): (r: seq<string>)
    ensures |r| == if n < |xs| then n else |xs|
  {
    if n < |xs| then xs[..n] else xs
  }

  function Min(a: nat, b: nat): nat { if a < b then a else b }

  // Search terms first, then boosts, requirements and exclusions while room remains.
  function Cut(g: Groups, budget: Budget): Groups {
    var limit := budget.Limit();
    var search := Take(g.search, limit);
    var boosts := Take(g.boosts, Min(budget.boost, limit - |search|));
    var required := Take(g.required, limit - |search| - |boosts|);
    var excluded := Take(g.excluded, Min(budget.BlacklistCap(), limit - |search| - |boosts| - |required|));
    Groups(search, boosts, required, excluded)
  }

  // --- what a query promises -------------------------------------------------------------

  // The limit asked for, brought into 1..40.
  function Clamped(limit: nat): (l: nat)
    ensures 1 <= l <= 40 && (1 <= limit <= 40 ==> l == limit)
    ensures (limit < 1 ==> l == 1) && (limit > 40 ==> l == 40)
  {
    var atLeastOne := if limit == 0 then 1 else limit;
    if atLeastOne <= 40 then atLeastOne else 40
  }

  lemma QueryFitsTheBudget(g: Groups, budget: Budget)
    ensures var q := Cut(g, budget);
            && q.Terms() <= Clamped(budget.limit)
            && |q.boosts| <= budget.boost
            && (budget.blacklist > 0 ==> |q.excluded| <= budget.blacklist)
            && q.boosts <= g.boosts && q.search <= g.search && q.required <= g.required && q.excluded <= g.excluded
  {
  }

  // A lower group appears only behind complete higher ones, and a term is left
  // out only because its budget or the whole limit is used up. An exclusion budget
  // of zero is no budget.
  lemma HigherGroupsComeFirst(g: Groups, budget: Budget)
    ensures var q := Cut(g, budget);
            var full := q.Terms() == Clamped(budget.limit);
            && (q.excluded != [] ==> q.required == g.required)
            && (q.required != [] || q.boosts != [] || q.excluded != [] ==> q.search == g.search)
            && (q.search != g.search || q.required != g.required ==> full)
            && (q.boosts != g.boosts ==>
                  |q.boosts| == budget.boost || |q.search| + |q.boosts| == Clamped(budget.limit))
            && (q.excluded != g.excluded ==> full || (budget.blacklist > 0 && |q.excluded| == budget.blacklist))
  {
  }

  ghost predicate AllDistinct(g: Groups) {
    && DistinctIgnoringCase(g.search) && DistinctIgnoringCase(g.boosts)
    && DistinctIgnoringCase(g.required) && DistinctIgnoringCase(g.excluded)
    && Lowers(g.search) !! Lowers(g.boosts) !! Lowers(g.required) !! Lowers(g.excluded)
    && "" !in g.search && "" !in g.boosts && "" !in g.required && "" !in g.excluded
  }

  lemma {:induction false} OnlyPlainSelects(xs: seq<string>)
    requires DistinctIgnoringCase(xs)
    ensures DistinctIgnoringCase(OnlyPlain(xs))
    ensures forall x | x in OnlyPlain(xs) :: x in xs && IsPlain(x)
    ensures Lowers(OnlyPlain(xs)) <= Lowers(xs)
  {
    if xs == [] {
    } else {
      var init, last := xs[..|xs| - 1], xs[|xs| - 1];
      assert xs == init + [last];
      OnlyPlainSelects(init);
      LowersAppend(init, last);
      if IsPlain(last) {
        LastIsNew(xs);
        AppendKeepsDistinct(OnlyPlain(init), last);
        LowersAppend(OnlyPlain(init), last);
      }
    }
  }

  lemma LastIsNew(xs: seq<string>)
    requires DistinctIgnoringCase(xs) && xs != []
    ensures forall x | x in xs[..|xs| - 1] :: Lower(x) != Lower(xs[|xs| - 1])
  {
    forall x | x in xs[..|xs| - 1] ensures Lower(x) != Lower(xs[|xs| - 1]) {
      var i :| 0 <= i < |xs| - 1 && xs[i] == x;
    }
  }

  lemma AppendKeepsDistinct(xs: seq<string>, x: string)
    requires DistinctIgnoringCase(xs) && forall y | y in xs :: Lower(y) != Lower(x)
    ensures DistinctIgnoringCase(xs + [x])
  {
  }

  lemma SortKeepsDistinct(xs: seq<string>)
    requires DistinctIgnoringCase(xs)
    ensures DistinctIgnoringCase(Sort(xs, LexLe))
    ensures Lowers(Sort(xs, LexLe)) == Lowers(xs)
    ensures forall x :: x in Sort(xs, LexLe) <==> x in xs
  {
    LexIsATotalOrder();
    SortIsOrderedPermutation(xs, LexLe);
    var ys := Sort(xs, LexLe);
    assert Distinct(xs);
    DistinctMeansOnce(xs);
    OnceMeansDistinct(ys);
    forall i, j | 0 <= i < j < |ys| ensures Lower(ys[i]) != Lower(ys[j]) {
      assert ys[i] in xs && ys[j] in xs;
      var a :| 0 <= a < |xs| && xs[a] == ys[i];
      var b :| 0 <= b < |xs| && xs[b] == ys[j];
      assert a != b;
    }
  }

  // No term repeats another, in any group, whatever its letter case.
  lemma CollectedTermsAreDistinct(search: seq<string>, boost: seq<string>, required: seq<string>, excluded: seq<string>)
    ensures AllDistinct(Collect(search, boost, required, excluded))
  {
    var seen1 := Seen(SearchTails(search), {});
    var seen2 := Seen(BoostTails(boost), seen1);
    var seen3 := Seen(required, seen2);
    SortedGroupIsFresh(SearchTails(search), {});
    BoostGroupIsFresh(BoostTails(boost), seen1);
    SortedGroupIsFresh(required, seen2);
    SortedGroupIsFresh(excluded, seen3);
  }

  // `group` says nothing the groups before it said.
  ghost predicate IsFreshGroup(group: seq<string>, tails: seq<string>, seen: set<string>) {
    && DistinctIgnoringCase(group) && "" !in group
    && Lowers(group) !! seen
    && Lowers(group) <= Seen(tails, seen) && seen <= Seen(tails, seen)
  }

  lemma SortedGroupIsFresh(tails: seq<string>, seen: set<string>)
    ensures IsFreshGroup(Sort(Keep(tails, seen), LexLe), tails, seen)
  {
    SeenIsEverything(tails, seen);
    KeepIsFresh(tails, seen);
    SortKeepsDistinct(Keep(tails, seen));
  }

  lemma BoostGroupIsFresh(tails: seq<string>, seen: set<string>)
    ensures IsFreshGroup(OnlyPlain(Keep(tails, seen)), tails, seen)
  {
    SeenIsEverything(tails, seen);
    KeepIsFresh(tails, seen);
    OnlyPlainSelects(Keep(tails, seen));
  }

  lemma DistinctSurvivesCut(g: Groups, budget: Budget)
    requires AllDistinct(g)
    ensures AllDistinct(Cut(g, budget))
  {
    var q := Cut(g, budget);
    PrefixLowers(g.search, q.search);
    PrefixLowers(g.boosts, q.boosts);
    PrefixLowers(g.required, q.required);
    PrefixLowers(g.excluded, q.excluded);
  }

  lemma PrefixLowers(xs: seq<string>, p: seq<string>)
    requires p <= xs && DistinctIgnoringCase(xs)
    ensures Lowers(p) <= Lowers(xs) && DistinctIgnoringCase(p)
    ensures forall x | x in p :: x in xs
  {
    forall x | x in p ensures x in xs {
      var i :| 0 <= i < |p| && p[i] == x;
      assert xs[i] == x;
    }
  }

  // Which exclusions reach the query: exactly those no earlier group mentions. A
  // boost tag refused for its syntax still counts as mentioned.
  lemma ExclusionSurvivesIffUnmentioned(
      search: seq<string>, boost: seq<string>, required: seq<string>, excluded: seq<string>, x: string)
    ensures x in Lowers(Collect(search, boost, required, excluded).excluded) <==>
            && x in Lowers(excluded)
            && x !in Lowers(SearchTails(search)) && x !in Lowers(BoostTails(boost)) && x !in Lowers(required)
  {
    var seen1 := Seen(SearchTails(search), {});
    var seen2 := Seen(BoostTails(boost), seen1);
    SeenIsEverything(SearchTails(search), {});
    SeenIsEverything(BoostTails(boost), seen1);
    SeenIsEverything(required, seen2);
    KeepIsFresh(excluded, Seen(required, seen2));
    SortKeepsDistinct(Keep(excluded, Seen(required, seen2)));
  }

  // Which search terms and requirements reach the query before its budget: the
  // first spelling of each, for requirements only if no search term or boost
  // mentions it.
  lemma TermsSurviveIff(
      search: seq<string>, boost: seq<string>, required: seq<string>, excluded: seq<string>, x: string)
    ensures var g := Collect(search, boost, required, excluded);
            && (x in g.search <==> exists i :: Contributes(SearchTails(search), {}, i, x))
            && (x in g.required <==>
                exists i :: Contributes(required, Lowers(SearchTails(search)) + Lowers(BoostTails(boost)), i, x))
  {
    var seen1 := Seen(SearchTails(search), {});
    var seen2 := Seen(BoostTails(boost), seen1);
    SeenIsEverything(SearchTails(search), {});
    SeenIsEverything(BoostTails(boost), seen1);
    assert seen2 == Lowers(SearchTails(search)) + Lowers(BoostTails(boost));
    KeptExactly(SearchTails(search), {}, x);
    KeptExactly(required, seen2, x);
    KeepIsFresh(SearchTails(search), {});
    KeepIsFresh(required, seen2);
    SortKeepsDistinct(Keep(SearchTails(search), {}));
    SortKeepsDistinct(Keep(required, seen2));
  }

  // No unseen term comes in two spellings.
  ghost predicate OneSpelling(tails: seq<string>, seen: set<string>) {
    forall a, b | a in tails && b in tails && Lower(a) == Lower(b) && Lower(a) !in seen :: a == b
  }

  ghost predicate SameTerms(a: seq<string>, b: seq<string>) {
    forall x :: x in a <==> x in b
  }

  lemma SameTermsSameLowers(a: seq<string>, b: seq<string>, seen: set<string>)
    requires SameTerms(a, b)
    ensures Lowers(a) == Lowers(b) && Seen(a, seen) == Seen(b, seen)
  {
    SeenIsEverything(a, seen);
    SeenIsEverything(b, seen);
  }

  lemma KeptOneSpelling(tails: seq<string>, seen: set<string>, x: string)
    requires OneSpelling(tails, seen)
    ensures x in Keep(tails, seen) <==> x in tails && x != "" && Lower(x) !in seen
  {
    KeepIsFresh(tails, seen);
    if x in tails && x != "" && Lower(x) !in seen {
      assert Lower(x) in Lowers(Keep(tails, seen));
      var t :| t in Keep(tails, seen) && t != "" && Lower(t) == Lower(x);
      assert t in tails;
    }
  }

  // A sorted group is determined by the spellings it keeps.
  lemma SortedKeepIffSameKept(a: seq<string>, b: seq<string>, seen: set<string>)
    ensures Sort(Keep(a, seen), LexLe) == Sort(Keep(b, seen), LexLe) <==> SameTerms(Keep(a, seen), Keep(b, seen))
  {
    KeepIsFresh(a, seen);
    KeepIsFresh(b, seen);
    SortKeepsDistinct(Keep(a, seen));
    SortKeepsDistinct(Keep(b, seen));
    LexIsATotalOrder();
    SortIsOrderedPermutation(Keep(a, seen), LexLe);
    SortIsOrderedPermutation(Keep(b, seen), LexLe);
    if SameTerms(Keep(a, seen), Keep(b, seen)) {
      OrderedArrangementIsUnique(Sort(Keep(a, seen), LexLe), Sort(Keep(b, seen), LexLe), LexLe);
    } else {
      var x :| x in Keep(a, seen) <==> x !in Keep(b, seen);
      assert x in Sort(Keep(a, seen), LexLe) <==> x !in Sort(Keep(b, seen), LexLe);
    }
  }

  // Groups spelled one way are determined by which terms they hold.
  lemma SortedKeepDependsOnTerms(a: seq<string>, b: seq<string>, seen: set<string>)
    requires OneSpelling(a, seen) && SameTerms(a, b)
    ensures Sort(Keep(a, seen), LexLe) == Sort(Keep(b, seen), LexLe)
  {
    assert OneSpelling(b, seen);
    forall x ensures x in Keep(a, seen) <==> x in Keep(b, seen) {
      KeptOneSpelling(a, seen, x);
      KeptOneSpelling(b, seen, x);
    }
    SortedKeepIffSameKept(a, b, seen);
  }

  // Of two spellings of an unseen term, the one that comes first is kept.
  lemma FirstOfTwoWins(s: string, t: string, rest: seq<string>, seen: set<string>)
    requires s != t && Lower(s) == Lower(t) && Lower(s) !in seen
    ensures s in Keep([s, t] + rest, seen) && t !in Keep([s, t] + rest, seen)
  {
    var tails := [s, t] + rest;
    LowerAt(s);
    LowerAt(t);
    assert s != "";
    assert Contributes(tails, seen, 0, s);
    KeptExactly(tails, seen, s);
    KeptExactly(tails, seen, t);
    assert tails[0] == s;
    forall i: nat ensures !Contributes(tails, seen, i, t) {
    }
  }

  // Swapping two spellings of an unseen term changes the group.
  lemma TwoSpellingsDependOnOrder(s: string, t: string, rest: seq<string>, seen: set<string>)
    requires s != t && Lower(s) == Lower(t) && Lower(s) !in seen
    ensures Sort(Keep([s, t] + rest, seen), LexLe) != Sort(Keep([t, s] + rest, seen), LexLe)
  {
    FirstOfTwoWins(s, t, rest, seen);
    FirstOfTwoWins(t, s, rest, seen);
    SortedKeepIffSameKept([s, t] + rest, [t, s] + rest, seen);
  }

  lemma TakeOut(xs: seq<string>, x: string) returns (rest: seq<string>)
    requires x in xs
    ensures multiset(xs) == multiset{x} + multiset(rest)
  {
    var i :| 0 <= i < |xs| && xs[i] == x;
    rest := xs[..i] + xs[i + 1..];
    assert xs == xs[..i] + [x] + xs[i + 1..];
  }

  lemma TwoToTheFront(tails: seq<string>, s: string, t: string) returns (rest: seq<string>)
    requires s in tails && t in tails && s != t
    ensures multiset(tails) == multiset([s, t] + rest)
    ensures multiset(tails) == multiset([t, s] + rest)
  {
    var without := TakeOut(tails, s);
    assert t in multiset(tails);
    rest := TakeOut(without, t);
    assert [s, t] + rest == [s] + ([t] + rest) && [t, s] + rest == [t] + ([s] + rest);
  }

  // Some rearrangement of the terms changes the sorted group.
  ghost predicate OrderMatters(tails: seq<string>, seen: set<string>) {
    exists tails' ::
      multiset(tails') == multiset(tails) && Sort(Keep(tails', seen), LexLe) != Sort(Keep(tails, seen), LexLe)
  }

  lemma SameMultisetSameTerms(a: seq<string>, b: seq<string>)
    requires multiset(a) == multiset(b)
    ensures SameTerms(a, b)
  {
    forall x ensures x in a <==> x in b {
      assert x in a <==> x in multiset(a);
      assert x in b <==> x in multiset(b);
    }
  }

  // The order of a group's terms matters exactly when an unseen term comes in two
  // spellings.
  lemma OrderMattersIffTwoSpellings(tails: seq<string>, seen: set<string>)
    ensures OrderMatters(tails, seen) <==> !OneSpelling(tails, seen)
  {
    if OneSpelling(tails, seen) {
      forall tails' | multiset(tails') == multiset(tails)
        ensures Sort(Keep(tails', seen), LexLe) == Sort(Keep(tails, seen), LexLe)
      {
        SameMultisetSameTerms(tails, tails');
        SortedKeepDependsOnTerms(tails, tails', seen);
      }
    } else {
      var tails' := RearrangedGroup(tails, seen);
    }
  }

  lemma RearrangedGroup(tails: seq<string>, seen: set<string>) returns (tails': seq<string>)
    requires !OneSpelling(tails, seen)
    ensures multiset(tails') == multiset(tails)
    ensures Sort(Keep(tails', seen), LexLe) != Sort(Keep(tails, seen), LexLe)
  {
    var s, t :| s in tails && t in tails && Lower(s) == Lower(t) && Lower(s) !in seen && s != t;
    var rest := TwoToTheFront(tails, s, t);
    TwoSpellingsDependOnOrder(s, t, rest, seen);
    var one, two := [s, t] + rest, [t, s] + rest;
    tails' := if Sort(Keep(one, seen), LexLe) != Sort(Keep(tails, seen), LexLe) then one else two;
  }

  // While each unseen term is spelled one way, the order and repetition of search
  // terms and of blacklist terms do not change the query.
  lemma QueryIgnoresTermOrder(
      search: seq<string>, search': seq<string>, boost: seq<string>,
      required: seq<string>, required': seq<string>, excluded: seq<string>, excluded': seq<string>, budget: Budget)
    requires SameTerms(SearchTails(search), SearchTails(search'))
    requires SameTerms(required, required') && SameTerms(excluded, excluded')
    requires EachSpelledOnce(search, boost, required, excluded)
    ensures Collect(search, boost, required, excluded) == Collect(search', boost, required', excluded')
    ensures Cut(Collect(search, boost, required, excluded), budget)
         == Cut(Collect(search', boost, required', excluded'), budget)
  {
    var seen1 := Seen(SearchTails(search), {});
    var seen2 := Seen(BoostTails(boost), seen1);
    SortedKeepDependsOnTerms(SearchTails(search), SearchTails(search'), {});
    SameTermsSameLowers(SearchTails(search), SearchTails(search'), {});
    SortedKeepDependsOnTerms(required, required', seen2);
    SameTermsSameLowers(required, required', seen2);
    SortedKeepDependsOnTerms(excluded, excluded', Seen(required, seen2));
  }

  // Within each sorted group, every term no earlier group mentions has one spelling.
  ghost predicate EachSpelledOnce(
      search: seq<string>, boost: seq<string>, required: seq<string>, excluded: seq<string>) {
    var seen1 := Seen(SearchTails(search), {});
    var seen2 := Seen(BoostTails(boost), seen1);
    && OneSpelling(SearchTails(search), {})
    && OneSpelling(required, seen2)
    && OneSpelling(excluded, Seen(required, seen2))
  }

  // Rearranging the search words or a half of the blacklist never changes the
  // candidates of the query if and only if that holds.
  lemma QueryOrderMattersIff(search: seq<string>, boost: seq<string>, required: seq<string>, excluded: seq<string>)
    ensures EachSpelledOnce(search, boost, required, excluded) <==>
            forall search', required', excluded' |
              && multiset(search') == multiset(search)
              && multiset(required') == multiset(required) && multiset(excluded') == multiset(excluded) ::
              Collect(search', boost, required', excluded') == Collect(search, boost, required, excluded)
  {
    if EachSpelledOnce(search, boost, required, excluded) {
      forall search', required', excluded' |
        && multiset(search') == multiset(search)
        && multiset(required') == multiset(required) && multiset(excluded') == multiset(excluded)
        ensures Collect(search', boost, required', excluded') == Collect(search, boost, required, excluded)
      {
        PermutedSearchHasSameTails(search, search');
        SameMultisetSameTerms(required, required');
        SameMultisetSameTerms(excluded, excluded');
        QueryIgnoresTermOrder(search, search', boost, required, required', excluded, excluded', Budget(0, 0, 0));
      }
    } else {
      var search', required', excluded' := RearrangedQueryDiffers(search, boost, required, excluded);
    }
  }

  // A rearrangement that shows: of the words of the first group with two spellings.
  lemma RearrangedQueryDiffers(search: seq<string>, boost: seq<string>, required: seq<string>, excluded: seq<string>)
      returns (search': seq<string>, required': seq<string>, excluded': seq<string>)
    requires !EachSpelledOnce(search, boost, required, excluded)
    ensures multiset(search') == multiset(search)
    ensures multiset(required') == multiset(required) && multiset(excluded') == multiset(excluded)
    ensures Collect(search', boost, required', excluded') != Collect(search, boost, required, excluded)
  {
    var seen2 := Seen(BoostTails(boost), Seen(SearchTails(search), {}));
    search', required', excluded' := search, required, excluded;
    if !OneSpelling(SearchTails(search), {}) {
      search' := RearrangedWords(search);
    } else if !OneSpelling(required, seen2) {
      required' := RearrangedGroup(required, seen2);
    } else {
      excluded' := RearrangedGroup(excluded, Seen(required, seen2));
    }
  }

  // The cut drops nothing from the candidates of this query.
  predicate FitsWhole(
      search: seq<string>, boost: seq<string>, required: seq<string>, excluded: seq<string>, budget: Budget) {
    Cut(Collect(search, boost, required, excluded), budget) == Collect(search, boost, required, excluded)
  }

  // For a query that fits its budget, the same holds of the query sent.
  lemma SentQueryOrderMattersIff(
      search: seq<string>, boost: seq<string>, required: seq<string>, excluded: seq<string>, budget: Budget)
    requires FitsWhole(search, boost, required, excluded, budget)
    ensures EachSpelledOnce(search, boost, required, excluded) <==>
            forall search', required', excluded' |
              && multiset(search') == multiset(search)
              && multiset(required') == multiset(required) && multiset(excluded') == multiset(excluded) ::
              Cut(Collect(search', boost, required', excluded'), budget) ==
              Cut(Collect(search, boost, required, excluded), budget)
  {
    if EachSpelledOnce(search, boost, required, excluded) {
      QueryOrderMattersIff(search, boost, required, excluded);
    } else {
      var search', required', excluded' := RearrangedQueryDiffers(search, boost, required, excluded);
      RearrangedFitsWhole(search, search', boost, required, required', excluded, excluded', budget);
      assert Cut(Collect(search', boost, required', excluded'), budget) !=
             Cut(Collect(search, boost, required, excluded), budget);
    }
  }

  lemma RearrangedFitsWhole(
      search: seq<string>, search': seq<string>, boost: seq<string>,
      required: seq<string>, required': seq<string>, excluded: seq<string>, excluded': seq<string>, budget: Budget)
    requires multiset(search') == multiset(search)
    requires multiset(required') == multiset(required) && multiset(excluded') == multiset(excluded)
    requires FitsWhole(search, boost, required, excluded, budget)
    ensures FitsWhole(search', boost, required', excluded', budget)
  {
    var tails, tails' := SearchTails(search), SearchTails(search');
    PermutedSearchHasSameTails(search, search');
    SameMultisetSameTerms(required, required');
    SameMultisetSameTerms(excluded, excluded');
    SameTermsSameLowers(tails, tails', {});
    var seen2 := Seen(BoostTails(boost), Seen(tails, {}));
    SameTermsSameLowers(required, required', seen2);
    SameTermsSameSize(tails, tails', {});
    SameTermsSameSize(required, required', seen2);
    SameTermsSameSize(excluded, excluded', Seen(required, seen2));
    SameSizesSameCut(Collect(search, boost, required, excluded), Collect(search', boost, required', excluded'), budget);
  }

  lemma SameSizesSameCut(g: Groups, g': Groups, budget: Budget)
    requires |g.search| == |g'.search| && |g.boosts| == |g'.boosts|
    requires |g.required| == |g'.required| && |g.excluded| == |g'.excluded|
    requires Cut(g, budget) == g
    ensures Cut(g', budget) == g'
  {
    var q := Cut(g, budget);
    assert |q.search| == |g.search| && |q.boosts| == |g.boosts|;
    assert |q.required| == |g.required| && |q.excluded| == |g.excluded|;
  }

  lemma SameTermsSameSize(a: seq<string>, b: seq<string>, seen: set<string>)
    requires SameTerms(a, b)
    ensures |Sort(Keep(a, seen), LexLe)| == |Sort(Keep(b, seen), LexLe)|
  {
    LexIsATotalOrder();
    KeepIsFresh(a, seen);
    KeepIsFresh(b, seen);
    SortIsOrderedPermutation(Keep(a, seen), LexLe);
    SortIsOrderedPermutation(Keep(b, seen), LexLe);
    SizeOfLowers(Keep(a, seen));
    SizeOfLowers(Keep(b, seen));
    SameTermsSameLowers(a, b, seen);
  }

  lemma {:induction false} SizeOfLowers(xs: seq<string>)
    requires DistinctIgnoringCase(xs) && "" !in xs
    ensures |Lowers(xs)| == |xs|
  {
    if xs == [] {
      assert Lowers(xs) == {};
    } else {
      var init, last := xs[..|xs| - 1], xs[|xs| - 1];
      assert xs == init + [last];
      SizeOfLowers(init);
      LowersAppend(init, last);
      LastIsNew(xs);
    }
  }

  lemma RearrangedWords(search: seq<string>) returns (search': seq<string>)
    requires !OneSpelling(SearchTails(search), {})
    ensures multiset(search') == multiset(search)
    ensures Sort(Keep(SearchTails(search'), {}), LexLe) != Sort(Keep(SearchTails(search), {}), LexLe)
  {
    var tails := SearchTails(search);
    var s, t :| s in tails && t in tails && Lower(s) == Lower(t) && s != t;
    var i :| 0 <= i < |search| && tails[i] == s;
    var j :| 0 <= j < |search| && tails[j] == t;
    var rest := TwoToTheFront(search, search[i], search[j]);
    var one, two := [search[i], search[j]] + rest, [search[j], search[i]] + rest;
    assert SearchTails(one) == [s, t] + SearchTails(rest);
    assert SearchTails(two) == [t, s] + SearchTails(rest);
    TwoSpellingsDependOnOrder(s, t, SearchTails(rest), {});
    search' := if Sort(Keep(SearchTails(one), {}), LexLe) != Sort(Keep(tails, {}), LexLe) then one else two;
  }

  // Permuting the raw search words permutes their tails.
  lemma PermutedSearchHasSameTails(search: seq<string>, search': seq<string>)
    requires multiset(search) == multiset(search')
    ensures SameTerms(SearchTails(search), SearchTails(search'))
  {
    forall x ensures x in SearchTails(search) <==> x in SearchTails(search') {
      if x in SearchTails(search) {
        var i :| 0 <= i < |search| && SearchTails(search)[i] == x;
        assert search[i] in multiset(search');
        var j :| 0 <= j < |search'| && search'[j] == search[i];
        assert SearchTails(search')[j] == x;
      }
      if x in SearchTails(search') {
        var i :| 0 <= i < |search'| && SearchTails(search')[i] == x;
        assert search'[i] in multiset(search);
        var j :| 0 <= j < |search| && search[j] == search'[i];
        assert SearchTails(search)[j] == x;
      }
    }
  }

  // --- the builder ------------------------------------------------------------------------

  function Join(xs: seq<string>): string {
    if xs == [] then ""
    else if |xs| == 1 then xs[0]
    else xs[0] + " " + Join(xs[1..])
  }

  function Prefixed(p: string, xs: seq<string>): (r: seq<string>)
    ensures |r| == |xs| && forall i | 0 <= i < |xs| :: r[i] == p + xs[i]
  {
    seq(|xs|, i requires 0 <= i < |xs| => p + xs[i])
  }

  // The query text: the boost group parenthesised as one OR.
  function Render(q: Groups): string {
    Join(q.search
         + (if q.boosts == [] then [] else ["( " + Join(Prefixed("~", q.boosts)) + " )"])
         + q.required
         + Prefixed("-", q.excluded))
  }

  // --- reading the text back ---------------------------------------------------------------

  // What e621 reads as separate terms: the boost group counts its parentheses.
  function Tokens(q: Groups): seq<string> {
    q.search + BoostTokens(q.boosts) + q.required + Prefixed("-", q.excluded)
  }

  function BoostTokens(boosts: seq<string>): seq<string> {
    if boosts == [] then [] else ["("] + Prefixed("~", boosts) + [")"]
  }

  // Length of the text up to its first white space.
  function WordEnd(text: string): (n: nat)
    ensures n <= |text| && (text != "" && !IsSpace(text[0]) ==> n > 0)
  {
    if text == "" || IsSpace(text[0]) then 0 else 1 + WordEnd(text[1..])
  }

  // Splitting at white space, as the query parser does.
  function Words(text: string): seq<string>
    decreases |text|
  {
    if text == "" then []
    else if IsSpace(text[0]) then Words(text[1..])
    else [text[..WordEnd(text)]] + Words(text[WordEnd(text)..])
  }

  ghost predicate IsWord(x: string) {
    x != "" && NoSpace(x)
  }

  ghost predicate NoSpace(x: string) {
    forall c | c in x :: !IsSpace(c)
  }

  ghost predicate AllWords(xs: seq<string>) {
    forall i | 0 <= i < |xs| :: IsWord(xs[i])
  }

  lemma {:induction false} WordEndsAtSpace(x: string, rest: string)
    requires NoSpace(x) && (rest == "" || IsSpace(rest[0]))
    ensures WordEnd(x + rest) == |x|
  {
    if x == "" {
      assert x + rest == rest;
    } else {
      assert (x + rest)[1..] == x[1..] + rest;
      assert x == [x[0]] + x[1..];
      WordEndsAtSpace(x[1..], rest);
    }
  }

  lemma FirstWord(x: string, rest: string)
    requires IsWord(x) && (rest == "" || IsSpace(rest[0]))
    ensures Words(x + rest) == [x] + Words(rest)
  {
    WordEndsAtSpace(x, rest);
    assert (x + rest)[0] == x[0] && x[0] in x;
    assert (x + rest)[..|x|] == x && (x + rest)[|x|..] == rest;
  }

  // Joining words with single spaces and splitting again gives the words back.
  lemma {:induction false} JoinedWordsSplit(xs: seq<string>)
    requires AllWords(xs)
    ensures Words(Join(xs)) == xs
  {
    if xs == [] {
    } else if |xs| == 1 {
      FirstWord(xs[0], "");
      assert xs[0] + "" == xs[0];
    } else {
      var rest := " " + Join(xs[1..]);
      JoinedWordsSplit(xs[1..]);
      FirstWord(xs[0], rest);
      assert Join(xs) == xs[0] + rest;
      assert rest[1..] == Join(xs[1..]);
    }
  }

  lemma {:induction false} JoinConcat(a: seq<string>, b: seq<string>)
    requires a != [] && b != []
    ensures Join(a + b) == Join(a) + " " + Join(b)
  {
    if |a| == 1 {
      assert (a + b)[1..] == b;
    } else {
      JoinConcat(a[1..], b);
      assert (a + b)[1..] == a[1..] + b;
    }
  }

  // A joined run of terms may stand as one term of a longer list.
  lemma JoinNested(a: seq<string>, b: seq<string>, c: seq<string>)
    requires b != []
    ensures Join(a + [Join(b)] + c) == Join(a + b + c)
  {
    JoinTail([Join(b)], b, c);
    JoinHead(a, [Join(b)] + c, b + c);
    assert a + [Join(b)] + c == a + ([Join(b)] + c) && a + b + c == a + (b + c);
  }

  lemma JoinTail(b: seq<string>, b': seq<string>, c: seq<string>)
    requires b != [] && b' != [] && Join(b) == Join(b')
    ensures Join(b + c) == Join(b' + c)
  {
    if c == [] {
      assert b + c == b && b' + c == b';
    } else {
      JoinConcat(b, c);
      JoinConcat(b', c);
    }
  }

  lemma JoinHead(a: seq<string>, b: seq<string>, b': seq<string>)
    requires b != [] && b' != [] && Join(b) == Join(b')
    ensures Join(a + b) == Join(a + b')
  {
    if a == [] {
      assert a + b == b && a + b' == b';
    } else {
      JoinConcat(a, b);
      JoinConcat(a, b');
    }
  }

  lemma ParenthesesAround(text: string)
    ensures "( " + text + " )" == Join(["("]) + " " + text + " " + Join([")"])
  {
    assert "( " == "(" + " " && " )" == " " + ")";
  }

  lemma BoostGroupText(boosts: seq<string>)
    requires boosts != []
    ensures "( " + Join(Prefixed("~", boosts)) + " )" == Join(BoostTokens(boosts))
  {
    var inner := Prefixed("~", boosts);
    JoinConcat(["("] + inner, [")"]);
    JoinConcat(["("], inner);
    ParenthesesAround(Join(inner));
  }

  lemma RenderIsJoinedTokens(q: Groups)
    ensures Render(q) == Join(Tokens(q))
  {
    var tail := q.required + Prefixed("-", q.excluded);
    if q.boosts == [] {
      assert q.search + [] + q.required + Prefixed("-", q.excluded) == Tokens(q);
    } else {
      BoostGroupText(q.boosts);
      var text := "( " + Join(Prefixed("~", q.boosts)) + " )";
      JoinNested(q.search, BoostTokens(q.boosts), tail);
      assert q.search + [text] + q.required + Prefixed("-", q.excluded) == q.search + [text] + tail;
      assert Tokens(q) == q.search + BoostTokens(q.boosts) + tail;
    }
  }

  lemma PrefixedWords(p: string, xs: seq<string>)
    requires IsWord(p) && AllWords(xs)
    ensures AllWords(Prefixed(p, xs))
  {
  }

  // If no term holds white space, splitting the text sent gives back exactly the
  // terms of the four groups, in order, and the two parentheses.
  lemma TextReadsBack(q: Groups)
    requires AllWords(q.search) && AllWords(q.boosts) && AllWords(q.required) && AllWords(q.excluded)
    ensures Words(Render(q)) == Tokens(q)
    ensures |Words(Render(q))| == q.Terms() + if q.boosts == [] then 0 else 2
  {
    RenderIsJoinedTokens(q);
    assert IsWord("~") && IsWord("-") && IsWord("(") && IsWord(")");
    PrefixedWords("~", q.boosts);
    PrefixedWords("-", q.excluded);
    assert AllWords(BoostTokens(q.boosts));
    JoinedWordsSplit(Tokens(q));
  }

  ghost predicate NoSpaces(xs: seq<string>) {
    forall x | x in xs :: NoSpace(x)
  }

  lemma {:induction false} StrippedHasNoSpace(x: string)
    requires NoSpace(x)
    ensures NoSpace(StripDashes(x))
  {
    if x == "" || x[0] != '-' {
    } else {
      assert x == [x[0]] + x[1..];
      StrippedHasNoSpace(x[1..]);
    }
  }

  // The terms of the cut come from the inputs, so words in give words out; boosts
  // are words whatever the caller ranks.
  lemma CutTermsAreWords(
      search: seq<string>, boost: seq<string>, required: seq<string>, excluded: seq<string>, budget: Budget)
    requires NoSpaces(search) && NoSpaces(required) && NoSpaces(excluded)
    ensures var q := Cut(Collect(search, boost, required, excluded), budget);
            AllWords(q.search) && AllWords(q.boosts) && AllWords(q.required) && AllWords(q.excluded)
  {
    var g := Collect(search, boost, required, excluded);
    var seen1 := Seen(SearchTails(search), {});
    var seen2 := Seen(BoostTails(boost), seen1);
    forall x | x in SearchTails(search) ensures NoSpace(x) {
      var i :| 0 <= i < |search| && SearchTails(search)[i] == x;
      assert search[i] in search;
      StrippedHasNoSpace(search[i]);
    }
    KeptWords(SearchTails(search), {});
    KeptWords(required, seen2);
    KeptWords(excluded, Seen(required, seen2));
    forall x | x in g.boosts ensures IsWord(x) {
      OnlyPlainMembers(Keep(BoostTails(boost), seen1), x);
      KeepIsFresh(BoostTails(boost), seen1);
    }
    QueryFitsTheBudget(g, budget);
    MembersOfCut(g, budget);
  }

  lemma KeptWords(tails: seq<string>, seen: set<string>)
    requires NoSpaces(tails)
    ensures forall x | x in Sort(Keep(tails, seen), LexLe) :: IsWord(x)
  {
    KeepIsFresh(tails, seen);
    SortKeepsDistinct(Keep(tails, seen));
  }

  lemma MembersOfCut(g: Groups, budget: Budget)
    ensures var q := Cut(g, budget);
            && (forall i | 0 <= i < |q.search| :: q.search[i] in g.search)
            && (forall i | 0 <= i < |q.boosts| :: q.boosts[i] in g.boosts)
            && (forall i | 0 <= i < |q.required| :: q.required[i] in g.required)
            && (forall i | 0 <= i < |q.excluded| :: q.excluded[i] in g.excluded)
  {
  }

  // Run tails through the shared set, keeping the new ones.
  method Dedup(tails: seq<string>, seen: set<string>) returns (kept: seq<string>, seen': set<string>)
    ensures kept == Keep(tails, seen) && seen' == Seen(tails, seen)
  {
    kept, seen' := [], seen;
    for i := 0 to |tails|
      invariant kept == Keep(tails[..i], seen) && seen' == Seen(tails[..i], seen)
    {
      assert tails[..i + 1][..i] == tails[..i];
      var tail := tails[i];
      if tail == "" || Lower(tail) in seen' {
        continue;
      }
      seen' := seen' + {Lower(tail)};
      kept := kept + [tail];
    }
    assert tails[..|tails|] == tails;
  }

  // Boosts share the set, but a fresh one with query syntax in it is skipped
  // after it has been entered.
  method DedupBoosts(tails: seq<string>, seen: set<string>) returns (kept: seq<string>, seen': set<string>)
    ensures kept == OnlyPlain(Keep(tails, seen)) && seen' == Seen(tails, seen)
  {
    kept, seen' := [], seen;
    for i := 0 to |tails|
      invariant kept == OnlyPlain(Keep(tails[..i], seen)) && seen' == Seen(tails[..i], seen)
    {
      assert tails[..i + 1][..i] == tails[..i];
      var tail := tails[i];
      if tail == "" || Lower(tail) in seen' {
        continue;
      }
      ghost var earlier := Keep(tails[..i], seen);
      assert (earlier + [tail])[..|earlier|] == earlier;
      seen' := seen' + {Lower(tail)};
      if !IsPlain(tail) {
        continue;
      }
      kept := kept + [tail];
    }
    assert tails[..|tails|] == tails;
  }

  // Spend the limit group by group.
  method CutToBudget(g: Groups, budget: Budget) returns (q: Groups)
    ensures q == Cut(g, budget)
  {
    var limit := budget.Limit();
    var picked := Take(g.search, limit);
    var used := |picked|;
    var boostTake := Min(Min(budget.boost, |g.boosts|), limit - used);
    var group := g.boosts[..boostTake];
    used := used + |group|;
    var i := 0;
    while i < |g.required| && used < limit
      invariant 0 <= i <= |g.required| && used == |picked| + |group| + i <= limit
    {
      used := used + 1;
      i := i + 1;
    }
    var cap := budget.BlacklistCap();
    var k := 0;
    while k < |g.excluded| && used < limit && k < cap
      invariant 0 <= k <= |g.excluded| && k <= cap && used == |picked| + |group| + i + k <= limit
    {
      used := used + 1;
      k := k + 1;
    }
    q := Groups(picked, group, g.required[..i], g.excluded[..k]);
  }

  // `search` is the user's query split at white space; `required` and `excluded`
  // are the two halves of the blacklist, none of them empty.
  method BuildTagQuery(
      search: seq<string>, boost: seq<string>, required: seq<string>, excluded: seq<string>, budget: Budget)
      returns (text: string, q: Groups)
    requires "" !in required
    ensures q == Cut(Collect(search, boost, required, excluded), budget)
    ensures text == Render(q)
    ensures AllDistinct(q) && q.Terms() <= 40
    ensures NoSpaces(search) && NoSpaces(required) && NoSpaces(excluded) ==>
              && Words(text) ==
                 q.search
                 + (if q.boosts == [] then [] else ["("] + Prefixed("~", q.boosts) + [")"])
                 + q.required + Prefixed("-", q.excluded)
              && |Words(text)| == q.Terms() + if q.boosts == [] then 0 else 2
  {
    var positives, seen1 := Dedup(SearchTails(search), {});
    var boosts, seen2 := DedupBoosts(BoostTails(boost), seen1);
    var needed, seen3 := Dedup(required, seen2);
    var negatives, seen4 := Dedup(excluded, seen3);
    var g := Groups(Sort(positives, LexLe), boosts, Sort(needed, LexLe), Sort(negatives, LexLe));
    q := CutToBudget(g, budget);
    text := Render(q);
    CollectedTermsAreDistinct(search, boost, required, excluded);
    DistinctSurvivesCut(g, budget);
    QueryFitsTheBudget(g, budget);
    if NoSpaces(search) && NoSpaces(required) && NoSpaces(excluded) {
      CutTermsAreWords(search, boost, required, excluded, budget);
      TextReadsBack(q);
    }
  }
}
