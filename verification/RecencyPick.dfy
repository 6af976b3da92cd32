// Recency-weighted sampling without replacement (parser-api/src/prefetch.rs,
// weighted_recency_pick), in exact arithmetic.
module RecencyPick {
  const LCG_A: nat := 6364136223846793005
  const LCG_C: nat := 1442695040888963407
  const WORD: nat := 0x1_0000_0000_0000_0000
  const DROPPED: nat := 0x2_0000_0000
  const DRAWS: nat := 0x8000_0000

  function Lcg(state: nat): (next: nat)
    ensures next < WORD
  {
    (state * LCG_A + LCG_C) % WORD
  }

  // The 31 high-quality bits: a right shift by 33.
  function Draw(state: nat): (d: nat)
    requires state < WORD
    ensures d < DRAWS
  {
    state / DROPPED
  }

  // Scaled by n + 1: the weight 1 + (1 - i/(n+1)) of position i becomes 2(n+1) - i.
  function Weight(n: nat, i: nat): (w: nat)
    requires i < n
    ensures w > n + 1
  {
    2 * (n + 1) - i
  }

  // Total weight of the unpicked positions below `i`.
  function Cumulative(picked: seq<bool>, n: nat, i: nat): nat
    requires i <= n <= |picked|
  {
    if i == 0 then 0
    else Cumulative(picked, n, i - 1) + if picked[i - 1] then 0 else Weight(n, i - 1)
  }

  function Unpicked(picked: seq<bool>, n: nat): nat
    requires n <= |picked|
  {
    if n == 0 then 0 else Unpicked(picked, n - 1) + if picked[n - 1] then 0 else 1
  }

  // Position `j`'s cumulative share stops short of the target share.
  ghost predicate Misses(picked: seq<bool>, n: nat, j: nat, target: nat)
    requires j < n <= |picked|
  {
    Cumulative(picked, n, j + 1) * DRAWS < target
  }

  ghost predicate AllMiss(picked: seq<bool>, n: nat, i: nat, target: nat)
    requires i <= n <= |picked|
  {
    forall j | 0 <= j < i :: picked[j] || Misses(picked, n, j, target)
  }

  // Inverse CDF: `i` is the first unpicked position whose cumulative share
  // reaches the draw's share.
  ghost predicate IsSelected(picked: seq<bool>, n: nat, d: nat, i: nat)
    requires n <= |picked|
  {
    && i < n && !picked[i]
    && !Misses(picked, n, i, d * Cumulative(picked, n, n))
    && AllMiss(picked, n, i, d * Cumulative(picked, n, n))
  }

  lemma {:induction false} CumulativeGrows(picked: seq<bool>, n: nat, i: nat, j: nat)
    requires i <= j <= n <= |picked|
    ensures Cumulative(picked, n, i) <= Cumulative(picked, n, j)
  {
    if i == j {
    } else {
      CumulativeGrows(picked, n, i, j - 1);
    }
  }

  lemma SelectionIsUnique(picked: seq<bool>, n: nat, d: nat, i: nat, k: nat)
    requires n <= |picked| && IsSelected(picked, n, d, i) && IsSelected(picked, n, d, k)
    ensures i == k
  {
  }

  // The scan cannot run off the end: the draw's share is below the total.
  lemma {:induction false} SomethingIsSelected(picked: seq<bool>, n: nat, d: nat, from: nat) returns (i: nat)
    requires n <= |picked| && d < DRAWS && from <= n
    requires Cumulative(picked, n, n) > Cumulative(picked, n, from)
    requires AllMiss(picked, n, from, d * Cumulative(picked, n, n))
    ensures IsSelected(picked, n, d, i)
    decreases n - from
  {
    var total := Cumulative(picked, n, n);
    ShareBelowTotal(d, total);
    CumulativeGrows(picked, n, from + 1, n);
    if !picked[from] && !Misses(picked, n, from, d * total) {
      i := from;
    } else {
      i := SomethingIsSelected(picked, n, d, from + 1);
    }
  }

  lemma ShareBelowTotal(d: nat, total: nat)
    requires d < DRAWS
    ensures d * total <= total * DRAWS
  {
    assert total * DRAWS - d * total == total * (DRAWS - d);
  }

  ghost function Select(picked: seq<bool>, n: nat, d: nat): (i: nat)
    requires n <= |picked| && d < DRAWS && Cumulative(picked, n, n) > 0
    ensures IsSelected(picked, n, d, i)
  {
    assert exists i: nat :: IsSelected(picked, n, d, i) by {
      var i := SomethingIsSelected(picked, n, d, 0);
    }
    var i: nat :| IsSelected(picked, n, d, i);
    i
  }

  // `rounds` draws, each turning on the position its draw selects.
  ghost function Picks(picked: seq<bool>, n: nat, rounds: nat, state: nat): seq<bool>
    requires n <= |picked|
    decreases rounds
  {
    if rounds == 0 || Cumulative(picked, n, n) == 0 then picked
    else
      var i := Select(picked, n, Draw(Lcg(state)));
      Picks(picked[i := true], n, rounds - 1, Lcg(state))
  }

  lemma {:induction false} NoWeightMeansAllPicked(picked: seq<bool>, n: nat, i: nat)
    requires i <= n <= |picked|
    ensures Cumulative(picked, n, i) == 0 <==> Unpicked(picked, i) == 0
  {
    if i == 0 {
    } else {
      NoWeightMeansAllPicked(picked, n, i - 1);
    }
  }

  lemma {:induction false} TurningOnOne(picked: seq<bool>, n: nat, i: nat)
    requires n <= |picked| && i < |picked| && !picked[i]
    ensures Unpicked(picked[i := true], n) == Unpicked(picked, n) - if i < n then 1 else 0
  {
    if n == 0 {
    } else {
      TurningOnOne(picked, n - 1, i);
    }
  }

  // Exactly min(rounds, available) new positions come on; none goes off, and
  // nothing outside the first n changes.
  lemma {:induction false} PicksExactly(picked: seq<bool>, n: nat, rounds: nat, state: nat)
    requires n <= |picked|
    ensures var after := Picks(picked, n, rounds, state);
            && |after| == |picked|
            && (forall j | 0 <= j < |picked| && picked[j] :: after[j])
            && (forall j | n <= j < |picked| :: after[j] == picked[j])
            && Unpicked(after, n) == if rounds < Unpicked(picked, n) then Unpicked(picked, n) - rounds else 0
    decreases rounds
  {
    NoWeightMeansAllPicked(picked, n, n);
    if rounds == 0 || Cumulative(picked, n, n) == 0 {
    } else {
      var i := Select(picked, n, Draw(Lcg(state)));
      TurningOnOne(picked, n, i);
      PicksExactly(picked[i := true], n, rounds - 1, Lcg(state));
    }
  }

  // The generator's state after `k` steps.
  function StateAfter(k: nat, state: nat): nat {
    if k == 0 then state else StateAfter(k - 1, Lcg(state))
  }

  lemma {:induction false} RoundsSplit(picked: seq<bool>, n: nat, k: nat, state: nat)
    requires n <= |picked|
    ensures |Picks(picked, n, k, state)| == |picked|
    ensures Picks(picked, n, k + 1, state) == Picks(Picks(picked, n, k, state), n, 1, StateAfter(k, state))
    decreases k
  {
    if k == 0 || Cumulative(picked, n, n) == 0 {
    } else {
      var i := Select(picked, n, Draw(Lcg(state)));
      RoundsSplit(picked[i := true], n, k - 1, Lcg(state));
    }
  }

  lemma OneRound(picked: seq<bool>, n: nat, state: nat)
    requires n <= |picked|
    ensures Unpicked(picked, n) == 0 ==> Picks(picked, n, 1, state) == picked
    ensures Unpicked(picked, n) > 0 ==> exists i: nat ::
              IsSelected(picked, n, Draw(Lcg(state)), i) && Picks(picked, n, 1, state) == picked[i := true]
  {
    NoWeightMeansAllPicked(picked, n, n);
    if Cumulative(picked, n, n) > 0 {
      var i := Select(picked, n, Draw(Lcg(state)));
      assert IsSelected(picked, n, Draw(Lcg(state)), i);
      assert Picks(picked[i := true], n, 0, Lcg(state)) == picked[i := true];
    }
  }

  // Round `k` draws from the generator's `k`-th state and turns on the one position
  // that draw selects; when nothing is left it turns on nothing.
  lemma EachRoundDrawsAnew(picked: seq<bool>, n: nat, k: nat, state: nat)
    requires n <= |picked|
    ensures var before, after := Picks(picked, n, k, state), Picks(picked, n, k + 1, state);
            && |before| == |picked|
            && (Unpicked(before, n) == 0 ==> after == before)
            && (Unpicked(before, n) > 0 ==> exists i: nat ::
                  IsSelected(before, n, Draw(Lcg(StateAfter(k, state))), i) && after == before[i := true])
  {
    RoundsSplit(picked, n, k, state);
    OneRound(Picks(picked, n, k, state), n, StateAfter(k, state));
  }

  // --- how likely each position is --------------------------------------------

  ghost function DrawsSelecting(picked: seq<bool>, n: nat, i: nat): set<nat>
    requires n <= |picked|
  {
    set d: nat | d < DRAWS && IsSelected(picked, n, d, i)
  }

  predicate Within(d: nat, lo: int, hi: int) {
    lo <= d <= hi
  }

  ghost function Range(lo: int, hi: int): set<nat> {
    set d: nat | d <= hi && Within(d, lo, hi)
  }

  lemma {:induction false} RangeSize(lo: nat, hi: int)
    requires lo <= hi + 1
    ensures |Range(lo, hi)| == hi - lo + 1
    decreases hi + 1 - lo
  {
    if lo == hi + 1 {
      assert Range(lo, hi) == {};
    } else {
      RangeSize(lo, hi - 1);
      assert Range(lo, hi) == Range(lo, hi - 1) + {hi};
    }
  }

  // d·w <= b exactly when d is at most the quotient.
  lemma QuotientBound(d: nat, w: nat, b: nat)
    requires w > 0
    ensures d * w <= b <==> d <= b / w
  {
    var q, r := b / w, b % w;
    assert b == q * w + r && r < w;
    if d <= q {
      assert (q - d) * w >= 0;
      assert q * w - d * w == (q - d) * w;
    } else {
      assert (d - q - 1) * w >= 0;
      assert d * w - q * w - w == (d - q - 1) * w;
    }
  }

  // The draws that select position i form an interval.
  lemma SelectingDrawsFormARange(picked: seq<bool>, n: nat, i: nat)
    requires i < n <= |picked| && !picked[i]
    ensures var total := Cumulative(picked, n, n);
            var below := Cumulative(picked, n, i);
            && total > 0
            && DrawsSelecting(picked, n, i) ==
               Range(if below == 0 then 0 else below * DRAWS / total + 1,
                     if Cumulative(picked, n, i + 1) * DRAWS / total < DRAWS
                     then Cumulative(picked, n, i + 1) * DRAWS / total
                     else DRAWS - 1)
  {
    var total := Cumulative(picked, n, n);
    var below := Cumulative(picked, n, i);
    var upto := Cumulative(picked, n, i + 1);
    CumulativeGrows(picked, n, i + 1, n);
    forall d: nat | d < DRAWS
      ensures IsSelected(picked, n, d, i) <==>
              d <= upto * DRAWS / total && (below == 0 || below * DRAWS / total < d)
    {
      QuotientBound(d, total, upto * DRAWS);
      QuotientBound(d, total, below * DRAWS);
      EarlierPositionsMiss(picked, n, i, d * total);
    }
  }

  // Every earlier unpicked position misses the target exactly when the last of
  // them does.
  lemma {:induction false} EarlierPositionsMiss(picked: seq<bool>, n: nat, i: nat, target: nat)
    requires i <= n <= |picked|
    ensures AllMiss(picked, n, i, target) <==>
            (Cumulative(picked, n, i) == 0 || Cumulative(picked, n, i) * DRAWS < target)
  {
    if i == 0 {
    } else {
      EarlierPositionsMiss(picked, n, i - 1, target);
      assert AllMiss(picked, n, i, target) <==>
             AllMiss(picked, n, i - 1, target) && (picked[i - 1] || Misses(picked, n, i - 1, target));
    }
  }

  lemma LowEnd(total: nat, a: nat)
    requires total > 0
    ensures var lo := if a == 0 then 0 else a / total + 1;
            a <= lo * total <= a + total
  {
    assert a == (a / total) * total + a % total;
  }

  lemma HighEnd(total: nat, b: nat)
    requires 0 < total && b <= total * DRAWS
    ensures var hi := if b / total < DRAWS then b / total else DRAWS - 1;
            b <= hi * total + total <= b + total
  {
    assert b == (b / total) * total + b % total;
    if b / total >= DRAWS {
      assert (b / total - DRAWS) * total >= 0;
      assert (b / total - DRAWS) * total == (b / total) * total - DRAWS * total;
    }
  }

  lemma IntervalShare(total: nat, a: nat, b: nat, lo: int, hi: int)
    requires total > 0 && a < b
    requires a <= lo * total <= a + total && b <= hi * total + total <= b + total
    ensures lo <= hi + 1
    ensures b - a - total <= (hi - lo + 1) * total <= b - a + total
  {
    assert (hi - lo + 1) * total == hi * total - lo * total + total;
    var gap := lo - hi - 2;
    assert gap * total == lo * total - hi * total - 2 * total;
    assert gap * total < 0;
    assert gap >= 0 ==> gap * total >= 0;
  }

  // In any round the number of draws selecting an unpicked position is within
  // one of its exact share 2^31 · w / W.
  lemma SelectionIsProportional(picked: seq<bool>, n: nat, i: nat)
    requires i < n <= |picked| && !picked[i]
    ensures var total := Cumulative(picked, n, n);
            var count := |DrawsSelecting(picked, n, i)|;
            DRAWS * Weight(n, i) - total <= count * total <= DRAWS * Weight(n, i) + total
  {
    var total := Cumulative(picked, n, n);
    var a := Cumulative(picked, n, i) * DRAWS;
    var b := Cumulative(picked, n, i + 1) * DRAWS;
    SelectingDrawsFormARange(picked, n, i);
    CumulativeGrows(picked, n, i + 1, n);
    var lo := if a == 0 then 0 else a / total + 1;
    var hi := if b / total < DRAWS then b / total else DRAWS - 1;
    assert b - a == DRAWS * Weight(n, i);
    LowEnd(total, a);
    HighEnd(total, b);
    IntervalShare(total, a, b, lo, hi);
    RangeSize(lo, hi);
  }

  // --- how often the generator picks each position -------------------------------------

  // The generator's step, run backwards.
  const LCG_A_INVERSE: nat := 13877824140714322085

  function LcgBack(next: nat): (state: nat)
    requires next < WORD
    ensures state < WORD
  {
    ((next + WORD - LCG_C) * LCG_A_INVERSE) % WORD
  }

  lemma Wraps(x: int, q: int, r: nat)
    requires x == q * WORD + r && r < WORD
    ensures x % WORD == r
  {
  }

  // A step is a permutation of the 2^64 states: none is lost and none reached twice.
  lemma LcgIsAPermutation(s: nat)
    requires s < WORD
    ensures LcgBack(Lcg(s)) == s && Lcg(LcgBack(s)) == s
  {
    var q := (s * LCG_A + LCG_C) / WORD;
    Wraps((Lcg(s) + WORD - LCG_C) * LCG_A_INVERSE, s * 4787856489426250814 + (1 - q) * LCG_A_INVERSE, s);
    var q' := ((s + WORD - LCG_C) * LCG_A_INVERSE) / WORD;
    Wraps(LcgBack(s) * LCG_A + LCG_C, (s + WORD - LCG_C) * 4787856489426250814 + 1 - q' * LCG_A, s);
  }

  // Each of the 2^31 draws is the top of 2^33 states.
  lemma DrawIsABand(s: nat, d: nat)
    requires s < WORD
    ensures Draw(s) == d <==> d * 0x2_0000_0000 <= s < (d + 1) * 0x2_0000_0000
  {
  }

  ghost function StatesDrawing(ds: set<nat>): set<nat> {
    set s: nat | s < WORD && Draw(s) in ds
  }

  lemma OneDrawsStates(d: nat)
    requires d < DRAWS
    ensures |StatesDrawing({d})| == 0x2_0000_0000
  {
    var lo, hi := d * 0x2_0000_0000, d * 0x2_0000_0000 + 0x1_FFFF_FFFF;
    forall s: nat ensures s in StatesDrawing({d}) <==> s in Range(lo, hi) {
      if s < WORD {
        DrawIsABand(s, d);
      }
    }
    assert StatesDrawing({d}) == Range(lo, hi);
    RangeSize(lo, hi);
  }

  lemma {:induction false} DrawsHaveEqualBands(ds: set<nat>)
    requires forall d | d in ds :: d < DRAWS
    ensures |StatesDrawing(ds)| == |ds| * 0x2_0000_0000
    decreases ds
  {
    if ds == {} {
      assert StatesDrawing(ds) == {};
    } else {
      var d :| d in ds;
      DrawsHaveEqualBands(ds - {d});
      OneDrawsStates(d);
      assert StatesDrawing(ds) == StatesDrawing(ds - {d}) + StatesDrawing({d});
      assert |ds| == |ds - {d}| + 1;
    }
  }

  ghost function StatesBefore(ts: set<nat>): set<nat> {
    set s: nat | s < WORD && Lcg(s) in ts
  }

  lemma {:induction false} StepKeepsSize(ts: set<nat>)
    requires forall t | t in ts :: t < WORD
    ensures |StatesBefore(ts)| == |ts|
    decreases ts
  {
    if ts == {} {
      assert StatesBefore(ts) == {};
    } else {
      var t :| t in ts;
      StepKeepsSize(ts - {t});
      forall s: nat | s < WORD ensures Lcg(s) == t <==> s == LcgBack(t) {
        LcgIsAPermutation(s);
        LcgIsAPermutation(t);
      }
      assert StatesBefore(ts) == StatesBefore(ts - {t}) + {LcgBack(t)};
    }
  }

  // The states from which the next round turns on position `i`.
  ghost function StatesSelecting(picked: seq<bool>, n: nat, i: nat): set<nat>
    requires n <= |picked|
  {
    set s: nat | s < WORD && IsSelected(picked, n, Draw(Lcg(s)), i)
  }

  lemma StatesPerDraw(picked: seq<bool>, n: nat, i: nat)
    requires n <= |picked|
    ensures |StatesSelecting(picked, n, i)| == |DrawsSelecting(picked, n, i)| * 0x2_0000_0000
  {
    var ds := DrawsSelecting(picked, n, i);
    DrawsHaveEqualBands(ds);
    StepKeepsSize(StatesDrawing(ds));
    assert StatesSelecting(picked, n, i) == StatesBefore(StatesDrawing(ds));
  }

  // Of the 2^64 states the generator may be in, those that select an unpicked
  // position are its share of the weight, to within one draw's band of 2^33.
  lemma StatesAreProportional(picked: seq<bool>, n: nat, i: nat)
    requires i < n <= |picked| && !picked[i]
    ensures var total := Cumulative(picked, n, n);
            var count := |StatesSelecting(picked, n, i)|;
            0x1_0000_0000_0000_0000 * Weight(n, i) - 0x2_0000_0000 * total
            <= count * total <= 0x1_0000_0000_0000_0000 * Weight(n, i) + 0x2_0000_0000 * total
  {
    var total, draws := Cumulative(picked, n, n), |DrawsSelecting(picked, n, i)|;
    SelectionIsProportional(picked, n, i);
    StatesPerDraw(picked, n, i);
    assert |StatesSelecting(picked, n, i)| * total == 0x2_0000_0000 * (draws * total);
  }

  // --- earlier positions are likelier --------------------------------------------------

  // The weights are the source's 1 + (1 - i / (n + 1)), scaled by n + 1.
  lemma WeightIsRecency(n: nat, i: nat)
    requires i < n
    ensures Weight(n, i) as real == (n + 1) as real * (1.0 + (1.0 - i as real / (n + 1) as real))
  {
    var m, q := (n + 1) as real, i as real / (n + 1) as real;
    assert m * q == i as real;
    assert m * (1.0 + (1.0 - q)) == 2.0 * m - m * q;
  }

  // With something unpicked before it, a position gets less than one draw more than
  // its share; with something unpicked behind it, less than one draw fewer.
  lemma StrictShares(picked: seq<bool>, n: nat, i: nat)
    requires i < n <= |picked| && !picked[i]
    ensures var total := Cumulative(picked, n, n);
            var share := DRAWS * Weight(n, i);
            var count := |DrawsSelecting(picked, n, i)|;
            && (Cumulative(picked, n, i) > 0 ==> count * total < share + total)
            && (Cumulative(picked, n, i + 1) < total ==> share < count * total + total)
  {
    var total := Cumulative(picked, n, n);
    var a := Cumulative(picked, n, i) * DRAWS;
    var b := Cumulative(picked, n, i + 1) * DRAWS;
    SelectingDrawsFormARange(picked, n, i);
    CumulativeGrows(picked, n, i + 1, n);
    var lo := if a == 0 then 0 else a / total + 1;
    var hi := if b / total < DRAWS then b / total else DRAWS - 1;
    assert b - a == DRAWS * Weight(n, i);
    LowEnd(total, a);
    HighEnd(total, b);
    IntervalShare(total, a, b, lo, hi);
    RangeSize(lo, hi);
    StrictEnds(total, a, b, lo, hi);
  }

  lemma StrictEnds(total: nat, a: nat, b: nat, lo: nat, hi: int)
    requires 0 < total && b <= total * DRAWS
    requires lo == (if a == 0 then 0 else a / total + 1) && hi == if b / total < DRAWS then b / total else DRAWS - 1
    ensures a > 0 ==> (hi - lo + 1) * total < b - a + total
    ensures b < total * DRAWS ==> b - a < (hi - lo + 1) * total + total
  {
    LowEnd(total, a);
    HighEnd(total, b);
    assert (hi - lo + 1) * total == hi * total - lo * total + total;
    assert a == (a / total) * total + a % total && b == (b / total) * total + b % total;
    if a > 0 {
      assert lo * total == (a / total) * total + total;
    }
  }

  // Of two unpicked positions the earlier one is drawn at least as often, unless
  // their shares lie within one draw of each other; then it is at most one behind.
  lemma EarlierIsLikelier(picked: seq<bool>, n: nat, i: nat, j: nat)
    requires i < j < n <= |picked| && !picked[i] && !picked[j]
    ensures |DrawsSelecting(picked, n, j)| <= |DrawsSelecting(picked, n, i)| + 1
    ensures Cumulative(picked, n, n) <= 0x8000_0000 * (j - i) ==>
              |DrawsSelecting(picked, n, j)| <= |DrawsSelecting(picked, n, i)|
  {
    CumulativeGrows(picked, n, i + 1, j);
    CumulativeGrows(picked, n, j + 1, n);
    StrictShares(picked, n, i);
    StrictShares(picked, n, j);
    FewerDraws(Cumulative(picked, n, n), DRAWS * (j - i), |DrawsSelecting(picked, n, i)|,
               |DrawsSelecting(picked, n, j)|, DRAWS * Weight(n, i), DRAWS * Weight(n, j));
  }

  lemma FewerDraws(total: nat, gap: nat, ci: nat, cj: nat, si: nat, sj: nat)
    requires gap > 0 && si == sj + gap && cj * total < sj + total && si < ci * total + total
    ensures cj <= ci + 1 && (total <= gap ==> cj <= ci)
  {
    assert (cj - ci) * total == cj * total - ci * total;
    assert cj - ci >= 2 ==> (cj - ci - 2) * total >= 0 && (cj - ci) * total == (cj - ci - 2) * total + 2 * total;
    assert cj - ci >= 1 ==> (cj - ci - 1) * total >= 0 && (cj - ci) * total == (cj - ci - 1) * total + total;
  }

  lemma {:induction false} CumulativeIsAtMost(picked: seq<bool>, n: nat, i: nat)
    requires i <= n <= |picked|
    ensures 2 * Cumulative(picked, n, i) <= 4 * (n + 1) * i - i * (i - 1)
    ensures (forall k | 0 <= k < i :: !picked[k]) ==> 2 * Cumulative(picked, n, i) == 4 * (n + 1) * i - i * (i - 1)
    decreases i
  {
    if i == 0 {
    } else {
      CumulativeIsAtMost(picked, n, i - 1);
      assert 4 * (n + 1) * i == 4 * (n + 1) * (i - 1) + 4 * (n + 1);
      assert i * (i - 1) == (i - 1) * (i - 2) + 2 * (i - 1);
    }
  }

  // For every pool of up to 37,836 candidates (the caller takes twenty) the earlier of two
  // unpicked positions is selected from at least as many states, whatever is picked.
  lemma EarlierIsLikelierInEveryPool(picked: seq<bool>, n: nat, i: nat, j: nat)
    requires i < j < n <= |picked| && !picked[i] && !picked[j] && n <= 37_836
    ensures |StatesSelecting(picked, n, j)| <= |StatesSelecting(picked, n, i)|
  {
    CumulativeIsAtMost(picked, n, n);
    assert 4 * (n + 1) * n - n * (n - 1) == 3 * (n * n) + 5 * n;
    assert (37_836 - n) * (37_836 + n) >= 0;
    assert (37_836 - n) * (37_836 + n) == 37_836 * 37_836 - n * n;
    EarlierIsLikelier(picked, n, i, j);
    StatesPerDraw(picked, n, i);
    StatesPerDraw(picked, n, j);
  }

  // Far beyond that it can fall one draw behind: here position 1 has 40,903 draws and
  // position 2 has 40,904.
  lemma HugePoolCanInvert()
    ensures var picked := seq(70_000, _ => false);
            |DrawsSelecting(picked, 70_000, 1)| < |DrawsSelecting(picked, 70_000, 2)|
  {
    var n, picked := 70_000, seq(70_000, _ => false);
    CumulativeIsAtMost(picked, n, n);
    CumulativeIsAtMost(picked, n, 1);
    CumulativeIsAtMost(picked, n, 2);
    CumulativeIsAtMost(picked, n, 3);
    SelectingDrawsFormARange(picked, n, 1);
    SelectingDrawsFormARange(picked, n, 2);
    RangeSize(40_904 + 1, 81_807);
    RangeSize(81_807 + 1, 122_711);
  }

  // From state 1 the first draw is 908,834,774 of 2^31, a share of 21.2 in 50: of
  // five positions weighing 12, 11, 10, 9 and 8 the second comes on.
  lemma FirstPickFromStateOne()
    ensures Picks([false, false, false, false, false], 5, 1, 1) == [false, true, false, false, false]
  {
    var none := [false, false, false, false, false];
    Wraps(1 * LCG_A + LCG_C, 0, 7806831264735756412);
    DrawIsABand(7806831264735756412, 908_834_774);
    assert Cumulative(none, 5, 1) == 12 && Cumulative(none, 5, 2) == 23 && Cumulative(none, 5, 3) == 33;
    assert Cumulative(none, 5, 4) == 42 && Cumulative(none, 5, 5) == 50;
    assert IsSelected(none, 5, 908_834_774, 1);
    SelectionIsUnique(none, 5, 908_834_774, 1, Select(none, 5, Draw(Lcg(1))));
    assert Picks(none[1 := true], 5, 0, Lcg(1)) == none[1 := true];
  }

  // --- the in-place algorithm ---------------------------------------------------

  method TotalWeight(n: nat, picked: array<bool>) returns (total: nat)
    requires n <= picked.Length
    ensures total == Cumulative(picked[..], n, n)
  {
    total := 0;
    for i := 0 to n
      invariant total == Cumulative(picked[..], n, i)
    {
      if !picked[i] {
        total := total + Weight(n, i);
      }
    }
  }

  // Walk the unpicked positions until their weight reaches the draw's share.
  method PickOne(n: nat, draw: nat, total: nat, picked: array<bool>)
    requires n <= picked.Length && draw < DRAWS
    requires total == Cumulative(picked[..], n, n) && total > 0
    modifies picked
    ensures picked[..] == old(picked[..])[Select(old(picked[..]), n, draw) := true]
  {
    ghost var before := picked[..];
    var target := draw * total;
    var accumulated := 0;
    ghost var hit := Select(before, n, draw);
    var i := 0;
    while i < n
      invariant i <= hit && picked[..] == before
      invariant accumulated == Cumulative(before, n, i)
      invariant AllMiss(before, n, i, target)
    {
      if !picked[i] {
        accumulated := accumulated + Weight(n, i);
        if accumulated * DRAWS >= target {
          assert !Misses(before, n, i, target);
          SelectionIsUnique(before, n, draw, i, hit);
          picked[i] := true;
          return;
        }
      }
      i := i + 1;
    }
  }

  method WeightedRecencyPick(n: nat, pickCount: nat, seed: nat, picked: array<bool>)
    requires n <= picked.Length && seed < WORD
    modifies picked
    ensures picked[..] == Picks(old(picked[..]), n, if pickCount < n then pickCount else n, seed)
  {
    if n == 0 || pickCount == 0 {
      return;
    }
    var rounds := if pickCount < n then pickCount else n;
    var state: nat := seed;
    var k: nat := 0;
    while k < rounds
      invariant k <= rounds
      invariant state < WORD
      invariant Picks(picked[..], n, rounds - k, state) == Picks(old(picked[..]), n, rounds, seed)
    {
      var totalWeight := TotalWeight(n, picked);
      if totalWeight == 0 {
        break;
      }
      state := Lcg(state);
      PickOne(n, Draw(state), totalWeight, picked);
      k := k + 1;
    }
  }
}
