// The favourites import (parser-api/src/pipeline.rs): choosing a mode, and the
// full and incremental page loops against a remote list that is newest first.
module Pipeline {
  import opened Sorting

  datatype ProcessMode = Full | Incremental | Auto

  const MAX_CONSECUTIVE_PAGE_FAILURES: nat := 2
  const FULL_MODE_MAX_PAGES: nat := 500
  const INCREMENTAL_MAX_PAGES: nat := 200

  function ResolveProcessMode(mode: ProcessMode, localCount: int, remoteCount: int): ProcessMode {
    match mode
    case Full => Full
    case Incremental => Incremental
    case Auto => if localCount == 0 || remoteCount < localCount then Full else Incremental
  }

  function PageCount(favCount: nat, limit: nat): (pages: nat)
    requires limit > 0
  {
    var pages := favCount / limit + if favCount % limit > 0 then 1 else 0;
    if pages < FULL_MODE_MAX_PAGES then pages else FULL_MODE_MAX_PAGES
  }

  // How e621 answers for one page number, over the whole run.
  datatype Answer = Served | RequestError | Malformed
  type Weather = nat -> Answer

  datatype Result = Ok(count: nat) | Err

  function Clip(at: nat, len: nat): nat { if at < len then at else len }

  // How many posts `pages` full pages hold.
  function Offset(pages: nat, limit: nat): nat {
    if pages == 0 then 0 else Offset(pages - 1, limit) + limit
  }

  lemma {:induction false} OffsetIsProduct(pages: nat, limit: nat)
    ensures Offset(pages, limit) == pages * limit
    decreases pages
  {
    if pages == 0 {
    } else {
      OffsetIsProduct(pages - 1, limit);
    }
  }

  lemma {:induction false} OffsetGrows(few: nat, many: nat, limit: nat)
    requires few <= many
    ensures Offset(few, limit) <= Offset(many, limit)
    decreases many
  {
    if few == many {
    } else {
      OffsetGrows(few, many - 1, limit);
    }
  }

  // The first `pages` pages, and page number `page` (counted from 1).
  function Upto(remote: seq<int>, limit: nat, pages: nat): seq<int> {
    remote[..Clip(Offset(pages, limit), |remote|)]
  }

  function Page(remote: seq<int>, limit: nat, page: nat): seq<int>
    requires page > 0
  {
    Slice(remote, Clip(Offset(page - 1, limit), |remote|), Clip(Offset(page, limit), |remote|))
  }

  function Slice(posts: seq<int>, from: nat, to: nat): (r: seq<int>)
    requires from <= to <= |posts|
    ensures |r| == to - from && forall i | 0 <= i < |r| :: r[i] == posts[from + i]
  {
    seq(to - from, i requires 0 <= i < to - from => posts[from + i])
  }

  lemma UptoAppends(remote: seq<int>, limit: nat, page: nat)
    requires page > 0
    ensures Upto(remote, limit, page) == Upto(remote, limit, page - 1) + Page(remote, limit, page)
  {
  }

  // --- failures ------------------------------------------------------------------

  // No malformed page, and never two failed pages in a row.
  ghost predicate Survivable(weather: Weather, pages: nat) {
    && (forall p | 1 <= p <= pages :: weather(p) != Malformed)
    && (forall p | 1 <= p < pages :: !TwoFailures(weather, p))
  }

  predicate TwoFailures(weather: Weather, p: nat) {
    weather(p) != Served && weather(p + 1) != Served
  }

  lemma SurvivesOneMore(weather: Weather, page: nat)
    requires page > 0 && Survivable(weather, page - 1)
    ensures Survivable(weather, page) <==>
            weather(page) != Malformed && (page == 1 || weather(page) == Served || weather(page - 1) == Served)
  {
    if page > 1 {
      assert TwoFailures(weather, page - 1) <==> weather(page - 1) != Served && weather(page) != Served;
    }
  }

  ghost predicate AllServed(weather: Weather, pages: nat) {
    forall p | 1 <= p <= pages :: weather(p) == Served
  }

  lemma FewerPagesServed(weather: Weather, pages: nat)
    requires AllServed(weather, pages) && pages > 0
    ensures AllServed(weather, pages - 1) && weather(pages) == Served
  {
  }

  function FailuresBefore(weather: Weather, page: nat): nat {
    if page == 0 || weather(page) == Served then 0 else FailuresBefore(weather, page - 1) + 1
  }

  // --- full mode -------------------------------------------------------------------

  // Posts of the served pages among the first `pages`.
  function ServedPosts(remote: seq<int>, limit: nat, weather: Weather, pages: nat): seq<int> {
    if pages == 0 then []
    else ServedPosts(remote, limit, weather, pages - 1)
         + if weather(pages) == Served then Page(remote, limit, pages) else []
  }

  lemma {:induction false} AllServedMeansUpto(remote: seq<int>, limit: nat, weather: Weather, pages: nat)
    requires AllServed(weather, pages)
    ensures ServedPosts(remote, limit, weather, pages) == Upto(remote, limit, pages)
  {
    if pages == 0 {
    } else {
      FewerPagesServed(weather, pages);
      AllServedMeansUpto(remote, limit, weather, pages - 1);
      UptoAppends(remote, limit, pages);
    }
  }

  // Every page is saved once, in order. The run fails exactly on a malformed page
  // or two failures in a row, and what earlier pages saved stays saved.
  method RunFullFetch(remote: seq<int>, limit: nat, weather: Weather, pages: nat)
      returns (r: Result, saved: seq<int>, last: nat)
    ensures last <= pages && saved == ServedPosts(remote, limit, weather, last)
    ensures r.Ok? <==> Survivable(weather, pages)
    ensures r.Ok? ==> last == pages && r.count == |saved|
    ensures r.Err? ==> last > 0 && Survivable(weather, last - 1) && !Survivable(weather, last)
    ensures AllServed(weather, pages) ==> r.Ok? && saved == Upto(remote, limit, pages)
    ensures r.Ok? ==> (saved == Upto(remote, limit, pages) <==> NoPostLost(remote, limit, weather, pages))
  {
    saved := [];
    last := 0;
    var failures := 0;
    while last < pages
      invariant last <= pages && Survivable(weather, last)
      invariant failures == FailuresBefore(weather, last) < MAX_CONSECUTIVE_PAGE_FAILURES
      invariant saved == ServedPosts(remote, limit, weather, last)
    {
      last := last + 1;
      SurvivesOneMore(weather, last);
      if weather(last) == Served {
        failures := 0;
        saved := saved + Page(remote, limit, last);
      } else {
        failures := failures + 1;
        if weather(last) == Malformed || failures >= MAX_CONSECUTIVE_PAGE_FAILURES {
          FewerPagesSurvive(weather, last, pages);
          return Err, saved, last;
        }
      }
    }
    ServedIffNothingLost(remote, limit, weather, pages);
    r := Ok(|saved|);
  }

  lemma FewerPagesSurvive(weather: Weather, few: nat, many: nat)
    requires few <= many
    ensures Survivable(weather, many) ==> Survivable(weather, few)
  {
  }

  // The page arithmetic covers the whole list as long as the cap allows it.
  lemma PageCountCovers(favCount: nat, limit: nat)
    requires limit > 0
    ensures favCount <= 500 * limit ==>
              PageCount(favCount, limit) * limit >= favCount
              && (favCount > 0 ==> (PageCount(favCount, limit) - 1) * limit < favCount)
    ensures favCount > 500 * limit ==> PageCount(favCount, limit) == 500
  {
    var q, r := favCount / limit, favCount % limit;
    assert favCount == q * limit + r;
    var pages := q + if r > 0 then 1 else 0;
    assert r > 0 ==> pages * limit == q * limit + limit && (pages - 1) * limit == q * limit;
    assert r == 0 ==> pages * limit == favCount && (pages - 1) * limit == q * limit - limit;
    ProductGrows(FULL_MODE_MAX_PAGES, pages - 1, limit);
    ProductGrows(pages, FULL_MODE_MAX_PAGES, limit);
  }

  lemma ProductGrows(a: int, b: int, limit: nat)
    ensures a <= b ==> a * limit <= b * limit
  {
    assert a <= b ==> (b - a) * limit >= 0;
    assert b * limit == a * limit + (b - a) * limit;
  }

  // --- incremental mode --------------------------------------------------------------

  function NotOwned(posts: seq<int>, owned: set<int>): seq<int> {
    if posts == [] then []
    else NotOwned(posts[..|posts| - 1], owned) + if posts[|posts| - 1] in owned then [] else [posts[|posts| - 1]]
  }

  lemma {:induction false} NotOwnedMembers(posts: seq<int>, owned: set<int>)
    ensures forall x :: x in NotOwned(posts, owned) <==> x in posts && x !in owned
    ensures |NotOwned(posts, owned)| <= |posts|
    ensures |NotOwned(posts, owned)| == |posts| <==> forall i | 0 <= i < |posts| :: posts[i] !in owned
    ensures |NotOwned(posts, owned)| == |posts| ==> NotOwned(posts, owned) == posts
  {
    if posts == [] {
    } else {
      var init, last := posts[..|posts| - 1], posts[|posts| - 1];
      NotOwnedMembers(init, owned);
      assert posts == init + [last];
      assert forall i | 0 <= i < |init| :: posts[i] == init[i];
    }
  }

  lemma {:induction false} NotOwnedConcat(a: seq<int>, b: seq<int>, owned: set<int>)
    ensures NotOwned(a + b, owned) == NotOwned(a, owned) + NotOwned(b, owned)
  {
    if b == [] {
      assert a + b == a;
    } else {
      NotOwnedConcat(a, b[..|b| - 1], owned);
      assert (a + b)[..|a + b| - 1] == a + b[..|b| - 1];
    }
  }

  // A page that ends the incremental walk: past the end, or holding an owned post.
  predicate Stops(remote: seq<int>, limit: nat, owned: set<int>, page: nat)
    requires page > 0
  {
    Page(remote, limit, page) == [] || |NotOwned(Page(remote, limit, page), owned)| < |Page(remote, limit, page)|
  }

  function FreshOnServed(remote: seq<int>, limit: nat, owned: set<int>, weather: Weather, pages: nat): seq<int> {
    if pages == 0 then []
    else FreshOnServed(remote, limit, owned, weather, pages - 1)
         + if weather(pages) == Served then NotOwned(Page(remote, limit, pages), owned) else []
  }

  // The pages asked for so far held the list's head, and its new posts were saved.
  ghost predicate FreshSoFar(remote: seq<int>, limit: nat, owned: set<int>, weather: Weather, pages: nat) {
    FreshOnServed(remote, limit, owned, weather, pages) == NotOwned(Upto(remote, limit, pages), owned)
  }

  lemma {:induction false} AllServedMeansFresh(
      remote: seq<int>, limit: nat, owned: set<int>, weather: Weather, pages: nat)
    requires AllServed(weather, pages)
    ensures FreshSoFar(remote, limit, owned, weather, pages)
    decreases pages
  {
    if pages == 0 {
      NoPagesNoPosts(remote, limit, owned, weather);
    } else {
      AllServedMeansFresh(remote, limit, owned, weather, pages - 1);
      assert weather(pages) == Served;
      OneMorePage(remote, limit, owned, weather, pages);
    }
  }

  lemma NoPagesNoPosts(remote: seq<int>, limit: nat, owned: set<int>, weather: Weather)
    ensures FreshSoFar(remote, limit, owned, weather, 0)
  {
    assert Upto(remote, limit, 0) == [];
  }

  lemma OneMorePage(remote: seq<int>, limit: nat, owned: set<int>, weather: Weather, page: nat)
    requires page > 0 && weather(page) == Served && FreshSoFar(remote, limit, owned, weather, page - 1)
    ensures FreshSoFar(remote, limit, owned, weather, page)
  {
    NextPageAppends(remote, limit, owned, page);
    ServedPageJoins(remote, limit, owned, weather, page);
  }

  lemma ServedPageJoins(remote: seq<int>, limit: nat, owned: set<int>, weather: Weather, page: nat)
    requires page > 0 && weather(page) == Served
    ensures FreshOnServed(remote, limit, owned, weather, page)
         == FreshOnServed(remote, limit, owned, weather, page - 1) + NotOwned(Page(remote, limit, page), owned)
  {
  }

  lemma NextPageAppends(remote: seq<int>, limit: nat, owned: set<int>, page: nat)
    requires page > 0
    ensures NotOwned(Upto(remote, limit, page), owned)
         == NotOwned(Upto(remote, limit, page - 1), owned) + NotOwned(Page(remote, limit, page), owned)
  {
    UptoAppends(remote, limit, page);
    NotOwnedConcat(Upto(remote, limit, page - 1), Page(remote, limit, page), owned);
  }

  ghost predicate NoStopBefore(remote: seq<int>, limit: nat, owned: set<int>, weather: Weather, page: nat) {
    forall p | 1 <= p < page :: weather(p) == Served ==> !Stops(remote, limit, owned, p)
  }

  lemma StopsOnceMore(remote: seq<int>, limit: nat, owned: set<int>, weather: Weather, page: nat)
    requires page > 0 && NoStopBefore(remote, limit, owned, weather, page)
    ensures NoStopBefore(remote, limit, owned, weather, page + 1) <==>
            weather(page) == Served ==> !Stops(remote, limit, owned, page)
  {
  }

  // `last` is the last page asked for: the first served page that stops the walk,
  // or the cap.
  ghost predicate WalkedTo(remote: seq<int>, limit: nat, owned: set<int>, weather: Weather, last: nat) {
    && 1 <= last <= INCREMENTAL_MAX_PAGES
    && NoStopBefore(remote, limit, owned, weather, last)
    && (last < INCREMENTAL_MAX_PAGES ==> weather(last) == Served && Stops(remote, limit, owned, last))
  }

  // `owned` is the snapshot taken before the first page.
  method RunIncrementalFetch(remote: seq<int>, limit: nat, owned: set<int>, weather: Weather)
      returns (r: Result, saved: seq<int>, last: nat)
    ensures last <= 200 && saved == FreshOnServed(remote, limit, owned, weather, last)
    ensures r.Ok? <==> Survivable(weather, last)
    ensures r.Ok? ==> WalkedTo(remote, limit, owned, weather, last) && r.count == |saved|
    ensures r.Err? ==> last > 0 && Survivable(weather, last - 1) && NoStopBefore(remote, limit, owned, weather, last)
  {
    saved := [];
    last := 0;
    var failures := 0;
    while last < INCREMENTAL_MAX_PAGES
      invariant last <= INCREMENTAL_MAX_PAGES && Survivable(weather, last)
      invariant failures == FailuresBefore(weather, last) < MAX_CONSECUTIVE_PAGE_FAILURES
      invariant NoStopBefore(remote, limit, owned, weather, last + 1)
      invariant saved == FreshOnServed(remote, limit, owned, weather, last)
    {
      last := last + 1;
      SurvivesOneMore(weather, last);
      StopsOnceMore(remote, limit, owned, weather, last);
      if weather(last) != Served {
        failures := failures + 1;
        if weather(last) == Malformed || failures >= MAX_CONSECUTIVE_PAGE_FAILURES {
          return Err, saved, last;
        }
        continue;
      }
      failures := 0;
      var posts := Page(remote, limit, last);
      ServedPageJoins(remote, limit, owned, weather, last);
      if posts == [] {
        break;
      }
      var newPosts := NotOwned(posts, owned);
      saved := saved + newPosts;
      if |newPosts| < |posts| {
        break;
      }
    }
    r := Ok(|saved|);
  }

  // --- what failed pages cost ----------------------------------------------------------

  // New posts on the failed pages among the first `pages`.
  function Lost(remote: seq<int>, limit: nat, owned: set<int>, weather: Weather, pages: nat): nat {
    if pages == 0 then 0
    else Lost(remote, limit, owned, weather, pages - 1)
         + if weather(pages) == Served then 0 else |NotOwned(Page(remote, limit, pages), owned)|
  }

  // A page that failed and held something new.
  predicate LosesPosts(remote: seq<int>, limit: nat, owned: set<int>, weather: Weather, page: nat)
    requires page > 0
  {
    weather(page) != Served && NotOwned(Page(remote, limit, page), owned) != []
  }

  ghost predicate LosesNothing(remote: seq<int>, limit: nat, owned: set<int>, weather: Weather, pages: nat) {
    forall p | 1 <= p <= pages :: !LosesPosts(remote, limit, owned, weather, p)
  }

  lemma {:induction false} NothingLostMeansZero(
      remote: seq<int>, limit: nat, owned: set<int>, weather: Weather, pages: nat)
    ensures Lost(remote, limit, owned, weather, pages) == 0 <==> LosesNothing(remote, limit, owned, weather, pages)
    decreases pages
  {
    if pages == 0 {
    } else {
      NothingLostMeansZero(remote, limit, owned, weather, pages - 1);
      assert LosesNothing(remote, limit, owned, weather, pages) <==>
             LosesNothing(remote, limit, owned, weather, pages - 1)
             && !LosesPosts(remote, limit, owned, weather, pages);
    }
  }

  // Whatever fails, saved and lost add up to the new posts of the pages asked for.
  lemma {:induction false} SavedPlusLost(remote: seq<int>, limit: nat, owned: set<int>, weather: Weather, pages: nat)
    ensures |FreshOnServed(remote, limit, owned, weather, pages)| + Lost(remote, limit, owned, weather, pages)
         == |NotOwned(Upto(remote, limit, pages), owned)|
    decreases pages
  {
    if pages == 0 {
      NoPagesNoPosts(remote, limit, owned, weather);
    } else {
      SavedPlusLost(remote, limit, owned, weather, pages - 1);
      NextPageAppends(remote, limit, owned, pages);
    }
  }

  lemma {:induction false} LosingNothingSavesAll(
      remote: seq<int>, limit: nat, owned: set<int>, weather: Weather, pages: nat)
    requires LosesNothing(remote, limit, owned, weather, pages)
    ensures FreshSoFar(remote, limit, owned, weather, pages)
    decreases pages
  {
    if pages == 0 {
      NoPagesNoPosts(remote, limit, owned, weather);
    } else {
      LosingNothingSavesAll(remote, limit, owned, weather, pages - 1);
      if weather(pages) == Served {
        OneMorePage(remote, limit, owned, weather, pages);
      } else {
        assert !LosesPosts(remote, limit, owned, weather, pages);
        EmptyPageChangesNothing(remote, limit, owned, weather, pages);
      }
    }
  }

  lemma EmptyPageChangesNothing(remote: seq<int>, limit: nat, owned: set<int>, weather: Weather, page: nat)
    requires page > 0 && weather(page) != Served && NotOwned(Page(remote, limit, page), owned) == []
    requires FreshSoFar(remote, limit, owned, weather, page - 1)
    ensures FreshSoFar(remote, limit, owned, weather, page)
  {
    NextPageAppends(remote, limit, owned, page);
  }

  // In any weather, what is saved is everything new on the pages asked for exactly
  // when no failed page held anything new.
  lemma FreshIffNothingLost(remote: seq<int>, limit: nat, owned: set<int>, weather: Weather, pages: nat)
    ensures FreshOnServed(remote, limit, owned, weather, pages) == NotOwned(Upto(remote, limit, pages), owned)
            <==> LosesNothing(remote, limit, owned, weather, pages)
  {
    SavedPlusLost(remote, limit, owned, weather, pages);
    NothingLostMeansZero(remote, limit, owned, weather, pages);
    if LosesNothing(remote, limit, owned, weather, pages) {
      LosingNothingSavesAll(remote, limit, owned, weather, pages);
    }
  }

  lemma {:induction false} NothingOwnedKeepsAll(posts: seq<int>)
    ensures NotOwned(posts, {}) == posts
  {
    NotOwnedMembers(posts, {});
  }

  lemma {:induction false} ServedIsFreshOfNothing(remote: seq<int>, limit: nat, weather: Weather, pages: nat)
    ensures ServedPosts(remote, limit, weather, pages) == FreshOnServed(remote, limit, {}, weather, pages)
    decreases pages
  {
    if pages == 0 {
    } else {
      ServedIsFreshOfNothing(remote, limit, weather, pages - 1);
      NothingOwnedKeepsAll(Page(remote, limit, pages));
    }
  }

  // No failed page among the first `pages` held a post.
  ghost predicate NoPostLost(remote: seq<int>, limit: nat, weather: Weather, pages: nat) {
    forall p | 1 <= p <= pages :: weather(p) == Served || Page(remote, limit, p) == []
  }

  // A full run saves the whole head of the list exactly when no failed page held a post.
  lemma ServedIffNothingLost(remote: seq<int>, limit: nat, weather: Weather, pages: nat)
    ensures ServedPosts(remote, limit, weather, pages) == Upto(remote, limit, pages)
            <==> NoPostLost(remote, limit, weather, pages)
  {
    ServedIsFreshOfNothing(remote, limit, weather, pages);
    NothingOwnedKeepsAll(Upto(remote, limit, pages));
    FreshIffNothingLost(remote, limit, {}, weather, pages);
    NoLossIsNoPostLost(remote, limit, weather, pages);
  }

  lemma NoLossIsNoPostLost(remote: seq<int>, limit: nat, weather: Weather, pages: nat)
    ensures LosesNothing(remote, limit, {}, weather, pages) <==> NoPostLost(remote, limit, weather, pages)
  {
    forall p | 1 <= p <= pages
      ensures LosesPosts(remote, limit, {}, weather, p) <==> weather(p) != Served && Page(remote, limit, p) != []
    {
      NothingOwnedKeepsAll(Page(remote, limit, p));
    }
  }

  // --- where the walk ends, and whether it was enough --------------------------------------

  // Index of the first post owned already, or the length of the list.
  function FirstOwned(remote: seq<int>, owned: set<int>): (f: nat)
    ensures f <= |remote| && (f < |remote| ==> remote[f] in owned)
    ensures forall i | 0 <= i < f :: remote[i] !in owned
  {
    if remote == [] || remote[0] in owned then 0 else 1 + FirstOwned(remote[1..], owned)
  }

  // Pages the walk covers, from the caller's own knowledge: up to the one holding
  // the first owned post, within the cap.
  function WalkPages(remote: seq<int>, limit: nat, owned: set<int>): nat
    requires limit > 0
  {
    var pages := FirstOwned(remote, owned) / limit + 1;
    if pages < INCREMENTAL_MAX_PAGES then pages else INCREMENTAL_MAX_PAGES
  }

  predicate OwnedFrom(remote: seq<int>, from: nat, owned: set<int>) {
    forall i | from <= i < |remote| :: remote[i] in owned
  }

  predicate TailOwned(remote: seq<int>, limit: nat, owned: set<int>)
    requires limit > 0
  {
    OwnedFrom(remote, WalkPages(remote, limit, owned) * limit, owned)
  }

  // Owned already or just saved.
  predicate Covers(remote: seq<int>, owned: set<int>, saved: seq<int>) {
    forall x | x in remote :: x in owned || x in saved
  }

  lemma FirstOwnedPage(remote: seq<int>, limit: nat, owned: set<int>)
    requires limit > 0
    ensures var f := FirstOwned(remote, owned);
            Offset(f / limit, limit) <= f < Offset(f / limit + 1, limit)
  {
    OffsetIsProduct(FirstOwned(remote, owned) / limit, limit);
  }

  lemma PageBeforeFirstOwned(remote: seq<int>, limit: nat, owned: set<int>, page: nat)
    requires limit > 0 && page > 0 && Offset(page, limit) <= FirstOwned(remote, owned)
    ensures !Stops(remote, limit, owned, page)
  {
    var posts := Page(remote, limit, page);
    NotOwnedMembers(posts, owned);
    assert |posts| == limit;
  }

  lemma PageOfFirstOwned(remote: seq<int>, limit: nat, owned: set<int>, page: nat)
    requires limit > 0 && page > 0
    requires Offset(page - 1, limit) <= FirstOwned(remote, owned) < Offset(page, limit)
    requires FirstOwned(remote, owned) < |remote|
    ensures Stops(remote, limit, owned, page)
  {
    var posts, f := Page(remote, limit, page), FirstOwned(remote, owned);
    NotOwnedMembers(posts, owned);
    assert posts[f - Offset(page - 1, limit)] == remote[f];
  }

  // With every page served, the walk covers the same head of the list as WalkPages.
  lemma WalkCovers(remote: seq<int>, limit: nat, owned: set<int>, weather: Weather, last: nat)
    requires limit > 0 && WalkedTo(remote, limit, owned, weather, last) && AllServed(weather, last)
    ensures Clip(Offset(last, limit), |remote|) == Clip(Offset(WalkPages(remote, limit, owned), limit), |remote|)
  {
    var f, pages := FirstOwned(remote, owned), WalkPages(remote, limit, owned);
    FirstOwnedPage(remote, limit, owned);
    if last < pages {
      OffsetGrows(last, f / limit, limit);
      PageBeforeFirstOwned(remote, limit, owned, last);
    } else if pages < last {
      assert weather(pages) == Served && !Stops(remote, limit, owned, pages);
      if f < |remote| {
        PageOfFirstOwned(remote, limit, owned, pages);
      }
      OffsetGrows(pages, last, limit);
    }
  }

  // Whether a run ends owning the whole remote list, in any weather: exactly when
  // no failed page held a new post and everything past the last page was owned.
  lemma CompleteIff(remote: seq<int>, limit: nat, owned: set<int>, weather: Weather, last: nat)
    requires Distinct(remote)
    ensures Covers(remote, owned, FreshOnServed(remote, limit, owned, weather, last)) <==>
            LosesNothing(remote, limit, owned, weather, last) && OwnedFrom(remote, Offset(last, limit), owned)
  {
    var saved, n := FreshOnServed(remote, limit, owned, weather, last), Clip(Offset(last, limit), |remote|);
    CoveredIffTailOwned(remote, owned, n);
    if LosesNothing(remote, limit, owned, weather, last) {
      LosingNothingSavesAll(remote, limit, owned, weather, last);
    } else {
      LossLeavesAGap(remote, limit, owned, weather, last);
    }
  }

  lemma LossLeavesAGap(remote: seq<int>, limit: nat, owned: set<int>, weather: Weather, last: nat)
    requires Distinct(remote) && !LosesNothing(remote, limit, owned, weather, last)
    ensures !Covers(remote, owned, FreshOnServed(remote, limit, owned, weather, last))
  {
    var saved := FreshOnServed(remote, limit, owned, weather, last);
    var head := Upto(remote, limit, last);
    SavedPlusLost(remote, limit, owned, weather, last);
    NothingLostMeansZero(remote, limit, owned, weather, last);
    assert |saved| < |NotOwned(head, owned)|;
    WantedIsDistinct(head, owned);
    NotOwnedMembers(head, owned);
    if forall x | x in NotOwned(head, owned) :: x in saved {
      CoveringListIsLongEnough(NotOwned(head, owned), saved);
    } else {
      var x :| x in NotOwned(head, owned) && x !in saved;
      assert x in head && x !in owned;
      assert x in remote;
    }
  }

  // With every page served, that is a condition on the list and the local set alone.
  lemma CompleteIffTailOwned(remote: seq<int>, limit: nat, owned: set<int>, weather: Weather, last: nat)
    requires limit > 0 && Distinct(remote)
    requires WalkedTo(remote, limit, owned, weather, last) && AllServed(weather, last)
    ensures Covers(remote, owned, FreshOnServed(remote, limit, owned, weather, last)) <==>
            TailOwned(remote, limit, owned)
  {
    CompleteIff(remote, limit, owned, weather, last);
    WalkCovers(remote, limit, owned, weather, last);
    OffsetIsProduct(WalkPages(remote, limit, owned), limit);
  }

  // For a full run nothing was owned before.
  lemma FullIsCompleteIff(remote: seq<int>, limit: nat, weather: Weather, last: nat)
    requires Distinct(remote)
    ensures Members(ServedPosts(remote, limit, weather, last)) == Members(remote) <==>
            NoPostLost(remote, limit, weather, last) && |remote| <= last * limit
  {
    var saved := ServedPosts(remote, limit, weather, last);
    ServedIsFreshOfNothing(remote, limit, weather, last);
    CompleteIff(remote, limit, {}, weather, last);
    NoLossIsNoPostLost(remote, limit, weather, last);
    OffsetIsProduct(last, limit);
    NothingOwnedFrom(remote, last * limit);
    CoversMembers(remote, {}, saved);
    FreshIsRemote(remote, limit, {}, weather, last);
    assert {} + Members(saved) == Members(saved);
  }

  lemma NothingOwnedFrom(remote: seq<int>, from: nat)
    ensures OwnedFrom(remote, from, {}) <==> |remote| <= from
  {
    var none: set<int> := {};
    if from < |remote| {
      assert remote[from] !in none;
      assert !OwnedFrom(remote, from, none);
    }
  }

  lemma {:induction false} FreshIsWanted(remote: seq<int>, limit: nat, owned: set<int>, weather: Weather, pages: nat)
    ensures forall x | x in FreshOnServed(remote, limit, owned, weather, pages) ::
              x in NotOwned(Upto(remote, limit, pages), owned)
    decreases pages
  {
    if pages == 0 {
    } else {
      FreshIsWanted(remote, limit, owned, weather, pages - 1);
      NextPageAppends(remote, limit, owned, pages);
    }
  }

  lemma FreshIsRemote(remote: seq<int>, limit: nat, owned: set<int>, weather: Weather, pages: nat)
    ensures Members(FreshOnServed(remote, limit, owned, weather, pages)) <= Members(remote)
  {
    FreshIsWanted(remote, limit, owned, weather, pages);
    NotOwnedMembers(Upto(remote, limit, pages), owned);
    forall x | x in FreshOnServed(remote, limit, owned, weather, pages) ensures x in remote {
      assert x in Upto(remote, limit, pages);
    }
  }

  lemma CoversMembers(remote: seq<int>, owned: set<int>, saved: seq<int>)
    ensures Covers(remote, owned, saved) <==> Members(remote) <= owned + Members(saved)
  {
    if Members(remote) <= owned + Members(saved) {
      forall x | x in remote ensures x in owned || x in saved {
        assert x in Members(remote);
      }
    }
    if Covers(remote, owned, saved) {
      forall x | x in Members(remote) ensures x in owned + Members(saved) {}
    }
  }

  lemma {:induction false} WantedIsDistinct(posts: seq<int>, owned: set<int>)
    requires Distinct(posts)
    ensures Distinct(NotOwned(posts, owned))
  {
    if posts == [] {
    } else {
      var init := posts[..|posts| - 1];
      WantedIsDistinct(init, owned);
      NotOwnedMembers(init, owned);
      assert posts[|posts| - 1] !in init;
    }
  }

  lemma CoveringListIsLongEnough(wanted: seq<int>, saved: seq<int>)
    requires Distinct(wanted) && forall x | x in wanted :: x in saved
    ensures |wanted| <= |saved|
  {
    DistinctCount(wanted);
    SubsetSize(Members(wanted), Members(saved));
    MembersAreFewer(saved);
  }

  lemma {:induction false} MembersAreFewer(xs: seq<int>)
    ensures |Members(xs)| <= |xs|
  {
    if xs == [] {
      assert Members(xs) == {};
    } else {
      var init := xs[..|xs| - 1];
      MembersAreFewer(init);
      assert xs == init + [xs[|xs| - 1]];
      assert Members(xs) == Members(init) + {xs[|xs| - 1]};
    }
  }

  lemma CoveredIffTailOwned(remote: seq<int>, owned: set<int>, n: nat)
    requires Distinct(remote) && n <= |remote|
    ensures Covers(remote, owned, NotOwned(remote[..n], owned)) <==> OwnedFrom(remote, n, owned)
  {
    NotOwnedMembers(remote[..n], owned);
    forall i | n <= i < |remote| ensures remote[i] !in remote[..n] {}
    if OwnedFrom(remote, n, owned) {
      forall x | x in remote ensures x in owned || x in remote[..n] {
        var i :| 0 <= i < |remote| && remote[i] == x;
        assert i < n ==> remote[..n][i] == x;
      }
    } else {
      var i :| n <= i < |remote| && remote[i] !in owned;
      assert remote[i] in remote;
    }
  }

  // The remote list is `newCount` posts, none of them owned, followed by posts all owned.
  ghost predicate SuffixOwned(remote: seq<int>, newCount: nat, owned: set<int>) {
    && newCount <= |remote|
    && (forall i | 0 <= i < newCount :: remote[i] !in owned)
    && (forall i | newCount <= i < |remote| :: remote[i] in owned)
  }

  lemma PageMeets(remote: seq<int>, limit: nat, owned: set<int>, newCount: nat, page: nat)
    requires SuffixOwned(remote, newCount, owned) && limit > 0 && page > 0
    ensures Stops(remote, limit, owned, page) <==>
            (Offset(page, limit) > newCount && newCount < |remote|) || Offset(page - 1, limit) >= |remote|
  {
    SliceMeets(remote, owned, newCount, Offset(page - 1, limit), Offset(page, limit));
  }

  lemma SliceMeets(remote: seq<int>, owned: set<int>, newCount: nat, lo: nat, hi: nat)
    requires SuffixOwned(remote, newCount, owned) && lo < hi
    ensures var posts := Slice(remote, Clip(lo, |remote|), Clip(hi, |remote|));
            (posts == [] || |NotOwned(posts, owned)| < |posts|) <==>
            (hi > newCount && newCount < |remote|) || lo >= |remote|
  {
    SliceHoldsOwned(remote, owned, newCount, Clip(lo, |remote|), Clip(hi, |remote|));
  }

  lemma SliceHoldsOwned(remote: seq<int>, owned: set<int>, newCount: nat, from: nat, to: nat)
    requires SuffixOwned(remote, newCount, owned) && from <= to <= |remote|
    ensures |NotOwned(Slice(remote, from, to), owned)| < |Slice(remote, from, to)| <==> from < to && newCount < to
  {
    var posts := Slice(remote, from, to);
    NotOwnedMembers(posts, owned);
    if from < to && newCount < to {
      var at := if newCount < from then from else newCount;
      assert posts[at - from] == remote[at] && remote[at] in owned;
    } else {
      assert forall i | 0 <= i < |posts| :: posts[i] == remote[from + i] && remote[from + i] !in owned;
    }
  }

  // From a suffix-owned local set, with every page served and at most 200 pages
  // of new posts, the walk saves exactly the new posts, once each and in order,
  // and asks for no page past the first one holding an owned post.
  lemma IncrementalIsComplete(remote: seq<int>, limit: nat, owned: set<int>, weather: Weather, newCount: nat, last: nat)
    requires limit > 0 && SuffixOwned(remote, newCount, owned) && newCount <= 200 * limit
    requires WalkedTo(remote, limit, owned, weather, last) && AllServed(weather, last)
    ensures FreshOnServed(remote, limit, owned, weather, last) == remote[..newCount]
    ensures forall x | x in remote :: x in owned || x in FreshOnServed(remote, limit, owned, weather, last)
    ensures newCount < |remote| ==> forall p | 1 <= p < last :: p * limit <= newCount
  {
    AllServedMeansFresh(remote, limit, owned, weather, last);
    forall p | 1 <= p < last && newCount < |remote| ensures p * limit <= newCount {
      PageMeets(remote, limit, owned, newCount, p);
      OffsetIsProduct(p, limit);
    }
    WalkReachesTheOwned(remote, limit, owned, weather, newCount, last);
    HeadHoldsTheNew(remote, owned, newCount, Clip(Offset(last, limit), |remote|));
  }

  lemma WalkReachesTheOwned(remote: seq<int>, limit: nat, owned: set<int>, weather: Weather, newCount: nat, last: nat)
    requires limit > 0 && SuffixOwned(remote, newCount, owned) && newCount <= 200 * limit
    requires WalkedTo(remote, limit, owned, weather, last)
    ensures newCount <= Clip(Offset(last, limit), |remote|)
  {
    if last < INCREMENTAL_MAX_PAGES {
      PageMeets(remote, limit, owned, newCount, last);
      assert Offset(last, limit) >= Offset(last - 1, limit);
    } else {
      OffsetIsProduct(last, limit);
    }
  }

  lemma HeadHoldsTheNew(remote: seq<int>, owned: set<int>, newCount: nat, n: nat)
    requires SuffixOwned(remote, newCount, owned) && newCount <= n <= |remote|
    ensures NotOwned(remote[..n], owned) == remote[..newCount]
    ensures forall x | x in remote :: x in owned || x in remote[..newCount]
  {
    var rest := Slice(remote, newCount, n);
    assert remote[..n] == remote[..newCount] + rest;
    NotOwnedConcat(remote[..newCount], rest, owned);
    NotOwnedMembers(remote[..newCount], owned);
    AllOwnedKeepsNothing(rest, owned);
    forall x | x in remote ensures x in owned || x in remote[..newCount] {
      var i :| 0 <= i < |remote| && remote[i] == x;
      assert i < newCount ==> remote[..newCount][i] == x;
    }
  }

  lemma {:induction false} AllOwnedKeepsNothing(posts: seq<int>, owned: set<int>)
    requires forall i | 0 <= i < |posts| :: posts[i] in owned
    ensures NotOwned(posts, owned) == []
  {
    if posts == [] {
    } else {
      AllOwnedKeepsNothing(posts[..|posts| - 1], owned);
    }
  }

  // An owned post among the new ones hides everything behind its page.
  lemma OwnedHoleHidesOlderPosts()
    ensures var remote, owned := [5, 4, 3, 2, 1], {5, 1};
            var weather: Weather := (p: nat) => Served;
            WalkedTo(remote, 2, owned, weather, 1)
            && FreshOnServed(remote, 2, owned, weather, 1) == [4]
            && 3 !in owned && 2 !in owned
  {
    var remote, owned := [5, 4, 3, 2, 1], {5, 1};
    var weather: Weather := (p: nat) => Served;
    AllServedMeansFresh(remote, 2, owned, weather, 1);
    assert Page(remote, 2, 1) == [5, 4];
    assert Upto(remote, 2, 1) == [5, 4];
    assert [5, 4][..1] == [5] && [5][..0] == [];
    assert NotOwned([5], owned) == [] && NotOwned([5, 4], owned) == [4];
  }

  // An isolated failed page is skipped: the run still reports success, and the
  // posts it held are missing with nothing left to fetch them.
  lemma IsolatedFailureLosesItsPage()
    ensures var remote, owned := [4, 3, 2, 1], {2, 1};
            var weather: Weather := (p: nat) => if p == 1 then RequestError else Served;
            && Survivable(weather, 2) && WalkedTo(remote, 2, owned, weather, 2)
            && FreshOnServed(remote, 2, owned, weather, 2) == []
            && SuffixOwned(remote, 2, owned)
  {
    var remote, owned := [4, 3, 2, 1], {2, 1};
    var weather: Weather := (p: nat) => if p == 1 then RequestError else Served;
    assert Page(remote, 2, 2) == [2, 1];
    AllOwnedKeepsNothing([2, 1], owned);
    assert FreshOnServed(remote, 2, owned, weather, 1) == FreshOnServed(remote, 2, owned, weather, 0);
  }

  // What a full run that dies after `k` served pages leaves is a prefix of the
  // list. The next automatic run takes it for a boundary: it resolves to
  // incremental mode, stops on page 1 and saves nothing, so whatever lies past
  // those pages is never fetched.
  lemma AbortedImportStaysPartial(remote: seq<int>, limit: nat, weather: Weather, k: nat)
    requires limit > 0 && k > 0 && Distinct(remote) && remote != [] && weather(1) == Served
    ensures var owned := Members(Upto(remote, limit, k));
            && ResolveProcessMode(Auto, |owned|, |remote|) == Incremental
            && WalkedTo(remote, limit, owned, weather, 1)
            && FreshOnServed(remote, limit, owned, weather, 1) == []
            && (owned == Members(remote) <==> k * limit >= |remote|)
  {
    var head := Upto(remote, limit, k);
    DistinctCount(head);
    OffsetIsProduct(k, limit);
    HeadIsAllIff(remote, |head|);
    OwnedHeadStopsTheWalk(remote, limit, weather, k);
  }

  lemma OwnedHeadStopsTheWalk(remote: seq<int>, limit: nat, weather: Weather, k: nat)
    requires limit > 0 && k > 0 && remote != [] && weather(1) == Served
    ensures var owned := Members(Upto(remote, limit, k));
            && owned != {} && WalkedTo(remote, limit, owned, weather, 1)
            && FreshOnServed(remote, limit, owned, weather, 1) == []
  {
    var head := Upto(remote, limit, k);
    var owned := Members(head);
    var posts := Page(remote, limit, 1);
    OffsetGrows(1, k, limit);
    assert Offset(1, limit) == limit;
    forall i | 0 <= i < |posts| ensures posts[i] in owned {
      assert posts[i] == remote[i] == head[i];
    }
    assert posts[0] in owned;
    AllOwnedKeepsNothing(posts, owned);
    ServedPageJoins(remote, limit, owned, weather, 1);
    assert Stops(remote, limit, owned, 1);
  }

  lemma HeadIsAllIff(remote: seq<int>, n: nat)
    requires Distinct(remote) && n <= |remote|
    ensures Members(remote[..n]) == Members(remote) <==> n == |remote|
  {
    if n < |remote| {
      assert remote[n] in Members(remote) && remote[n] !in remote[..n];
    } else {
      assert remote[..n] == remote;
    }
  }

  // --- the whole job -------------------------------------------------------------------

  // What a full run ends with, the old local set forgotten: whether it succeeds or
  // not, the posts of the pages served so far; all favourites exactly when no failed
  // page held a post and the pages reach the end.
  ghost predicate FullOutcome(
      remote: seq<int>, favCount: nat, limit: nat, weather: Weather, r: Result, last: nat, owned: set<int>)
    requires limit > 0
  {
    var pages := PageCount(favCount, limit);
    && owned == Members(ServedPosts(remote, limit, weather, last)) && last <= pages
    && (r.Ok? <==> Survivable(weather, pages))
    && (r.Ok? ==> last == pages)
    && (r.Err? ==> last > 0 && Survivable(weather, last - 1) && !Survivable(weather, last))
    && (Distinct(remote) ==>
          (owned == Members(remote) <==> NoPostLost(remote, limit, weather, last) && |remote| <= last * limit))
    && (Distinct(remote) && AllServed(weather, pages) ==>
          r.Ok? && (owned == Members(remote) <==> |remote| <= pages * limit))
  }

  // What an incremental run makes of the local set `before`: it only adds, and adds
  // what the walk saved, whether it succeeds or not.
  ghost predicate IncrementalOutcome(
      remote: seq<int>, limit: nat, weather: Weather, before: set<int>, r: Result, last: nat, owned: set<int>)
    requires limit > 0
  {
    && before <= owned
    && owned == before + Members(FreshOnServed(remote, limit, before, weather, last))
    && (owned <= Members(remote) <==> before <= Members(remote))
    && last <= 200 && (r.Ok? <==> Survivable(weather, last))
    && (r.Ok? ==> WalkedTo(remote, limit, before, weather, last))
    && (r.Err? ==> last > 0 && Survivable(weather, last - 1) && NoStopBefore(remote, limit, before, weather, last))
    && (Distinct(remote) ==>
          (Members(remote) <= owned <==>
           LosesNothing(remote, limit, before, weather, last) && OwnedFrom(remote, last * limit, before)))
    && (Distinct(remote) && AllServed(weather, 200) ==>
          r.Ok? && (Members(remote) <= owned <==> TailOwned(remote, limit, before)))
  }

  class Library {
    var owned: set<int>

    constructor (owned: set<int>)
      ensures this.owned == owned
    {
      this.owned := owned;
    }

    method FullRun(remote: seq<int>, favCount: nat, limit: nat, weather: Weather) returns (r: Result, last: nat)
      requires limit > 0
      modifies this
      ensures FullOutcome(remote, favCount, limit, weather, r, last, owned)
    {
      owned := {};
      var saved;
      var pages := PageCount(favCount, limit);
      r, saved, last := RunFullFetch(remote, limit, weather, pages);
      owned := Members(saved);
      if Distinct(remote) {
        FullIsCompleteIff(remote, limit, weather, last);
      }
    }

    method IncrementalRun(remote: seq<int>, limit: nat, weather: Weather) returns (r: Result, last: nat)
      requires limit > 0
      modifies this
      ensures IncrementalOutcome(remote, limit, weather, old(owned), r, last, owned)
    {
      var saved;
      r, saved, last := RunIncrementalFetch(remote, limit, owned, weather);
      CoversMembers(remote, owned, saved);
      FreshIsRemote(remote, limit, owned, weather, last);
      OffsetIsProduct(last, limit);
      if Distinct(remote) {
        CompleteIff(remote, limit, owned, weather, last);
        if AllServed(weather, 200) {
          assert Survivable(weather, last) && AllServed(weather, last);
          CompleteIffTailOwned(remote, limit, owned, weather, last);
        }
      }
      owned := owned + Members(saved);
    }

    // The mode asked for, in any weather and from any local set. Automatic mode runs
    // full on an empty local set and when the profile's `favCount` has fallen below
    // what is owned.
    method Process(requested: ProcessMode, remote: seq<int>, favCount: nat, limit: nat, weather: Weather)
        returns (mode: ProcessMode, r: Result, last: nat)
      requires limit > 0
      modifies this
      ensures mode != Auto && (requested != Auto ==> mode == requested)
      ensures requested == Auto ==> (mode == Full <==> old(owned) == {} || favCount < |old(owned)|)
      ensures mode == Full ==> FullOutcome(remote, favCount, limit, weather, r, last, owned)
      ensures mode != Full ==> IncrementalOutcome(remote, limit, weather, old(owned), r, last, owned)
    {
      mode := ResolveProcessMode(requested, |owned|, favCount);
      if mode == Full {
        r, last := FullRun(remote, favCount, limit, weather);
      } else {
        r, last := IncrementalRun(remote, limit, weather);
      }
    }
  }

  // The page count is enough exactly for lists within the cap of 500 pages, when
  // the profile counts the list.
  lemma FullRunReachesTheEnd(favCount: nat, limit: nat)
    requires limit > 0
    ensures favCount <= PageCount(favCount, limit) * limit <==> favCount <= 500 * limit
  {
    PageCountCovers(favCount, limit);
  }

  // From a suffix the local set is left complete.
  lemma SuffixMeansTailOwned(remote: seq<int>, limit: nat, owned: set<int>, newCount: nat)
    requires limit > 0 && SuffixOwned(remote, newCount, owned) && newCount <= 200 * limit
    ensures TailOwned(remote, limit, owned)
  {
    FirstOwnedPage(remote, limit, owned);
    OffsetIsProduct(FirstOwned(remote, owned) / limit + 1, limit);
  }
}
