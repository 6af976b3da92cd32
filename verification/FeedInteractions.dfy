// The interaction log and the per-tag feedback aggregate kept beside it by
// increments and decrements (parser-api/src/db/feed.rs). The tag index is fixed
// and nothing decays.
module FeedInteractions {
  import opened Sorting

  datatype EventType = QualifiedImpression | Open | Unknown

  datatype Tag = Tag(name: string, group: string)

  // UNIQUE(account_id, post_id, event_type, session_id)
  datatype Key = Key(account: int, post: int, event: EventType, session: string)

  datatype Row = Row(position: int, createdAt: real)

  datatype Counts = Counts(impressions: nat, positives: nat, negatives: nat)

  datatype Shown = Shown(first: real, last: real, count: nat)

  datatype Request = Request(account: int, post: int, event: EventType, position: int, session: string) {
    function Id(): Key {
      Key(account, post, event, session)
    }
  }

  type Log = map<Key, Row>
  type Feedback = map<(int, Tag), Counts>
  type Exposures = map<(int, int), Shown>
  type TagIndex = map<int, set<Tag>>

  datatype Db = Db(log: Log, feedback: Feedback, shown: Exposures)

  function TagsOf(tags: TagIndex, post: int): set<Tag> {
    if post in tags then tags[post] else {}
  }

  const ZERO := Counts(0, 0, 0)

  // One more event of this kind; an unknown kind counts nowhere.
  function Credit(c: Counts, e: EventType): Counts {
    match e
    case QualifiedImpression => c.(impressions := c.impressions + 1)
    case Open => c.(positives := c.positives + 1)
    case Unknown => c
  }

  // MAX(0, count - 1) in the column of this kind.
  function Debit(c: Counts, e: EventType): Counts {
    match e
    case QualifiedImpression => c.(impressions := if c.impressions > 0 then c.impressions - 1 else 0)
    case Open => c.(positives := if c.positives > 0 then c.positives - 1 else 0)
    case Unknown => c
  }

  // There is something to take away.
  predicate Covers(c: Counts, e: EventType) {
    match e
    case QualifiedImpression => c.impressions > 0
    case Open => c.positives > 0
    case Unknown => true
  }

  function Get(fb: Feedback, account: int, t: Tag): Counts {
    if (account, t) in fb then fb[(account, t)] else ZERO
  }

  // --- the statements ------------------------------------------------------------

  // INSERT .. SELECT over the post's tags .. ON CONFLICT DO UPDATE SET count = count + 1
  function Credited(fb: Feedback, account: int, post: set<Tag>, e: EventType): Feedback {
    map r | r in fb.Keys + (set t | t in post :: (account, t)) ::
      if r.0 == account && r.1 in post then Credit(Get(fb, account, r.1), e) else Get(fb, r.0, r.1)
  }

  predicate NameAmong(name: string, post: set<Tag>) {
    exists t :: t in post && t.name == name
  }

  // UPDATE .. WHERE tag_name IN (names of the post's tags): the group is not compared.
  function Debited(fb: Feedback, account: int, post: set<Tag>, e: EventType): Feedback {
    map r | r in fb :: if r.0 == account && NameAmong(r.1.name, post) then Debit(fb[r], e) else fb[r]
  }

  function Exposed(shown: Exposures, account: int, post: int, now: real): Exposures {
    var k := (account, post);
    shown[k := if k in shown then Shown(shown[k].first, now, shown[k].count + 1) else Shown(now, now, 1)]
  }

  function Record(db: Db, tags: TagIndex, req: Request, now: real): Db {
    if req.Id() in db.log then db
    else Db(db.log[req.Id() := Row(req.position, now)],
            Credited(db.feedback, req.account, TagsOf(tags, req.post), req.event),
            Exposed(db.shown, req.account, req.post, now))
  }

  function RecordAll(db: Db, tags: TagIndex, reqs: seq<Request>, now: real): Db {
    if reqs == [] then db
    else Record(RecordAll(db, tags, reqs[..|reqs| - 1], now), tags, reqs[|reqs| - 1], now)
  }

  function Undo(db: Db, tags: TagIndex, req: Request): Db {
    if req.Id() !in db.log then db
    else Db(db.log - {req.Id()},
            Debited(db.feedback, req.account, TagsOf(tags, req.post), req.event),
            db.shown - {(req.account, req.post)})
  }

  function Clear(db: Db, account: int): Db {
    Db(map k | k in db.log && k.account != account :: db.log[k],
       map r | r in db.feedback && r.0 != account :: db.feedback[r],
       map s | s in db.shown && s.0 != account :: db.shown[s])
  }

  function Prune(db: Db, cutoff: real): Db {
    db.(shown := map s | s in db.shown && db.shown[s].last >= cutoff :: db.shown[s])
  }

  // --- what each statement does to whom -----------------------------------------------

  // One new log row for the event, one credit for each tag of the post, one more
  // exposure of the post, and every other row as it was.
  ghost predicate IsRecorded(db: Db, db': Db, tags: TagIndex, req: Request, now: real) {
    var shownKey := (req.account, req.post);
    && db'.log.Keys == db.log.Keys + {req.Id()} && db'.log[req.Id()] == Row(req.position, now)
    && (forall k | k in db.log :: db'.log[k] == db.log[k])
    && (forall a, t ::
          Get(db'.feedback, a, t) ==
          if a == req.account && t in TagsOf(tags, req.post) then Credit(Get(db.feedback, a, t), req.event)
          else Get(db.feedback, a, t))
    && db'.shown.Keys == db.shown.Keys + {shownKey}
    && db'.shown[shownKey] == ExposedTimes(db.shown, shownKey, 1, now)
    && (forall s | s in db.shown && s != shownKey :: db'.shown[s] == db.shown[s])
  }

  lemma RecordIsRecorded(db: Db, tags: TagIndex, req: Request, now: real)
    requires req.Id() !in db.log
    ensures IsRecorded(db, Record(db, tags, req, now), tags, req, now)
  {
    forall a, t
      ensures Get(Record(db, tags, req, now).feedback, a, t) ==
              if a == req.account && t in TagsOf(tags, req.post) then Credit(Get(db.feedback, a, t), req.event)
              else Get(db.feedback, a, t)
    {
      CreditedCounts(db.feedback, req.account, TagsOf(tags, req.post), req.event, a, t);
    }
  }

  // The event's log row and the post's exposure are gone, one credit is taken back
  // from each row of the account named like a tag of the post, and every other row
  // is as it was.
  ghost predicate IsUndone(db: Db, db': Db, tags: TagIndex, req: Request) {
    && db'.log.Keys == db.log.Keys - {req.Id()} && (forall k | k in db'.log :: db'.log[k] == db.log[k])
    && (forall a, t ::
          Get(db'.feedback, a, t) ==
          if a == req.account && NameAmong(t.name, TagsOf(tags, req.post)) then Debit(Get(db.feedback, a, t), req.event)
          else Get(db.feedback, a, t))
    && db'.shown.Keys == db.shown.Keys - {(req.account, req.post)}
    && (forall s | s in db'.shown :: db'.shown[s] == db.shown[s])
  }

  lemma UndoIsUndone(db: Db, tags: TagIndex, req: Request)
    requires req.Id() in db.log
    ensures IsUndone(db, Undo(db, tags, req), tags, req)
  {
    forall a, t
      ensures Get(Undo(db, tags, req).feedback, a, t) ==
              if a == req.account && NameAmong(t.name, TagsOf(tags, req.post))
              then Debit(Get(db.feedback, a, t), req.event) else Get(db.feedback, a, t)
    {
      DebitedCounts(db.feedback, req.account, TagsOf(tags, req.post), req.event, a, t);
    }
  }

  // No row of the account is left in any of the three tables.
  ghost predicate NoRowsOf(db: Db, account: int) {
    && (forall k | k in db.log :: k.account != account)
    && (forall r | r in db.feedback :: r.0 != account)
    && (forall s | s in db.shown :: s.0 != account)
  }

  // Nor has any other account gained, lost or changed a row.
  ghost predicate Forgets(db: Db, db': Db, account: int) {
    && NoRowsOf(db', account)
    && (forall k: Key | k.account != account :: k in db'.log <==> k in db.log)
    && (forall r: (int, Tag) | r.0 != account :: r in db'.feedback <==> r in db.feedback)
    && (forall s: (int, int) | s.0 != account :: s in db'.shown <==> s in db.shown)
    && (forall k | k in db'.log :: db'.log[k] == db.log[k])
    && (forall r | r in db'.feedback :: db'.feedback[r] == db.feedback[r])
    && (forall s | s in db'.shown :: db'.shown[s] == db.shown[s])
  }

  function EventsOf(log: Log, account: int): set<Key> {
    set k | k in log && k.account == account
  }

  lemma ClearForgets(db: Db, account: int)
    ensures Forgets(db, Clear(db, account), account)
    ensures |Clear(db, account).log| == |db.log| - |EventsOf(db.log, account)|
  {
    assert Clear(db, account).log.Keys == db.log.Keys - EventsOf(db.log, account);
    assert |db.log.Keys - EventsOf(db.log, account)| == |db.log.Keys| - |EventsOf(db.log, account)|;
  }

  // What was last shown before the cutoff is gone, the rest untouched.
  ghost predicate IsPruned(db: Db, db': Db, cutoff: real) {
    && db'.log == db.log && db'.feedback == db.feedback
    && (forall s :: s in db'.shown <==> s in db.shown && db.shown[s].last >= cutoff)
    && (forall s | s in db'.shown :: db'.shown[s] == db.shown[s])
  }

  // --- the recomputation ---------------------------------------------------------------

  ghost function Matching(keys: set<Key>, tags: TagIndex, account: int, t: Tag, e: EventType): set<Key> {
    set k | k in keys && k.account == account && k.event == e && t in TagsOf(tags, k.post)
  }

  // SUM(CASE WHEN event_type = .. THEN 1 ELSE 0 END) .. GROUP BY account, tag
  ghost function Recount(keys: set<Key>, tags: TagIndex, account: int, t: Tag): Counts {
    Counts(|Matching(keys, tags, account, t, QualifiedImpression)|, |Matching(keys, tags, account, t, Open)|, 0)
  }

  ghost function Rebuilt(db: Db, tags: TagIndex, account: int): Feedback {
    map r | r in db.feedback.Keys + (set k, t | k in db.log && t in TagsOf(tags, k.post) :: (k.account, t))
            && (r.0 == account ==> exists k :: k in db.log && k.account == account && r.1 in TagsOf(tags, k.post))
            && (r.0 != account ==> r in db.feedback)
      :: if r.0 == account then Recount(db.log.Keys, tags, account, r.1) else db.feedback[r]
  }

  // The aggregate says what the recomputation would, up to all-zero rows.
  ghost predicate Agrees(db: Db, tags: TagIndex) {
    forall a, t :: Get(db.feedback, a, t) == Recount(db.log.Keys, tags, a, t)
  }

  ghost predicate InCatalog(tags: TagIndex, t: Tag) {
    exists p :: p in tags && t in tags[p]
  }

  // e621 keeps a tag name in exactly one group.
  ghost predicate OneGroupPerName(tags: TagIndex) {
    forall s, t :: InCatalog(tags, s) && InCatalog(tags, t) && s.name == t.name ==> s == t
  }

  // No post carries the name of a tag it does not carry: two groups of one name
  // always come together.
  ghost predicate NamesComeTogether(tags: TagIndex) {
    forall p, t :: InCatalog(tags, t) && t !in TagsOf(tags, p) ==> !NameAmong(t.name, TagsOf(tags, p))
  }

  lemma OneGroupNamesComeTogether(tags: TagIndex)
    requires OneGroupPerName(tags)
    ensures NamesComeTogether(tags)
  {
    forall p, t | InCatalog(tags, t) && NameAmong(t.name, TagsOf(tags, p)) ensures t in TagsOf(tags, p) {
      PostTagsAreInCatalog(tags, p);
      var own :| own in TagsOf(tags, p) && own.name == t.name;
      assert InCatalog(tags, own);
    }
  }

  ghost predicate RowsFromCatalog(db: Db, tags: TagIndex) {
    forall r | r in db.feedback :: InCatalog(tags, r.1)
  }

  lemma PostTagsAreInCatalog(tags: TagIndex, post: int)
    ensures forall t | t in TagsOf(tags, post) :: InCatalog(tags, t)
  {
  }

  lemma RecountWithKey(keys: set<Key>, tags: TagIndex, k: Key, account: int, t: Tag)
    requires k !in keys
    ensures Recount(keys + {k}, tags, account, t) ==
            if k.account == account && t in TagsOf(tags, k.post)
            then Credit(Recount(keys, tags, account, t), k.event) else Recount(keys, tags, account, t)
  {
    var hit := k.account == account && t in TagsOf(tags, k.post);
    var imp, open := Matching(keys, tags, account, t, QualifiedImpression), Matching(keys, tags, account, t, Open);
    assert Matching(keys + {k}, tags, account, t, QualifiedImpression)
        == if hit && k.event == QualifiedImpression then imp + {k} else imp;
    assert Matching(keys + {k}, tags, account, t, Open) == if hit && k.event == Open then open + {k} else open;
  }

  lemma CreditedCounts(fb: Feedback, account: int, post: set<Tag>, e: EventType, a: int, t: Tag)
    ensures Get(Credited(fb, account, post, e), a, t) ==
            if a == account && t in post then Credit(Get(fb, a, t), e) else Get(fb, a, t)
  {
  }

  lemma DebitedCounts(fb: Feedback, account: int, post: set<Tag>, e: EventType, a: int, t: Tag)
    ensures Get(Debited(fb, account, post, e), a, t) ==
            if a == account && NameAmong(t.name, post) then Debit(Get(fb, a, t), e) else Get(fb, a, t)
  {
  }

  lemma RecordAgrees(db: Db, tags: TagIndex, req: Request, now: real)
    requires Agrees(db, tags) && RowsFromCatalog(db, tags)
    ensures Agrees(Record(db, tags, req, now), tags) && RowsFromCatalog(Record(db, tags, req, now), tags)
  {
    if req.Id() !in db.log {
      var db' := Record(db, tags, req, now);
      assert db'.log.Keys == db.log.Keys + {req.Id()};
      forall a, t ensures Get(db'.feedback, a, t) == Recount(db'.log.Keys, tags, a, t) {
        RecountWithKey(db.log.Keys, tags, req.Id(), a, t);
        CreditedCounts(db.feedback, req.account, TagsOf(tags, req.post), req.event, a, t);
        assert Get(db.feedback, a, t) == Recount(db.log.Keys, tags, a, t);
      }
      PostTagsAreInCatalog(tags, req.post);
    }
  }

  lemma {:induction false} RecordAllAgrees(db: Db, tags: TagIndex, reqs: seq<Request>, now: real)
    requires Agrees(db, tags) && RowsFromCatalog(db, tags)
    ensures Agrees(RecordAll(db, tags, reqs, now), tags) && RowsFromCatalog(RecordAll(db, tags, reqs, now), tags)
  {
    if reqs == [] {
    } else {
      RecordAllAgrees(db, tags, reqs[..|reqs| - 1], now);
      RecordAgrees(RecordAll(db, tags, reqs[..|reqs| - 1], now), tags, reqs[|reqs| - 1], now);
    }
  }

  // A logged event's own tags hold at least what undoing it takes away, so the
  // clamp at zero never fires for them.
  lemma ClampNeverFires(db: Db, tags: TagIndex, req: Request, t: Tag)
    requires Agrees(db, tags) && req.Id() in db.log && t in TagsOf(tags, req.post)
    ensures Covers(Get(db.feedback, req.account, t), req.event)
    ensures Credit(Debit(Get(db.feedback, req.account, t), req.event), req.event) == Get(db.feedback, req.account, t)
  {
    var others := db.log.Keys - {req.Id()};
    PutBack(db.log.Keys, req.Id());
    RecountWithKey(others, tags, req.Id(), req.account, t);
    CreditIsThere(Recount(others, tags, req.account, t), req.event);
    assert Get(db.feedback, req.account, t) == Recount(db.log.Keys, tags, req.account, t);
  }

  lemma CreditIsThere(rest: Counts, e: EventType)
    ensures Covers(Credit(rest, e), e) && Debit(Credit(rest, e), e) == rest
  {
  }

  lemma PutBack<K>(keys: set<K>, k: K)
    requires k in keys
    ensures keys - {k} + {k} == keys
  {
  }

  // Undoing the event would touch a row of a tag the post does not carry: same
  // name, other group, and something left to subtract.
  ghost predicate HitsForeignRow(db: Db, tags: TagIndex, req: Request) {
    exists t ::
      && t !in TagsOf(tags, req.post) && NameAmong(t.name, TagsOf(tags, req.post))
      && Debit(Get(db.feedback, req.account, t), req.event) != Get(db.feedback, req.account, t)
  }

  // Undo keeps the aggregate in step exactly when its name-only match reaches no
  // such row.
  lemma UndoAgreesIff(db: Db, tags: TagIndex, req: Request)
    requires Agrees(db, tags) && req.Id() in db.log
    ensures Agrees(Undo(db, tags, req), tags) <==> !HitsForeignRow(db, tags, req)
  {
    var db' := Undo(db, tags, req);
    if Agrees(db', tags) {
      forall t | t !in TagsOf(tags, req.post) && NameAmong(t.name, TagsOf(tags, req.post))
        ensures Debit(Get(db.feedback, req.account, t), req.event) == Get(db.feedback, req.account, t)
      {
        UndoCounts(db, tags, req, req.account, t);
        assert Get(db'.feedback, req.account, t) == Recount(db'.log.Keys, tags, req.account, t);
      }
    }
    if !HitsForeignRow(db, tags, req) {
      forall a, t ensures Get(db'.feedback, a, t) == Recount(db'.log.Keys, tags, a, t) {
        UndoCounts(db, tags, req, a, t);
      }
    }
  }

  // One tag's aggregate and recount after an undo.
  lemma UndoCounts(db: Db, tags: TagIndex, req: Request, a: int, t: Tag)
    requires Agrees(db, tags) && req.Id() in db.log
    ensures var db' := Undo(db, tags, req);
            var post := TagsOf(tags, req.post);
            Get(db'.feedback, a, t) == Recount(db'.log.Keys, tags, a, t) <==>
            (a == req.account && t !in post && NameAmong(t.name, post) ==>
               Debit(Get(db.feedback, a, t), req.event) == Get(db.feedback, a, t))
  {
    var keys := db.log.Keys - {req.Id()};
    var post := TagsOf(tags, req.post);
    assert Undo(db, tags, req).log.Keys == keys && keys + {req.Id()} == db.log.Keys;
    assert Get(db.feedback, a, t) == Recount(db.log.Keys, tags, a, t);
    DebitedCounts(db.feedback, req.account, post, req.event, a, t);
    RecountWithKey(keys, tags, req.Id(), a, t);
    var hit, named := a == req.account && t in post, a == req.account && NameAmong(t.name, post);
    assert hit ==> named;
    DebitedColumn(Get(db.feedback, a, t), Recount(keys, tags, a, t), req.event, hit, named);
  }

  // A debit lands on the remaining count unless it hits a row that never had the credit.
  lemma DebitedColumn(c: Counts, rest: Counts, e: EventType, hit: bool, named: bool)
    requires c == (if hit then Credit(rest, e) else rest) && (hit ==> named)
    ensures (if named then Debit(c, e) else c) == rest <==> (named && !hit ==> Debit(c, e) == c)
  {
  }

  lemma UndoAgrees(db: Db, tags: TagIndex, req: Request)
    requires Agrees(db, tags) && RowsFromCatalog(db, tags) && NamesComeTogether(tags)
    ensures Agrees(Undo(db, tags, req), tags) && RowsFromCatalog(Undo(db, tags, req), tags)
  {
    if req.Id() in db.log {
      forall t | t !in TagsOf(tags, req.post) && NameAmong(t.name, TagsOf(tags, req.post))
        ensures Get(db.feedback, req.account, t) == ZERO
      {
        SameNameHasNoRow(db, tags, req.post, req.account, t);
      }
      UndoAgreesIff(db, tags, req);
    }
  }

  // Undoing a fresh record gives back the log and every count. The exposure row
  // comes back only if the post had none before: undo drops the whole row.
  lemma UndoInvertsRecord(db: Db, tags: TagIndex, req: Request, now: real)
    requires RowsFromCatalog(db, tags) && NamesComeTogether(tags) && req.Id() !in db.log
    ensures var after := Undo(Record(db, tags, req, now), tags, req);
            && after.log == db.log
            && (forall a, t :: Get(after.feedback, a, t) == Get(db.feedback, a, t))
            && (after.shown == db.shown <==> (req.account, req.post) !in db.shown)
  {
    var post := TagsOf(tags, req.post);
    var recorded := Record(db, tags, req, now);
    forall a, t ensures Get(Undo(recorded, tags, req).feedback, a, t) == Get(db.feedback, a, t) {
      CreditedCounts(db.feedback, req.account, post, req.event, a, t);
      DebitedCounts(recorded.feedback, req.account, post, req.event, a, t);
      CreditIsThere(Get(db.feedback, a, t), req.event);
      SameNameHasNoRow(db, tags, req.post, a, t);
    }
  }

  // A tag the post does not carry, but whose name it does, has no row at all.
  lemma SameNameHasNoRow(db: Db, tags: TagIndex, post: int, account: int, t: Tag)
    requires RowsFromCatalog(db, tags) && NamesComeTogether(tags)
    ensures t !in TagsOf(tags, post) && NameAmong(t.name, TagsOf(tags, post)) ==> (account, t) !in db.feedback
  {
    assert (account, t) in db.feedback ==> InCatalog(tags, (account, t).1);
  }

  // Two posts that share a tag name across groups, not both tags on the first, are
  // enough to break the undo, from any state that agrees.
  lemma SharedNameBreaksUndo(db: Db, tags: TagIndex, one: Request, two: Request, own: Tag, other: Tag, now: real)
    requires Agrees(db, tags) && RowsFromCatalog(db, tags)
    requires one.Id() !in db.log && two.Id() !in db.log
    requires one.account == two.account && one.event == two.event != Unknown
    requires own in TagsOf(tags, one.post) && other in TagsOf(tags, two.post)
    requires own.name == other.name && other !in TagsOf(tags, one.post)
    ensures var both := Record(Record(db, tags, one, now), tags, two, now);
            Agrees(both, tags) && !Agrees(Undo(both, tags, one), tags)
  {
    var first := Record(db, tags, one, now);
    RecordAgrees(db, tags, one, now);
    RecordAgrees(first, tags, two, now);
    RecordCredits(first, tags, two, other, now);
    ForeignCreditBreaksUndo(Record(first, tags, two, now), tags, one, own, other);
  }

  lemma RecordCredits(db: Db, tags: TagIndex, req: Request, t: Tag, now: real)
    requires req.Id() !in db.log && t in TagsOf(tags, req.post)
    ensures Covers(Get(Record(db, tags, req, now).feedback, req.account, t), req.event)
  {
    CreditedCounts(db.feedback, req.account, TagsOf(tags, req.post), req.event, req.account, t);
  }

  lemma ForeignCreditBreaksUndo(db: Db, tags: TagIndex, req: Request, own: Tag, other: Tag)
    requires Agrees(db, tags) && req.Id() in db.log && req.event != Unknown
    requires Covers(Get(db.feedback, req.account, other), req.event)
    requires own in TagsOf(tags, req.post) && other !in TagsOf(tags, req.post) && own.name == other.name
    ensures !Agrees(Undo(db, tags, req), tags)
  {
    DebitShows(Get(db.feedback, req.account, other), req.event);
    assert NameAmong(other.name, TagsOf(tags, req.post));
    UndoAgreesIff(db, tags, req);
  }

  lemma DebitShows(c: Counts, e: EventType)
    requires e != Unknown && Covers(c, e)
    ensures Debit(c, e) != c
  {
  }

  lemma EmptyAgrees(tags: TagIndex)
    ensures Agrees(Db(map[], map[], map[]), tags) && RowsFromCatalog(Db(map[], map[], map[]), tags)
  {
    forall a, t, e ensures Matching({}, tags, a, t, e) == {} {
    }
  }

  lemma ClearAgrees(db: Db, tags: TagIndex, account: int)
    requires Agrees(db, tags) && RowsFromCatalog(db, tags)
    ensures Agrees(Clear(db, account), tags) && RowsFromCatalog(Clear(db, account), tags)
  {
    var db' := Clear(db, account);
    forall a, t ensures Get(db'.feedback, a, t) == Recount(db'.log.Keys, tags, a, t) {
      forall e: EventType
        ensures Matching(db'.log.Keys, tags, a, t, e) ==
                  if a == account then {} else Matching(db.log.Keys, tags, a, t, e)
      {
      }
      assert Get(db.feedback, a, t) == Recount(db.log.Keys, tags, a, t);
    }
  }

  // Whatever the account's aggregate held, rebuilding it restores agreement.
  lemma RebuildAgrees(db: Db, tags: TagIndex, account: int)
    requires forall a, t | a != account :: Get(db.feedback, a, t) == Recount(db.log.Keys, tags, a, t)
    requires RowsFromCatalog(db, tags)
    ensures Agrees(db.(feedback := Rebuilt(db, tags, account)), tags)
    ensures RowsFromCatalog(db.(feedback := Rebuilt(db, tags, account)), tags)
  {
    var fb := Rebuilt(db, tags, account);
    forall t ensures Get(fb, account, t) == Recount(db.log.Keys, tags, account, t) {
      forall k | k in db.log && k.account == account && t in TagsOf(tags, k.post) ensures (account, t) in fb {
        assert (k.account, t) in fb;
      }
      if (account, t) !in fb {
        forall e: EventType ensures Matching(db.log.Keys, tags, account, t, e) == {} {
        }
      }
    }
    forall r | r in fb ensures InCatalog(tags, r.1) {
      if r.0 == account {
        var k :| k in db.log && k.account == account && r.1 in TagsOf(tags, k.post);
        PostTagsAreInCatalog(tags, k.post);
      }
    }
  }

  const INTERACTION_RESTORE_SESSION: string := "import-restore"

  // Replay an export under the fixed session: INSERT OR IGNORE into the log alone.
  function ReplayedLog(log: Log, account: int, items: seq<(int, EventType, Row)>): Log {
    if items == [] then log
    else
      var init := ReplayedLog(log, account, items[..|items| - 1]);
      var (post, event, row) := items[|items| - 1];
      var k := Key(account, post, event, INTERACTION_RESTORE_SESSION);
      if k in init then init else init[k := row]
  }

  // A restore replays the export and then rebuilds the account's aggregate.
  ghost function Restored(db: Db, tags: TagIndex, account: int, items: seq<(int, EventType, Row)>): Db {
    var replayed := db.(log := ReplayedLog(db.log, account, items));
    if items == [] then db else replayed.(feedback := Rebuilt(replayed, tags, account))
  }

  lemma {:induction false} ReplayTouchesOneAccount(log: Log, account: int, items: seq<(int, EventType, Row)>)
    ensures log.Keys <= ReplayedLog(log, account, items).Keys
    ensures forall k | k in ReplayedLog(log, account, items) && k !in log :: k.account == account
    ensures forall k | k in log :: ReplayedLog(log, account, items)[k] == log[k]
  {
    if items == [] {
    } else {
      ReplayTouchesOneAccount(log, account, items[..|items| - 1]);
    }
  }

  lemma RestoreAgrees(db: Db, tags: TagIndex, account: int, items: seq<(int, EventType, Row)>)
    requires Agrees(db, tags) && RowsFromCatalog(db, tags)
    ensures Agrees(Restored(db, tags, account, items), tags)
           && RowsFromCatalog(Restored(db, tags, account, items), tags)
  {
    if items != [] {
      var replayed := db.(log := ReplayedLog(db.log, account, items));
      ReplayTouchesOneAccount(db.log, account, items);
      forall a, t | a != account ensures Get(replayed.feedback, a, t) == Recount(replayed.log.Keys, tags, a, t) {
        forall e: EventType ensures Matching(replayed.log.Keys, tags, a, t, e) == Matching(db.log.Keys, tags, a, t, e) {
        }
        assert Get(db.feedback, a, t) == Recount(db.log.Keys, tags, a, t);
      }
      RebuildAgrees(replayed, tags, account);
    }
  }

  // --- any sequence of operations --------------------------------------------------------

  datatype Step =
    | DoRecord(req: Request, now: real)
    | DoBatch(reqs: seq<Request>, now: real)
    | DoUndo(req: Request)
    | DoClear(account: int)
    | DoPrune(cutoff: real)
    | DoRestore(account: int, items: seq<(int, EventType, Row)>)

  ghost function Next(db: Db, tags: TagIndex, s: Step): Db {
    match s
    case DoRecord(req, now) => Record(db, tags, req, now)
    case DoBatch(reqs, now) => RecordAll(db, tags, reqs, now)
    case DoUndo(req) => Undo(db, tags, req)
    case DoClear(account) => Clear(db, account)
    case DoPrune(cutoff) => Prune(db, cutoff)
    case DoRestore(account, items) => Restored(db, tags, account, items)
  }

  ghost function Run(db: Db, tags: TagIndex, steps: seq<Step>): Db {
    if steps == [] then db else Next(Run(db, tags, steps[..|steps| - 1]), tags, steps[|steps| - 1])
  }

  const EMPTY: Db := Db(map[], map[], map[])

  lemma {:induction false} RunAgrees(tags: TagIndex, steps: seq<Step>)
    requires NamesComeTogether(tags)
    ensures var db := Run(Db(map[], map[], map[]), tags, steps);
            Agrees(db, tags) && RowsFromCatalog(db, tags)
  {
    if steps == [] {
      EmptyAgrees(tags);
    } else {
      var init, last := steps[..|steps| - 1], steps[|steps| - 1];
      RunAgrees(tags, init);
      var db := Run(Db(map[], map[], map[]), tags, init);
      match last
      case DoRecord(req, now) => RecordAgrees(db, tags, req, now);
      case DoBatch(reqs, now) => RecordAllAgrees(db, tags, reqs, now);
      case DoUndo(req) => UndoAgrees(db, tags, req);
      case DoClear(account) => ClearAgrees(db, tags, account);
      case DoPrune(cutoff) =>
        assert forall a, t :: Get(db.feedback, a, t) == Recount(db.log.Keys, tags, a, t);
      case DoRestore(account, items) => RestoreAgrees(db, tags, account, items);
    }
  }

  // An open of each of two posts, and the undo of the first.
  function SharedNameRun(one: int, two: int): seq<Step> {
    [DoRecord(Request(0, one, Open, 0, ""), 0.0), DoRecord(Request(0, two, Open, 0, ""), 0.0),
     DoUndo(Request(0, one, Open, 0, ""))]
  }

  lemma SharedNameRunDisagrees(tags: TagIndex, one: int, two: int, own: Tag, other: Tag)
    requires own in TagsOf(tags, one) && other in TagsOf(tags, two)
    requires own.name == other.name && other !in TagsOf(tags, one)
    ensures !Agrees(Run(EMPTY, tags, SharedNameRun(one, two)), tags)
  {
    var first, second := Request(0, one, Open, 0, ""), Request(0, two, Open, 0, "");
    EmptyAgrees(tags);
    SharedNameBreaksUndo(EMPTY, tags, first, second, own, other, 0.0);
    var one', two', undo := DoRecord(first, 0.0), DoRecord(second, 0.0), DoUndo(first);
    RunAppends(tags, [], one');
    RunAppends(tags, [one'], two');
    RunAppends(tags, [one', two'], undo);
    assert [] + [one'] == [one'] && [one'] + [two'] == [one', two'];
    assert [one', two'] + [undo] == SharedNameRun(one, two);
  }

  lemma RunAppends(tags: TagIndex, steps: seq<Step>, s: Step)
    ensures Run(EMPTY, tags, steps + [s]) == Next(Run(EMPTY, tags, steps), tags, s)
  {
    assert (steps + [s])[..|steps|] == steps;
  }

  // After every sequence of records, batches, undos, clears, prunes and restores the
  // aggregate is what a rebuild would compute, if and only if no post carries the
  // name of a catalogued tag without the tag.
  lemma EveryRunAgrees(tags: TagIndex)
    ensures NamesComeTogether(tags) <==> forall steps :: Agrees(Run(EMPTY, tags, steps), tags)
  {
    if NamesComeTogether(tags) {
      forall steps ensures Agrees(Run(EMPTY, tags, steps), tags) {
        RunAgrees(tags, steps);
      }
    } else {
      var p, t :| InCatalog(tags, t) && t !in TagsOf(tags, p) && NameAmong(t.name, TagsOf(tags, p));
      var own :| own in TagsOf(tags, p) && own.name == t.name;
      var q :| q in tags && t in tags[q];
      SharedNameRunDisagrees(tags, p, q, own, t);
    }
  }

  // --- retried and reordered batches ------------------------------------------------------

  ghost function Ids(reqs: seq<Request>): set<Key> {
    set r | r in reqs :: r.Id()
  }

  lemma {:induction false} BatchKeys(db: Db, tags: TagIndex, reqs: seq<Request>, now: real)
    ensures RecordAll(db, tags, reqs, now).log.Keys == db.log.Keys + Ids(reqs)
  {
    if reqs == [] {
      assert Ids(reqs) == {};
    } else {
      var init, last := reqs[..|reqs| - 1], reqs[|reqs| - 1];
      BatchKeys(db, tags, init, now);
      assert reqs == init + [last];
      assert Ids(reqs) == Ids(init) + {last.Id()};
    }
  }

  // Sending the same events again, in any order and any grouping, changes
  // neither which events are logged nor any count.
  lemma RetriesAndReorderingsAgree(
      db: Db, tags: TagIndex, reqs: seq<Request>, now: real, reqs': seq<Request>, now': real)
    requires Agrees(db, tags) && RowsFromCatalog(db, tags) && Ids(reqs) == Ids(reqs')
    ensures var one, two := RecordAll(db, tags, reqs, now), RecordAll(db, tags, reqs', now');
            && one.log.Keys == two.log.Keys
            && (forall a, t :: Get(one.feedback, a, t) == Get(two.feedback, a, t))
            && RecordAll(one, tags, reqs', now') == one
  {
    BatchKeys(db, tags, reqs, now);
    BatchKeys(db, tags, reqs', now');
    RecordAllAgrees(db, tags, reqs, now);
    RecordAllAgrees(db, tags, reqs', now');
    var one, two := RecordAll(db, tags, reqs, now), RecordAll(db, tags, reqs', now');
    forall a, t ensures Get(one.feedback, a, t) == Get(two.feedback, a, t) {
      assert Get(one.feedback, a, t) == Recount(one.log.Keys, tags, a, t);
      assert Get(two.feedback, a, t) == Recount(two.log.Keys, tags, a, t);
    }
    NothingNewChangesNothing(one, tags, reqs', now');
  }

  lemma {:induction false} NothingNewChangesNothing(db: Db, tags: TagIndex, reqs: seq<Request>, now: real)
    requires Ids(reqs) <= db.log.Keys
    ensures RecordAll(db, tags, reqs, now) == db
  {
    if reqs == [] {
    } else {
      var init, last := reqs[..|reqs| - 1], reqs[|reqs| - 1];
      assert reqs == init + [last];
      assert last in reqs && last.Id() in Ids(reqs);
      assert Ids(init) <= Ids(reqs) by {
        forall r | r in init ensures r.Id() in Ids(reqs) {
          assert r in reqs;
        }
      }
      NothingNewChangesNothing(db, tags, init, now);
    }
  }

  // --- a batch, taken apart ---------------------------------------------------------------

  // (account, post) of every row a batch actually inserts, in order.
  function NewEvents(log: Log, reqs: seq<Request>): seq<(int, int)> {
    if reqs == [] then []
    else
      var init, last := reqs[..|reqs| - 1], reqs[|reqs| - 1];
      NewEvents(log, init) + if last.Id() in log || AlreadySent(last, init) then [] else [(last.account, last.post)]
  }

  predicate AlreadySent(req: Request, reqs: seq<Request>) {
    exists r :: r in reqs && r.Id() == req.Id()
  }

  ghost function ExposeAll(shown: Exposures, events: seq<(int, int)>, now: real): Exposures {
    if events == [] then shown
    else Exposed(ExposeAll(shown, events[..|events| - 1], now), events[|events| - 1].0, events[|events| - 1].1, now)
  }

  lemma ExposeAppends(shown: Exposures, events: seq<(int, int)>, account: int, post: int, now: real)
    ensures ExposeAll(shown, events + [(account, post)], now) ==
            Exposed(ExposeAll(shown, events, now), account, post, now)
  {
    assert (events + [(account, post)])[..|events|] == events;
  }

  lemma NewEventsStep(log: Log, init: seq<Request>, last: Request)
    ensures NewEvents(log, init + [last]) ==
            NewEvents(log, init)
            + if last.Id() in log || AlreadySent(last, init) then [] else [(last.account, last.post)]
  {
    assert (init + [last])[..|init|] == init;
  }

  lemma RecordAllStep(db: Db, tags: TagIndex, init: seq<Request>, last: Request, now: real)
    ensures RecordAll(db, tags, init + [last], now) == Record(RecordAll(db, tags, init, now), tags, last, now)
  {
    assert (init + [last])[..|init|] == init;
  }

  lemma RecordSize(db: Db, tags: TagIndex, req: Request, now: real)
    ensures |Record(db, tags, req, now).log| == |db.log| + if req.Id() in db.log then 0 else 1
  {
    NewRowSize(db.log, req.Id(), Row(req.position, now));
  }

  lemma NewRowSize(log: Log, k: Key, row: Row)
    ensures |log[k := row]| == |log| + if k in log then 0 else 1
  {
    assert log[k := row].Keys == log.Keys + {k};
  }

  // Recording one at a time exposes the new events one at a time.
  lemma {:induction false} RecordsExposeNewEvents(db: Db, tags: TagIndex, reqs: seq<Request>, now: real)
    ensures RecordAll(db, tags, reqs, now).shown == ExposeAll(db.shown, NewEvents(db.log, reqs), now)
    ensures |RecordAll(db, tags, reqs, now).log| == |db.log| + |NewEvents(db.log, reqs)|
  {
    if reqs == [] {
    } else {
      var init, last := reqs[..|reqs| - 1], reqs[|reqs| - 1];
      assert reqs == init + [last];
      RecordsExposeNewEvents(db, tags, init, now);
      InsertedIffNew(db, tags, init, now, last);
      NewEventsStep(db.log, init, last);
      RecordAllStep(db, tags, init, last, now);
      RecordSize(RecordAll(db, tags, init, now), tags, last, now);
      ExposeAppends(db.shown, NewEvents(db.log, init), last.account, last.post, now);
      assert NewEvents(db.log, init) + [] == NewEvents(db.log, init);
    }
  }

  lemma InsertedIffNew(db: Db, tags: TagIndex, init: seq<Request>, now: real, last: Request)
    ensures last.Id() in RecordAll(db, tags, init, now).log <==> last.Id() in db.log || AlreadySent(last, init)
  {
    BatchKeys(db, tags, init, now);
    assert last.Id() in Ids(init) <==> AlreadySent(last, init);
  }

  // An exposure row after `n` upserts at `now`.
  function ExposedTimes(shown: Exposures, k: (int, int), n: nat, now: real): Shown
    requires k in shown || n > 0
  {
    if n == 0 then shown[k]
    else if k in shown then Shown(shown[k].first, now, shown[k].count + n)
    else Shown(now, now, n)
  }

  lemma {:induction false} ExposuresByCount(shown: Exposures, events: seq<(int, int)>, now: real, k: (int, int))
    ensures var n := multiset(events)[k];
            && (k in ExposeAll(shown, events, now) <==> k in shown || n > 0)
            && (k in shown || n > 0 ==> ExposeAll(shown, events, now)[k] == ExposedTimes(shown, k, n, now))
  {
    if events == [] {
    } else {
      var init, last := events[..|events| - 1], events[|events| - 1];
      assert events == init + [last];
      ExposuresByCount(shown, init, now, k);
      assert last == (last.0, last.1);
    }
  }

  // Upserting the same events in another order leaves the same rows.
  lemma ExposureOrderIsIrrelevant(shown: Exposures, events: seq<(int, int)>, events': seq<(int, int)>, now: real)
    requires multiset(events) == multiset(events')
    ensures ExposeAll(shown, events, now) == ExposeAll(shown, events', now)
  {
    var one, two := ExposeAll(shown, events, now), ExposeAll(shown, events', now);
    forall k ensures k in one <==> k in two {
      ExposuresByCount(shown, events, now, k);
      ExposuresByCount(shown, events', now, k);
    }
    forall k | k in one ensures one[k] == two[k] {
      ExposuresByCount(shown, events, now, k);
      ExposuresByCount(shown, events', now, k);
    }
  }
}
