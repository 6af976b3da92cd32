// Originals stored on disk, their index rows and the LRU byte budget
// (parser-api/src/media_store.rs over parser-api/src/db/media.rs).
module MediaStore {
  import opened Sorting
  import opened Totals
  import opened Eviction

  // --- paths ---------------------------------------------------------------------

  function Digit(d: nat): char
    requires d < 10
  {
    ('0' as int + d) as char
  }

  function Decimal(n: nat): (s: string)
    ensures s != ""
    ensures forall c | c in s :: '0' <= c <= '9'
  {
    if n < 10 then [Digit(n)] else Decimal(n / 10) + [Digit(n % 10)]
  }

  function Signed(i: int): string {
    if i < 0 then "-" + Decimal(-i) else Decimal(i)
  }

  function ParseNat(s: string): int {
    if s == "" then 0 else ParseNat(s[..|s| - 1]) * 10 + (s[|s| - 1] as int - '0' as int)
  }

  lemma {:induction false} DecimalIsInjective(n: nat)
    ensures ParseNat(Decimal(n)) == n
  {
    if n < 10 {
      assert [Digit(n)][..0] == "";
    } else {
      DecimalIsInjective(n / 10);
      assert Decimal(n)[..|Decimal(n)| - 1] == Decimal(n / 10);
    }
  }

  lemma SignedIsInjective(a: int, b: int)
    requires Signed(a) == Signed(b)
    ensures a == b
  {
    DecimalIsInjective(if a < 0 then -a else a);
    DecimalIsInjective(if b < 0 then -b else b);
    if a < 0 {
      assert Signed(a)[0] == '-' && Signed(a)[1..] == Decimal(-a);
    }
    if b < 0 {
      assert Signed(b)[0] == '-' && Signed(b)[1..] == Decimal(-b);
    }
    assert a >= 0 ==> Signed(a)[0] in Decimal(a);
    assert b >= 0 ==> Signed(b)[0] in Decimal(b);
  }

  // The remainder as Rust takes it: with the sign of the dividend.
  function Remainder(i: int, d: int): int
    requires d > 0
  {
    if i < 0 then -((-i) % d) else i % d
  }

  function Shard(post: int): string {
    var r := Remainder(post, 100);
    if 0 <= r < 10 then "0" + Signed(r) else Signed(r)
  }

  predicate IsExtChar(c: char) {
    'a' <= c <= 'z' || 'A' <= c <= 'Z' || '0' <= c <= '9' || c == '_'
  }

  function KeepExtChars(ext: string): string {
    if ext == "" then ""
    else (if IsExtChar(ext[0]) then [ext[0]] else "") + KeepExtChars(ext[1..])
  }

  function RelExt(ext: string): string {
    var cleaned := KeepExtChars(ext);
    var short := if |cleaned| > 12 then cleaned[..12] else cleaned;
    if short == "" then "bin" else short
  }

  function RelPathFor(post: int, ext: string): string {
    Shard(post) + "/" + Signed(post) + "." + RelExt(ext)
  }

  // final.with_extension("<ext>.tmp"): the file name has one dot, so this appends.
  function TempPathFor(post: int, ext: string): string {
    RelPathFor(post, ext) + ".tmp"
  }

  lemma {:induction false} KeptAreExtChars(ext: string)
    ensures forall c | c in KeepExtChars(ext) :: IsExtChar(c)
  {
    if ext == "" {
    } else {
      KeptAreExtChars(ext[1..]);
    }
  }

  // No separator, no dot, never empty, at most twelve characters.
  lemma RelExtIsBareToken(ext: string)
    ensures 1 <= |RelExt(ext)| <= 12
    ensures forall c | c in RelExt(ext) :: 'a' <= c <= 'z' || 'A' <= c <= 'Z' || '0' <= c <= '9' || c == '_'
  {
    KeptAreExtChars(ext);
    forall c | c in RelExt(ext) ensures IsExtChar(c) {
      assert c in "bin" || c in KeepExtChars(ext);
    }
  }

  lemma {:induction false} KeptCharsCome(ext: string)
    ensures KeepExtChars(ext) == "" <==> forall c | c in ext :: !IsExtChar(c)
    ensures (forall c | c in ext :: IsExtChar(c)) ==> KeepExtChars(ext) == ext
    ensures forall c | c in KeepExtChars(ext) :: c in ext
  {
    if ext == "" {
    } else {
      KeptCharsCome(ext[1..]);
      assert ext == [ext[0]] + ext[1..];
      assert ext[0] in ext;
    }
  }

  // An ordinary extension is kept as it is; one without a usable character becomes
  // "bin"; any other keeps some of its characters and gains none.
  lemma OrdinaryExtensionIsKept(ext: string)
    ensures (forall c | c in ext :: IsExtChar(c)) && 1 <= |ext| <= 12 ==> RelExt(ext) == ext
    ensures (forall c | c in ext :: !IsExtChar(c)) ==> RelExt(ext) == "bin"
    ensures (exists c :: c in ext && IsExtChar(c)) ==> forall c | c in RelExt(ext) :: c in ext
  {
    KeptCharsCome(ext);
  }

  // A post's file lies in one of a hundred directories, named by the last two
  // digits of its id.
  lemma PathIsSharded(post: nat, ext: string)
    ensures RelPathFor(post, ext) == Shard(post) + "/" + Decimal(post) + "." + RelExt(ext)
    ensures |Shard(post)| == 2 && ParseNat(Shard(post)) == post % 100
    ensures forall c | c in Shard(post) :: '0' <= c <= '9'
  {
    var r := post % 100;
    DecimalIsInjective(r);
    if r < 10 {
      assert Shard(post) == ['0', Digit(r)];
      assert Shard(post)[..1] == "0" && "0"[..0] == "";
    } else {
      assert Decimal(r) == Decimal(r / 10) + [Digit(r % 10)];
    }
  }

  lemma SignedHasNoSeparator(i: int)
    ensures '/' !in Signed(i) && '.' !in Signed(i)
  {
  }

  // The first occurrence of a separator splits a string in one way only.
  lemma {:induction false} SplitIsUnique(a: string, b: string, a': string, b': string, sep: char)
    requires a + [sep] + b == a' + [sep] + b'
    requires sep !in a && sep !in a'
    ensures a == a' && b == b'
  {
    var s, s' := a + [sep] + b, a' + [sep] + b';
    assert s[0] == (if a == "" then sep else a[0]) && s'[0] == (if a' == "" then sep else a'[0]);
    assert (a != "" ==> a[0] in a) && (a' != "" ==> a'[0] in a');
    if a == "" {
      assert s[1..] == b && s'[1..] == b';
    } else {
      assert s[1..] == a[1..] + [sep] + b && s'[1..] == a'[1..] + [sep] + b';
      SplitIsUnique(a[1..], b, a'[1..], b', sep);
      assert a == [a[0]] + a[1..] && a' == [a'[0]] + a'[1..];
    }
  }

  lemma PathsSplit(post: int, tail: string, post': int, tail': string)
    requires Shard(post) + "/" + Signed(post) + "." + tail == Shard(post') + "/" + Signed(post') + "." + tail'
    ensures post == post' && tail == tail'
  {
    SignedHasNoSeparator(post);
    SignedHasNoSeparator(post');
    SignedHasNoSeparator(Remainder(post, 100));
    SignedHasNoSeparator(Remainder(post', 100));
    ThreePartsSplit(Shard(post), Signed(post), tail, Shard(post'), Signed(post'), tail');
    SignedIsInjective(post, post');
  }

  lemma ThreePartsSplit(a: string, b: string, c: string, a': string, b': string, c': string)
    requires a + "/" + b + "." + c == a' + "/" + b' + "." + c'
    requires '/' !in a && '/' !in a' && '.' !in b && '.' !in b'
    ensures b == b' && c == c'
  {
    var rest, rest' := b + "." + c, b' + "." + c';
    assert a + "/" + b + "." + c == a + ['/'] + rest;
    assert a' + "/" + b' + "." + c' == a' + ['/'] + rest';
    SplitIsUnique(a, rest, a', rest', '/');
    SplitIsUnique(b, c, b', c', '.');
  }

  // Two posts never share a path, whatever their extensions.
  lemma PathsAreNeverShared(post: int, ext: string, post': int, ext': string)
    requires RelPathFor(post, ext) == RelPathFor(post', ext')
    ensures post == post' && RelExt(ext) == RelExt(ext')
  {
    PathsSplit(post, RelExt(ext), post', RelExt(ext'));
  }

  // A half-written file never stands where a finished one is looked for.
  lemma TempIsNeverFinal(post: int, ext: string, post': int, ext': string)
    ensures TempPathFor(post, ext) != RelPathFor(post', ext')
  {
    RelExtIsBareToken(ext');
    var tail := RelExt(ext) + ".tmp";
    assert TempPathFor(post, ext) == Shard(post) + "/" + Signed(post) + "." + tail;
    assert tail[|RelExt(ext)|] == '.';
    assert '.' in tail && '.' !in RelExt(ext');
    if TempPathFor(post, ext) == RelPathFor(post', ext') {
      PathsSplit(post, tail, post', RelExt(ext'));
    }
  }

  // --- files and rows ----------------------------------------------------------------

  type Bytes = seq<int>

  datatype Entry = Entry(relPath: string, bytes: nat, mtime: int)

  // `last` remembers, for the statement only, what each post last stored with its row.
  datatype Store = Store(files: map<string, Bytes>, index: map<int, Entry>, last: map<int, Bytes>)

  ghost predicate IsPathOf(post: int, rel: string) {
    exists ext :: rel == RelPathFor(post, ext)
  }

  // The row points at a file holding its post's last stored bytes, with their
  // size recorded.
  ghost predicate RowAgrees(s: Store, p: int)
    requires p in s.index
  {
    && IsPathOf(p, s.index[p].relPath)
    && s.index[p].relPath in s.files
    && p in s.last && s.files[s.index[p].relPath] == s.last[p]
    && s.index[p].bytes == |s.last[p]|
  }

  ghost predicate Agrees(s: Store) {
    forall p | p in s.index :: RowAgrees(s, p)
  }

  datatype Outcome =
    | Done
    | TempFailed(partial: Bytes)   // the temporary file was created but not finished
    | RenameFailed
    | IndexFailed                  // the file is in place, its row was not written

  datatype Step =
    | Put(post: int, ext: string, bytes: Bytes, mtime: int, outcome: Outcome)
    | Touch(post: int, mtime: int)
    // Eviction, deletion or a full clear; `stuck` files resist removal.
    | Remove(posts: set<int>, stuck: set<string>)
    // The same, cut short before the rows are deleted.
    | RemoveFiles(posts: set<int>, stuck: set<string>)

  // The files of these posts' rows, less those that resist removal.
  function Deletable(index: map<int, Entry>, posts: set<int>, stuck: set<string>): set<string> {
    set p | p in posts && p in index && index[p].relPath !in stuck :: index[p].relPath
  }

  // None of these posts' files could be removed.
  predicate AllStuck(index: map<int, Entry>, posts: set<int>, stuck: set<string>) {
    forall p | p in posts && p in index :: index[p].relPath in stuck
  }

  lemma OneMoreDeletable(index: map<int, Entry>, posts: set<int>, p: int, stuck: set<string>)
    requires p in index
    ensures Deletable(index, posts + {p}, stuck)
         == Deletable(index, posts, stuck) + if index[p].relPath in stuck then {} else {index[p].relPath}
  {
  }

  function Next(s: Store, step: Step): Store {
    match step
    case Put(post, ext, bytes, mtime, outcome) =>
      var rel, tmp := RelPathFor(post, ext), TempPathFor(post, ext);
      (match outcome
       case TempFailed(partial) => s.(files := s.files[tmp := partial])
       case RenameFailed => s.(files := s.files[tmp := bytes])
       case IndexFailed => s.(files := s.files[rel := bytes] - {tmp})
       case Done =>
         Store(s.files[rel := bytes] - {tmp}, s.index[post := Entry(rel, |bytes|, mtime)], s.last[post := bytes]))
    case Touch(post, mtime) =>
      if post in s.index then s.(index := s.index[post := s.index[post].(mtime := mtime)]) else s
    case Remove(posts, stuck) =>
      s.(files := s.files - Deletable(s.index, posts, stuck), index := s.index - posts)
    case RemoveFiles(posts, stuck) => s.(files := s.files - Deletable(s.index, posts, stuck))
  }

  // Only two steps can part rows and files: storing other bytes under a row's path
  // without rewriting the row, and removing a row's file without the row.
  predicate Harmless(s: Store, step: Step) {
    match step
    case Put(post, ext, bytes, mtime, outcome) =>
      outcome == IndexFailed && post in s.index && s.index[post].relPath == RelPathFor(post, ext) ==>
        post in s.last && s.last[post] == bytes
    case RemoveFiles(posts, stuck) => AllStuck(s.index, posts, stuck)
    case Touch(_, _) => true
    case Remove(_, _) => true
  }

  // Each step keeps rows and files in agreement exactly when it is harmless.
  lemma StepKeepsAgreementIff(s: Store, step: Step)
    requires Agrees(s)
    ensures Agrees(Next(s, step)) <==> Harmless(s, step)
  {
    match step
    case Put(post, ext, bytes, mtime, outcome) =>
      if outcome == IndexFailed {
        IndexWriteFailure(s, post, ext, bytes);
        assert post in s.index ==> RowAgrees(s, post);
      } else {
        StepKeepsAgreement(s, step);
      }
    case RemoveFiles(posts, stuck) => InterruptedRemoval(s, posts, stuck);
    case Touch(post, mtime) => StepKeepsAgreement(s, step);
    case Remove(posts, stuck) => StepKeepsAgreement(s, step);
  }

  predicate Completes(step: Step) {
    !step.RemoveFiles? && !(step.Put? && step.outcome == IndexFailed)
  }

  lemma StepKeepsAgreement(s: Store, step: Step)
    requires Agrees(s) && Completes(step)
    ensures Agrees(Next(s, step))
  {
    var s' := Next(s, step);
    forall p | p in s'.index ensures RowAgrees(s', p) {
      match step
      case Put(post, ext, bytes, mtime, outcome) => PutKeepsRow(s, post, ext, bytes, mtime, outcome, p);
      case Touch(post, mtime) => assert RowAgrees(s, p);
      case Remove(posts, stuck) => RemoveKeepsRow(s, posts, stuck, p);
    }
  }

  lemma PutKeepsRow(s: Store, post: int, ext: string, bytes: Bytes, mtime: int, outcome: Outcome, p: int)
    requires Agrees(s) && outcome != IndexFailed && p in Next(s, Put(post, ext, bytes, mtime, outcome)).index
    ensures RowAgrees(Next(s, Put(post, ext, bytes, mtime, outcome)), p)
  {
    if p == post && outcome == Done {
      TempIsNeverFinal(post, ext, post, ext);
    } else {
      assert RowAgrees(s, p);
      var e :| s.index[p].relPath == RelPathFor(p, e);
      TempIsNeverFinal(post, ext, p, e);
      if RelPathFor(p, e) == RelPathFor(post, ext) {
        PathsAreNeverShared(p, e, post, ext);
      }
    }
  }

  lemma RemoveKeepsRow(s: Store, posts: set<int>, stuck: set<string>, p: int)
    requires Agrees(s) && p in s.index && p !in posts
    ensures RowAgrees(Next(s, Remove(posts, stuck)), p)
  {
    assert RowAgrees(s, p);
    forall q | q in posts && q in s.index ensures s.index[q].relPath != s.index[p].relPath {
      assert RowAgrees(s, q);
      RowsHaveOwnPaths(s, p, q);
    }
  }

  lemma RowsHaveOwnPaths(s: Store, p: int, q: int)
    requires p in s.index && q in s.index && IsPathOf(p, s.index[p].relPath) && IsPathOf(q, s.index[q].relPath)
    ensures s.index[p].relPath == s.index[q].relPath ==> p == q
  {
    var e :| s.index[p].relPath == RelPathFor(p, e);
    var f :| s.index[q].relPath == RelPathFor(q, f);
    if RelPathFor(p, e) == RelPathFor(q, f) {
      PathsAreNeverShared(p, e, q, f);
    }
  }

  ghost function Run(s: Store, steps: seq<Step>): Store {
    if steps == [] then s else Next(Run(s, steps[..|steps| - 1]), steps[|steps| - 1])
  }

  // No step of the run is one that parts rows and files.
  ghost predicate AllHarmless(s: Store, steps: seq<Step>) {
    steps == []
    || (AllHarmless(s, steps[..|steps| - 1]) && Harmless(Run(s, steps[..|steps| - 1]), steps[|steps| - 1]))
  }

  // Any sequence of stores, touches, evictions, deletions and clears, each complete
  // or cut short at any point, with files that may resist removal, keeps files and
  // rows in step unless it holds one of the two harmful interruptions.
  lemma {:induction false} EveryRunAgrees(s: Store, steps: seq<Step>)
    requires Agrees(s) && AllHarmless(s, steps)
    ensures Agrees(Run(s, steps))
  {
    if steps == [] {
    } else {
      EveryRunAgrees(s, steps[..|steps| - 1]);
      StepKeepsAgreementIff(Run(s, steps[..|steps| - 1]), steps[|steps| - 1]);
    }
  }

  // The first harmful step of a run does part them, and no other does.
  lemma FirstHarmBreaksAgreement(s: Store, steps: seq<Step>, step: Step)
    requires Agrees(s) && AllHarmless(s, steps)
    ensures Agrees(Run(s, steps + [step])) <==> Harmless(Run(s, steps), step)
  {
    EveryRunAgrees(s, steps);
    StepKeepsAgreementIff(Run(s, steps), step);
    assert (steps + [step])[..|steps|] == steps;
  }

  // A removal cut short between its files and its rows: every removal deletes the
  // files first. Rows and files still agree exactly when no file of the posts'
  // rows went.
  lemma InterruptedRemoval(s: Store, posts: set<int>, stuck: set<string>)
    requires Agrees(s)
    ensures Agrees(s.(files := s.files - Deletable(s.index, posts, stuck))) <==>
            AllStuck(s.index, posts, stuck)
  {
    var s' := s.(files := s.files - Deletable(s.index, posts, stuck));
    if p :| p in posts && p in s.index && s.index[p].relPath !in stuck {
      assert s.index[p].relPath !in s'.files;
      assert !RowAgrees(s', p);
    } else {
      forall p | p in s'.index ensures RowAgrees(s', p) {
        assert RowAgrees(s, p);
      }
    }
  }

  // A store cut short between its file and its row. Rows and files still agree
  // exactly when the post had no row at that path, or the new bytes are the old
  // ones.
  lemma IndexWriteFailure(s: Store, post: int, ext: string, bytes: Bytes)
    requires Agrees(s)
    ensures Agrees(s.(files := s.files[RelPathFor(post, ext) := bytes] - {TempPathFor(post, ext)})) <==>
            !(post in s.index && s.index[post].relPath == RelPathFor(post, ext) && s.last[post] != bytes)
  {
    var rel, tmp := RelPathFor(post, ext), TempPathFor(post, ext);
    var s' := s.(files := s.files[rel := bytes] - {tmp});
    TempIsNeverFinal(post, ext, post, ext);
    forall p | p in s.index
      ensures IsPathOf(p, s.index[p].relPath) && s.index[p].relPath in s'.files
      ensures s'.files[s.index[p].relPath] == if s.index[p].relPath == rel then bytes else s.last[p]
      ensures s.index[p].relPath == rel ==> p == post
    {
      assert RowAgrees(s, p);
      var e :| s.index[p].relPath == RelPathFor(p, e);
      TempIsNeverFinal(post, ext, p, e);
      if RelPathFor(p, e) == rel {
        PathsAreNeverShared(p, e, post, ext);
      }
    }
  }

  // --- what is stored stays ---------------------------------------------------------------

  ghost predicate RowsNamed(s: Store) {
    forall p | p in s.index :: IsPathOf(p, s.index[p].relPath)
  }

  // The post's row and file hold these bytes.
  ghost predicate Serves(s: Store, post: int, ext: string, bytes: Bytes) {
    && post in s.index && s.index[post].relPath == RelPathFor(post, ext) && s.index[post].bytes == |bytes|
    && RelPathFor(post, ext) in s.files && s.files[RelPathFor(post, ext)] == bytes
  }

  // The step neither removes the post nor gets as far as storing it anew.
  predicate SparesPost(step: Step, post: int) {
    match step
    case Put(p, _, _, _, outcome) => p != post || outcome.TempFailed? || outcome == RenameFailed
    case Touch(_, _) => true
    case Remove(posts, _) => post !in posts
    case RemoveFiles(posts, _) => post !in posts
  }

  lemma StepSparesFile(s: Store, step: Step, post: int, ext: string, bytes: Bytes)
    requires RowsNamed(s) && Serves(s, post, ext, bytes) && SparesPost(step, post)
    ensures RowsNamed(Next(s, step)) && Serves(Next(s, step), post, ext, bytes)
  {
    StepKeepsNames(s, step);
    match step
    case Put(p, e, _, _, _) =>
      TempIsNeverFinal(p, e, post, ext);
      if RelPathFor(p, e) == RelPathFor(post, ext) {
        PathsAreNeverShared(p, e, post, ext);
      }
    case Touch(_, _) =>
    case Remove(posts, stuck) => OthersFilesGo(s, posts, stuck, post);
    case RemoveFiles(posts, stuck) => OthersFilesGo(s, posts, stuck, post);
  }

  lemma StepKeepsNames(s: Store, step: Step)
    requires RowsNamed(s)
    ensures RowsNamed(Next(s, step))
  {
  }

  lemma OthersFilesGo(s: Store, posts: set<int>, stuck: set<string>, post: int)
    requires RowsNamed(s) && post in s.index && post !in posts
    ensures s.index[post].relPath !in Deletable(s.index, posts, stuck)
  {
    forall q | q in posts && q in s.index ensures s.index[q].relPath != s.index[post].relPath {
      RowsHaveOwnPaths(s, q, post);
    }
  }

  // Once stored, a post's bytes are found through its row for as long as nothing
  // removes the post or stores it again, whatever happens to other posts and
  // however their stores and removals are interrupted.
  lemma {:induction false} StoredStays(s: Store, post: int, ext: string, bytes: Bytes, mtime: int, steps: seq<Step>)
    requires RowsNamed(s) && forall i | 0 <= i < |steps| :: SparesPost(steps[i], post)
    ensures var s' := Run(Next(s, Put(post, ext, bytes, mtime, Done)), steps);
            RowsNamed(s') && Serves(s', post, ext, bytes)
  {
    if steps == [] {
      TempIsNeverFinal(post, ext, post, ext);
      StepKeepsNames(s, Put(post, ext, bytes, mtime, Done));
    } else {
      var init := steps[..|steps| - 1];
      assert forall i | 0 <= i < |init| :: init[i] == steps[i];
      StoredStays(s, post, ext, bytes, mtime, init);
      StepSparesFile(Run(Next(s, Put(post, ext, bytes, mtime, Done)), init), steps[|steps| - 1], post, ext, bytes);
    }
  }

  // The step stores or serves the post at `mtime`.
  predicate Uses(step: Step, post: int, mtime: int) {
    (step.Put? && step.post == post && step.outcome == Done && step.mtime == mtime)
    || (step.Touch? && step.post == post && step.mtime == mtime)
  }

  // A post used more recently than all others is evicted only with all of them.
  lemma UsedLeavesLast(s: Store, step: Step, post: int, mtime: int, gone: set<int>)
    requires Uses(step, post, mtime) && post in Next(s, step).index
    requires forall p | p in s.index && p != post :: s.index[p].mtime < mtime
    requires OldestFirst(Next(s, step).index, gone) && post in gone
    ensures gone == Next(s, step).index.Keys
  {
    var index := Next(s, step).index;
    forall p | p in index ensures p in gone {
      assert p == post || index[p] == s.index[p];
      assert p in gone || p in index.Keys - gone;
    }
  }

  // --- what the budget can see --------------------------------------------------------

  ghost predicate Indexed(s: Store, rel: string) {
    exists p :: p in s.index && s.index[p].relPath == rel
  }

  // Every file on disk is some row's file.
  ghost predicate NoOrphans(s: Store) {
    forall rel | rel in s.files :: Indexed(s, rel)
  }

  // A step leaves a file no row points at, out of reach of every later eviction,
  // exactly when a store is interrupted before its row is there, a post is stored
  // again under another extension, or a removed post's file resists removal.
  lemma OrphansAppearExactlyWhen(s: Store, step: Step)
    requires Agrees(s) && NoOrphans(s)
    ensures NoOrphans(Next(s, step)) <==>
            match step
            case Put(post, ext, bytes, mtime, outcome) =>
              && (outcome == Done || outcome == IndexFailed)
              && (post in s.index ==> s.index[post].relPath == RelPathFor(post, ext))
              && (outcome == IndexFailed ==> post in s.index)
            case Touch(post, mtime) => true
            case RemoveFiles(posts, stuck) => true
            case Remove(posts, stuck) => forall p | p in posts && p in s.index :: s.index[p].relPath !in stuck
  {
    match step
    case Put(post, ext, bytes, mtime, outcome) =>
      if outcome == IndexFailed {
        UnindexedPutOrphans(s, post, ext, bytes, mtime);
      } else {
        PutOrphans(s, post, ext, bytes, mtime, outcome);
      }
    case Touch(post, mtime) =>
      var s' := Next(s, step);
      forall rel | rel in s'.files ensures Indexed(s', rel) {
        var p :| p in s.index && s.index[p].relPath == rel;
        assert p in s'.index && s'.index[p].relPath == rel;
      }
    case Remove(posts, stuck) => RemoveOrphans(s, posts, stuck);
    case RemoveFiles(posts, stuck) =>
      forall rel | rel in Next(s, step).files ensures Indexed(Next(s, step), rel) {
        assert Indexed(s, rel);
      }
  }

  lemma TempIsNeverIndexed(s: Store, post: int, ext: string)
    requires Agrees(s)
    ensures !Indexed(s, TempPathFor(post, ext))
  {
    forall p | p in s.index ensures s.index[p].relPath != TempPathFor(post, ext) {
      assert RowAgrees(s, p);
      var e :| s.index[p].relPath == RelPathFor(p, e);
      TempIsNeverFinal(post, ext, p, e);
    }
  }

  lemma PutOrphans(s: Store, post: int, ext: string, bytes: Bytes, mtime: int, outcome: Outcome)
    requires Agrees(s) && NoOrphans(s) && outcome != IndexFailed
    ensures NoOrphans(Next(s, Put(post, ext, bytes, mtime, outcome))) <==>
            outcome == Done && (post in s.index ==> s.index[post].relPath == RelPathFor(post, ext))
  {
    var rel, tmp := RelPathFor(post, ext), TempPathFor(post, ext);
    var s' := Next(s, Put(post, ext, bytes, mtime, outcome));
    StepKeepsAgreement(s, Put(post, ext, bytes, mtime, outcome));
    TempIsNeverIndexed(s', post, ext);
    TempIsNeverFinal(post, ext, post, ext);
    if outcome != Done {
      assert tmp in s'.files;
    } else if post in s.index && s.index[post].relPath != rel {
      var stale := s.index[post].relPath;
      assert RowAgrees(s, post);
      TempIsNeverIndexed(s, post, ext);
      assert stale in s'.files;
      forall p | p in s'.index ensures s'.index[p].relPath != stale {
        if p != post {
          assert RowAgrees(s, p);
          RowsHaveOwnPaths(s, p, post);
        }
      }
    } else {
      forall f | f in s'.files ensures Indexed(s', f) {
        if f == rel {
          assert s'.index[post].relPath == rel;
        } else {
          var p :| p in s.index && s.index[p].relPath == f;
          assert p != post && s'.index[p] == s.index[p];
        }
      }
    }
  }

  lemma UnindexedPutOrphans(s: Store, post: int, ext: string, bytes: Bytes, mtime: int)
    requires Agrees(s) && NoOrphans(s)
    ensures NoOrphans(Next(s, Put(post, ext, bytes, mtime, IndexFailed))) <==>
            post in s.index && s.index[post].relPath == RelPathFor(post, ext)
  {
    var rel := RelPathFor(post, ext);
    var s' := Next(s, Put(post, ext, bytes, mtime, IndexFailed));
    TempIsNeverFinal(post, ext, post, ext);
    assert rel in s'.files;
    forall p | p in s.index && s.index[p].relPath == rel ensures p == post {
      assert RowAgrees(s, p);
      var e :| s.index[p].relPath == RelPathFor(p, e);
      PathsAreNeverShared(p, e, post, ext);
    }
    assert Indexed(s', rel) <==> post in s.index && s.index[post].relPath == rel;
    forall f | f in s'.files && f != rel ensures Indexed(s', f) {
      assert Indexed(s, f);
    }
  }

  lemma RemoveOrphans(s: Store, posts: set<int>, stuck: set<string>)
    requires Agrees(s) && NoOrphans(s)
    ensures NoOrphans(Next(s, Remove(posts, stuck))) <==>
            forall p | p in posts && p in s.index :: s.index[p].relPath !in stuck
  {
    var s' := Next(s, Remove(posts, stuck));
    if p :| p in posts && p in s.index && s.index[p].relPath in stuck {
      var rel := s.index[p].relPath;
      assert RowAgrees(s, p);
      assert rel in s'.files;
      forall q | q in s'.index ensures s'.index[q].relPath != rel {
        assert RowAgrees(s, q);
        RowsHaveOwnPaths(s, p, q);
      }
    } else {
      forall f | f in s'.files ensures Indexed(s', f) {
        var p :| p in s.index && s.index[p].relPath == f;
        assert p !in posts;
        assert s'.index[p].relPath == f;
      }
    }
  }

  function FileSizes(files: map<string, Bytes>): map<string, nat> {
    map rel | rel in files :: |files[rel]|
  }

  lemma DiskBytesWithout(files: map<string, Bytes>, rel: string)
    requires rel in files
    ensures Total(FileSizes(files)) == |files[rel]| + Total(FileSizes(files - {rel}))
  {
    TotalWithout(FileSizes(files), rel);
    assert FileSizes(files - {rel}) == FileSizes(files) - {rel};
  }

  lemma IndexedBytesWithout(index: map<int, Entry>, p: int)
    requires p in index
    ensures IndexedBytes(index) == index[p].bytes + IndexedBytes(index - {p})
  {
    TotalWithout(Sizes(index), p);
    assert Sizes(index - {p}) == Sizes(index) - {p};
  }

  // Forgetting one post takes its file along and nothing else.
  lemma ForgetOne(s: Store, p: int)
    requires Agrees(s) && NoOrphans(s) && p in s.index
    ensures var rest := Store(s.files - {s.index[p].relPath}, s.index - {p}, s.last);
            Agrees(rest) && NoOrphans(rest)
  {
    assert RowAgrees(s, p);
    StepKeepsAgreement(s, Remove({p}, {}));
    RemoveOrphans(s, {p}, {});
    assert Deletable(s.index, {p}, {}) == {s.index[p].relPath};
  }

  // While no file is orphaned, the bytes the budget counts are the bytes on disk.
  lemma {:induction false} IndexedBytesAreDiskBytes(s: Store)
    requires Agrees(s) && NoOrphans(s)
    ensures Total(FileSizes(s.files)) == IndexedBytes(s.index)
    decreases |s.index|
  {
    if s.index == map[] {
      assert forall rel | rel in s.files :: Indexed(s, rel);
      assert FileSizes(s.files) == map[];
    } else {
      var p := Pick(s.index.Keys);
      var rel := s.index[p].relPath;
      assert RowAgrees(s, p);
      ForgetOne(s, p);
      ShrinkByOne(s.index, p);
      IndexedBytesAreDiskBytes(Store(s.files - {rel}, s.index - {p}, s.last));
      DiskBytesWithout(s.files, rel);
      IndexedBytesWithout(s.index, p);
    }
  }

  // --- the LRU budget ------------------------------------------------------------------

  const EVICT_BATCH: nat := 16

  function Sizes(index: map<int, Entry>): map<int, nat> {
    map p | p in index :: index[p].bytes
  }

  ghost function IndexedBytes(index: map<int, Entry>): nat {
    Total(Sizes(index))
  }

  function Mtime(e: Entry): real {
    e.mtime as real
  }

  // Nothing in `gone` was used later than anything that stays.
  ghost predicate OldestFirst(index: map<int, Entry>, gone: set<int>) {
    gone <= index.Keys && forall a, b | a in gone && b in index.Keys - gone :: index[a].mtime <= index[b].mtime
  }

  // A list of distinct posts, least recently used first, ahead of all others.
  ghost predicate IsOldestList(index: map<int, Entry>, posts: seq<int>) {
    && Distinct(posts)
    && OldestFirst(index, Members(posts))
    && (forall i | 0 <= i < |posts| :: posts[i] in index)
    && (forall i, j | 0 <= i < j < |posts| :: index[posts[i]].mtime <= index[posts[j]].mtime)
  }

  lemma OldestListGrows(index: map<int, Entry>, posts: seq<int>, p: int)
    requires IsOldestList(index, posts)
    requires p in index - Members(posts) && IsStalest(index - Members(posts), Mtime, p)
    ensures IsOldestList(index, posts + [p])
    ensures index - Members(posts + [p]) == index - Members(posts) - {p}
  {
    assert Members(posts + [p]) == Members(posts) + {p};
    forall i | 0 <= i < |posts| ensures posts[i] != p && index[posts[i]].mtime <= index[p].mtime {
      assert posts[i] in Members(posts);
    }
    forall a, b | a in Members(posts + [p]) && b in index.Keys - Members(posts + [p])
      ensures index[a].mtime <= index[b].mtime
    {
      assert b in index.Keys - Members(posts) && b in index - Members(posts);
    }
  }

  // The last batch of an eviction: putting it back would exceed the budget, and
  // it holds the most recently used of everything evicted.
  ghost predicate LastBatch(index: map<int, Entry>, gone: set<int>, batch: set<int>, max: int) {
    && batch <= gone && 0 < |batch| <= 16
    && IndexedBytes(index - (gone - batch)) > max
    && OldestFirst(index, gone - batch)
  }

  // The next row in ORDER BY mtime; ties are the engine's to break.
  method OldestRow(rest: map<int, Entry>) returns (p: int)
    requires |rest| > 0
    ensures p in rest && IsStalest(rest, Mtime, p)
  {
    ghost var someone := Stalest(rest, Mtime);
    assert someone in rest && IsStalest(rest, Mtime, someone);
    p :| p in rest && IsStalest(rest, Mtime, p);
  }

  class MediaCache {
    var files: map<string, Bytes>
    var index: map<int, Entry>
    ghost var last: map<int, Bytes>

    ghost function State(): Store
      reads this
    {
      Store(files, index, last)
    }

    constructor ()
      ensures State() == Store(map[], map[], map[])
    {
      files, index, last := map[], map[], map[];
    }

    // save_original and store_original, up to the given outcome.
    method StoreOriginal(post: int, ext: string, bytes: Bytes, mtime: int, outcome: Outcome)
      modifies this
      ensures State() == Next(old(State()), Put(post, ext, bytes, mtime, outcome))
      ensures index ==
                if outcome == Done
                then old(index)[post := Entry(RelPathFor(post, ext), |bytes|, mtime)]
                else old(index)
      ensures outcome == Done || outcome == IndexFailed ==>
                files == old(files)[RelPathFor(post, ext) := bytes] - {TempPathFor(post, ext)}
      ensures outcome != Done && outcome != IndexFailed ==>
                TempPathFor(post, ext) in files
                && files - {TempPathFor(post, ext)} == old(files) - {TempPathFor(post, ext)}
    {
      var rel := RelPathFor(post, ext);
      var tmp := TempPathFor(post, ext);
      match outcome
      case TempFailed(partial) =>
        files := files[tmp := partial];
      case RenameFailed =>
        files := files[tmp := bytes];
      case IndexFailed =>
        files := files[tmp := bytes];
        TempIsNeverFinal(post, ext, post, ext);
        files := (files - {tmp})[rel := bytes];
        assert files == old(files)[rel := bytes] - {tmp};
      case Done =>
        files := files[tmp := bytes];
        TempIsNeverFinal(post, ext, post, ext);
        files := (files - {tmp})[rel := bytes];
        index := index[post := Entry(rel, |bytes|, mtime)];
        last := last[post := bytes];
        assert files == old(files)[rel := bytes] - {tmp};
    }

    // touch_media_entry
    method TouchMediaEntry(post: int, mtime: int)
      modifies this`index
      ensures State() == Next(old(State()), Touch(post, mtime))
      ensures index.Keys == old(index).Keys
      ensures forall p | p in index :: index[p] == if p == post then old(index)[p].(mtime := mtime) else old(index)[p]
    {
      if post in index {
        index := index[post := index[post].(mtime := mtime)];
      }
    }

    // SELECT .. ORDER BY mtime ASC LIMIT n
    method OldestMediaEntries(n: nat) returns (posts: seq<int>)
      ensures |posts| == if n < |index| then n else |index|
      ensures IsOldestList(index, posts)
    {
      posts := [];
      var rest := index;
      assert Members(posts) == {};
      while |posts| < n && |rest| > 0
        invariant |posts| <= n && |posts| + |rest| == |index|
        invariant rest == index - Members(posts)
        invariant IsOldestList(index, posts)
        decreases |rest|
      {
        var p := OldestRow(rest);
        OldestListGrows(index, posts, p);
        ShrinkByOne(rest, p);
        rest := rest - {p};
        posts := posts + [p];
      }
    }

    // SELECT COALESCE(SUM(bytes), 0)
    method CountMediaBytes() returns (total: nat)
      ensures total == IndexedBytes(index)
    {
      total := 0;
      var rest := Sizes(index);
      while |rest| > 0
        invariant total + Total(rest) == IndexedBytes(index)
        decreases |rest|
      {
        ghost var someone := Pick(rest.Keys);
        assert someone in rest;
        var p :| p in rest;
        ShrinkByOne(rest, p);
        TotalWithout(rest, p);
        total := total + rest[p];
        rest := rest - {p};
      }
    }

    // Delete the posts' files and then their rows; a file that resists stays, and
    // `rowsFail` tells whether the row delete fails.
    method RemovePosts(posts: seq<int>, stuck: set<string>, rowsFail: bool)
      requires Members(posts) <= index.Keys
      modifies this
      ensures State() ==
              Next(old(State()), if rowsFail then RemoveFiles(Members(posts), stuck) else Remove(Members(posts), stuck))
      ensures index == if rowsFail then old(index) else old(index) - Members(posts)
    {
      assert Members(posts[..0]) == {};
      for i := 0 to |posts|
        invariant index == old(index) && last == old(last)
        invariant files == old(files) - Deletable(old(index), Members(posts[..i]), stuck)
      {
        assert posts[i] in Members(posts);
        assert Members(posts[..i + 1]) == Members(posts[..i]) + {posts[i]};
        OneMoreDeletable(old(index), Members(posts[..i]), posts[i], stuck);
        var rel := index[posts[i]].relPath;
        if rel in files && rel !in stuck {
          files := files - {rel};
        }
      }
      assert posts[..|posts|] == posts;
      if !rowsFail {
        index := index - Members(posts);
      }
    }

    // delete_and_unindex
    method DeleteAndUnindex(post: int, stuck: set<string>, rowsFail: bool) returns (found: bool)
      modifies this
      ensures found <==> post in old(index)
      ensures State() ==
              if !found then old(State())
              else Next(old(State()), if rowsFail then RemoveFiles({post}, stuck) else Remove({post}, stuck))
    {
      found := post in index;
      if found {
        assert Members([post]) == {post};
        RemovePosts([post], stuck, rowsFail);
      }
    }

    // clear_cache: `posts` is the order the index lists its rows in.
    method ClearCache(posts: seq<int>, stuck: set<string>, rowsFail: bool) returns (cleared: nat)
      requires Distinct(posts) && Members(posts) == index.Keys
      modifies this
      ensures index == (if rowsFail then old(index) else map[]) && cleared == |old(index)| - |index|
      ensures files == old(files) - Deletable(old(index), old(index).Keys, stuck)
    {
      RemovePosts(posts, stuck, rowsFail);
      cleared := if rowsFail then 0 else |posts|;
      DistinctCount(posts);
      assert index == if rowsFail then old(index) else map[];
    }

    // One round: the least recently used rows, at most a batch of them.
    method EvictBatch(stuck: set<string>, rowsFail: bool) returns (removed: nat, ghost batch: set<int>)
      modifies this
      ensures index == (if rowsFail then old(index) else old(index) - batch) && OldestFirst(old(index), batch)
      ensures |batch| == if |old(index)| < 16 then |old(index)| else 16
      ensures files == old(files) - Deletable(old(index), batch, stuck) && last == old(last)
      ensures removed == if rowsFail then 0 else |batch|
      ensures Agrees(old(State())) ==>
                (Agrees(State()) <==> !rowsFail || AllStuck(old(index), batch, stuck))
    {
      var candidates := OldestMediaEntries(EVICT_BATCH);
      batch := Members(candidates);
      DistinctCount(candidates);
      if Agrees(State()) {
        StepKeepsAgreementIff(State(), if rowsFail then RemoveFiles(batch, stuck) else Remove(batch, stuck));
      }
      RemovePosts(candidates, stuck, rowsFail);
      removed := if rowsFail then 0 else |candidates|;
    }

    // The loop, for a budget already cast: batch after batch until the indexed total
    // fits, nothing is left, or a row delete fails.
    method EvictRounds(budget: int, stuck: set<string>, rowsFail: nat -> bool)
        returns (evicted: nat, ghost gone: set<int>, ghost batch: set<int>, ghost cut: set<int>)
      modifies this
      ensures EvictedSoFar(old(State()), State(), gone, batch, budget, stuck, cut) && evicted == |gone|
      ensures cut == {} ==> IndexedBytes(index) <= budget || index == map[]
      ensures (forall round :: !rowsFail(round)) ==> cut == {}
      ensures Agrees(old(State())) ==> (Agrees(State()) <==> AllStuck(index, cut, stuck))
    {
      evicted, gone, batch, cut := 0, {}, {}, {};
      NothingEvicted(State(), budget, stuck);
      var round := 0;
      while true
        invariant EvictedSoFar(old(State()), State(), gone, batch, budget, stuck, {}) && evicted == |gone|
        invariant Agrees(old(State())) ==> Agrees(State())
        decreases |index|
      {
        var total := CountMediaBytes();
        if total <= budget || |index| == 0 {
          return;
        }
        ghost var before, previous := State(), batch;
        var removed;
        ghost var candidates;
        removed, candidates := EvictBatch(stuck, rowsFail(round));
        BatchJoins(old(State()), before, State(), gone, previous, candidates, budget, stuck);
        if rowsFail(round) {
          cut := candidates;
          return;
        }
        batch := candidates;
        gone := gone + batch;
        evicted := evicted + removed;
        round := round + 1;
      }
    }

    // Evict in batches until the indexed total fits, or nothing is left. A zero
    // budget disables it; a round whose row delete fails ends it, and `cut` is that
    // round's batch. The budget is an unsigned 64-bit number read as a signed one.
    method EvictToBudget(max: nat, stuck: set<string>, rowsFail: nat -> bool)
        returns (evicted: nat, ghost gone: set<int>, ghost batch: set<int>, ghost cut: set<int>)
      requires max < U64
      modifies this
      ensures index == old(index) - gone && gone <= old(index).Keys && evicted == |gone|
      ensures (forall round :: !rowsFail(round)) ==> cut == {}
      ensures max > 0 && cut == {} ==> IndexedBytes(index) <= AsSigned(max) || index == map[]
      ensures 0 < max < U64 / 2 && cut == {} ==> IndexedBytes(index) <= max
      ensures max >= U64 / 2 && cut == {} ==> index == map[]
      ensures OldestFirst(old(index), gone) && cut <= index.Keys
      ensures files == old(files) - Deletable(old(index), gone + cut, stuck)
      ensures gone != {} ==> max > 0 && LastBatch(old(index), gone, batch, AsSigned(max))
      ensures max == 0 || IndexedBytes(old(index)) <= AsSigned(max) ==> gone == {}
      ensures Agrees(old(State())) ==> (Agrees(State()) <==> AllStuck(index, cut, stuck))
    {
      evicted, gone, batch, cut := 0, {}, {}, {};
      if max == 0 {
        NothingEvicted(State(), 0, stuck);
        return;
      }
      NoRowsNoBytes(map[]);
      evicted, gone, batch, cut := EvictRounds(AsSigned(max), stuck, rowsFail);
    }
  }

  lemma DeletableJoins(index: map<int, Entry>, gone: set<int>, batch: set<int>, stuck: set<string>)
    requires gone !! batch
    ensures Deletable(index, gone + batch, stuck)
         == Deletable(index, gone, stuck) + Deletable(index - gone, batch, stuck)
  {
  }

  const U64: nat := 0x1_0000_0000_0000_0000

  // The cast from u64 to i64.
  function AsSigned(x: nat): int
    requires x < U64
  {
    if x < U64 / 2 then x else x - U64
  }

  lemma NoRowsNoBytes(index: map<int, Entry>)
    ensures index == map[] ==> IndexedBytes(index) == 0
  {
    assert index == map[] ==> Sizes(index) == map[];
  }

  // Where the eviction of `start` stands after some batches; `cut` is a batch whose
  // files went and whose rows did not.
  ghost predicate EvictedSoFar(
      start: Store, now: Store, gone: set<int>, batch: set<int>, max: int, stuck: set<string>, cut: set<int>) {
    && gone <= start.index.Keys && now.index == start.index - gone && cut <= now.index.Keys
    && OldestFirst(start.index, gone)
    && now.files == start.files - Deletable(start.index, gone + cut, stuck)
    && (gone != {} ==> LastBatch(start.index, gone, batch, max))
    && (IndexedBytes(start.index) <= max ==> gone == {})
  }

  lemma NothingEvicted(start: Store, max: int, stuck: set<string>)
    ensures EvictedSoFar(start, start, {}, {}, max, stuck, {})
  {
    assert Deletable(start.index, {} + {}, stuck) == {};
  }

  lemma BatchJoins(
      start: Store, before: Store, after: Store, gone: set<int>, previous: set<int>, batch: set<int>, max: int,
      stuck: set<string>)
    requires EvictedSoFar(start, before, gone, previous, max, stuck, {}) && OldestFirst(before.index, batch)
    requires after.files == before.files - Deletable(before.index, batch, stuck)
    requires 0 < |batch| <= 16 && IndexedBytes(before.index) > max
    ensures |gone + batch| == |gone| + |batch|
    ensures after.index == before.index - batch ==> EvictedSoFar(start, after, gone + batch, batch, max, stuck, {})
    ensures after.index == before.index ==> EvictedSoFar(start, after, gone, previous, max, stuck, batch)
  {
    assert before.index.Keys == start.index.Keys - gone;
    assert gone + batch - batch == gone && gone + {} == gone && gone + batch + {} == gone + batch;
    assert start.index - (gone + batch) == before.index - batch;
    assert gone == {} ==> before.index == start.index;
    DeletableJoins(start.index, gone, batch, stuck);
  }
}
