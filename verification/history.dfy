/** The per-commit history pipeline of the tool: walk the commits oldest
    first, reuse or build each commit's PDF through the artifact cache, count
    its pages and append one row per commit to the data file. */
module History {
  import opened Wrappers
  import opened Naming
  import opened Tree

  /** A commit as the walk resolves it: its id and its commit time, in
      seconds since the Unix epoch. */
  datatype Commit = Commit(id: Oid, time: int)

  /** One item of the revision walk: the walk itself reported an error, the
      id it produced could not be resolved to a commit, or it could. */
  datatype WalkEntry = WalkError | Unresolved(oid: Oid) | Resolved(commit: Commit)

  /** A line of the data file: the header "Timestamp,Commit Hash,Page Count",
      or a row with the commit time (seconds since the epoch; its RFC 3339
      rendering is not modelled), the full commit id and the page count. */
  datatype Line = Header | Row(time: nat, id: Oid, pages: nat)

  /** The progress messages the loop prints: a commit id that could not be
      resolved, a cached PDF being reused, a PDF being compiled. */
  datatype Event = LookupError(oid: Oid) | CacheHit(key: string) | CacheMiss(key: string)

  /** Why a run stops early. */
  datatype Failure =
    | WalkFailed        // the revision walk yields an error
    | CopyFailed        // copy_repo fails
    | CheckoutFailed    // git checkout exits with a failure status
    | CompileFailed     // latexmk exits with a failure status
    | CacheCopyFailed   // the expected PDF is not a file in the workspace
    | PageCountFailed   // the cached PDF cannot be loaded
    | TimeOverflow      // a negative commit time overflows the epoch offset

  datatype Outcome = Completed | Aborted(at: nat, failure: Failure)

  /** What the loop reads but does not own: the command line, the working
      tree found at args.repoPath, and the external tools. checkout gives the
      tree after `git checkout <id>` in a workspace, latexmk the tree after
      `latexmk -pdf <args.mainTexFile> <args.latexmkArgs>` in it (both None on
      a failure status), pageCount the page count of a PDF's bytes (None when
      it cannot be loaded). */
  datatype Env = Env(
    args: Args,
    repo: Node,
    checkout: (Node, Oid) -> Option<Node>,
    latexmk: Node -> Option<Node>,
    pageCount: Bytes -> Option<nat>)

  /** What the loop changes: the cache directory (file name to contents), the
      temporary workspace (None when it does not exist), the lines of the data
      file and the progress messages. */
  datatype State = State(cache: map<string, Bytes>, workspace: Option<Node>, output: seq<Line>, log: seq<Event>)

  /** The cache file name of the commit id at walk position index: the last
      component of CachePdfPath(args, index, id), whose directory CacheDir(args)
      is the same for every commit, so the cache is keyed by this name alone. */
  function CacheKey(index: nat, id: Oid): string {
    CacheFileName(index, ShortHash(id))
  }

  /** Every entry of a is in b with the same contents. */
  predicate CacheGrows(a: map<string, Bytes>, b: map<string, Bytes>) {
    forall k :: k in a ==> k in b && b[k] == a[k]
  }

  /** A cache miss: the old workspace is removed, the repository is copied
      afresh, checked out at c and compiled, and the PDF is copied into the
      cache under key and removed from the workspace. */
  function Build(env: Env, s: State, c: Commit, key: string): (r: (State, Option<Failure>))
    ensures r.0.output == s.output && r.0.log == s.log
    ensures r.1.None? ==> key in r.0.cache && r.0.cache - {key} == s.cache - {key}
    ensures r.1.Some? ==> r.0.cache == s.cache
  {
    if !Copyable(env.repo) then (s.(workspace := None), Some(CopyFailed))
    else
      var copied := Filtered(env.repo);
      match env.checkout(copied, c.id) {
        case None => (s.(workspace := Some(copied)), Some(CheckoutFailed))
        case Some(tree) =>
          match env.latexmk(tree) {
            case None => (s.(workspace := Some(tree)), Some(CompileFailed))
            case Some(built) =>
              var pdf := PdfPath(env.args.mainTexFile);
              match Lookup(built, pdf) {
                case Some(File(data)) =>
                  (s.(workspace := Some(RemoveFile(built, pdf)), cache := s.cache[key := data]), None)
                case _ => (s.(workspace := Some(built)), Some(CacheCopyFailed))
              }
          }
      }
  }

  /** Counting the pages of the cached PDF and appending the commit's row. */
  function Record(env: Env, s: State, c: Commit, key: string): (State, Option<Failure>)
    requires key in s.cache
  {
    match env.pageCount(s.cache[key])
    case None => (s, Some(PageCountFailed))
    case Some(pages) =>
      if c.time < 0 then (s, Some(TimeOverflow))
      else (s.(output := s.output + [Row(c.time, c.id, pages)]), None)
  }

  /** One iteration of the loop, for the walk entry e at position index. */
  function Step(env: Env, s: State, index: nat, e: WalkEntry): (State, Option<Failure>) {
    match e
    case WalkError => (s, Some(WalkFailed))
    case Unresolved(oid) => (s.(log := s.log + [LookupError(oid)]), None)
    case Resolved(c) =>
      var key := CacheKey(index, c.id);
      if key in s.cache then Record(env, s.(log := s.log + [CacheHit(key)]), c, key)
      else
        var (built, failure) := Build(env, s.(log := s.log + [CacheMiss(key)]), c, key);
        if failure.Some? then (built, failure) else Record(env, built, c, key)
  }

  /** The loop from walk position i on, starting in state s. */
  function RunFrom(env: Env, walk: seq<WalkEntry>, i: nat, s: State): (State, Outcome)
    requires i <= |walk|
    decreases |walk| - i
  {
    if i == |walk| then (s, Completed)
    else
      var (next, failure) := Step(env, s, i, walk[i]);
      if failure.Some? then (next, Aborted(i, failure.value))
      else RunFrom(env, walk, i + 1, next)
  }

  /** Before the loop: the given cache, no workspace, a data file holding
      only the header, nothing printed. */
  function InitialState(cache: map<string, Bytes>): State {
    State(cache, None, [Header], [])
  }

  /** A whole run over the walk, starting from the cache directory's contents. */
  function Run(env: Env, walk: seq<WalkEntry>, cache: map<string, Bytes>): (State, Outcome) {
    RunFrom(env, walk, 0, InitialState(cache))
  }

  /** The history loop: writes the header, then processes the walk entries in
      order, and stops at the first failure. The workspace is a temporary
      directory that is discarded at the end, so it is not returned. */
  method ProcessHistory(env: Env, walk: seq<WalkEntry>, cache0: map<string, Bytes>)
    returns (cache: map<string, Bytes>, output: seq<Line>, log: seq<Event>, outcome: Outcome)
    ensures var (final, result) := Run(env, walk, cache0);
      cache == final.cache && output == final.output && log == final.log && outcome == result
  {
    cache, output, log := cache0, [Header], [];
    var workspace: Option<Node> := None;
    var i := 0;
    while i < |walk|
      invariant i <= |walk|
      invariant RunFrom(env, walk, i, State(cache, workspace, output, log)) == Run(env, walk, cache0)
    {
      match walk[i] {
        case WalkError =>
          outcome := Aborted(i, WalkFailed);
          return;
        case Unresolved(oid) =>
          log := log + [LookupError(oid)];
        case Resolved(c) =>
          var key := CacheKey(i, c.id);
          if key in cache {
            log := log + [CacheHit(key)];
          } else {
            log := log + [CacheMiss(key)];
            workspace := None;
            var copied := CopyRepo(env.repo);
            if copied.None? {
              outcome := Aborted(i, CopyFailed);
              return;
            }
            workspace := copied;
            var tree := env.checkout(copied.value, c.id);
            if tree.None? {
              outcome := Aborted(i, CheckoutFailed);
              return;
            }
            workspace := tree;
            var built := env.latexmk(tree.value);
            if built.None? {
              outcome := Aborted(i, CompileFailed);
              return;
            }
            workspace := built;
            var pdf := PdfPath(env.args.mainTexFile);
            var artifact := Lookup(built.value, pdf);
            if !(artifact.Some? && artifact.value.File?) {
              outcome := Aborted(i, CacheCopyFailed);
              return;
            }
            cache := cache[key := artifact.value.data];
            workspace := Some(RemoveFile(built.value, pdf));
          }
          var pages := env.pageCount(cache[key]);
          if pages.None? {
            outcome := Aborted(i, PageCountFailed);
            return;
          }
          if c.time < 0 {
            outcome := Aborted(i, TimeOverflow);
            return;
          }
          output := output + [Row(c.time, c.id, pages.value)];
      }
      i := i + 1;
    }
    outcome := Completed;
  }

  // ---------------------------------------------------------------------------
  // One step.

  /** What one iteration does to the data file: a failed step appends
      nothing, and only a walk error fails with WalkFailed; an unresolved id
      never fails and appends nothing; a resolved commit that succeeds has
      its PDF in the cache and appends exactly one row, for that commit and
      with the cached PDF's page count. */
  lemma StepOutput(env: Env, s: State, index: nat, e: WalkEntry)
    ensures var (n, f) := Step(env, s, index, e);
      && s.output <= n.output
      && (e.WalkError? ==> f == Some(WalkFailed))
      && (f.Some? ==> n.output == s.output && (f.value == WalkFailed <==> e.WalkError?))
      && (e.Unresolved? ==> f.None? && n.output == s.output)
      && (e.Resolved? && f.None? ==>
            var key := CacheKey(index, e.commit.id);
            && key in n.cache
            && |n.output| == |s.output| + 1
            && n.output[|s.output|] == Row(e.commit.time, e.commit.id, n.output[|s.output|].pages)
            && env.pageCount(n.cache[key]) == Some(n.output[|s.output|].pages))
  {
  }

  /** What one iteration does to the cache and the workspace: entries are
      only added, only under the commit's own key, and a hit changes neither.
      A PDF that was built stays cached even when counting its pages or
      converting the commit time fails afterwards. */
  lemma StepCache(env: Env, s: State, index: nat, e: WalkEntry)
    ensures var (n, f) := Step(env, s, index, e);
      && CacheGrows(s.cache, n.cache)
      && (!e.Resolved? ==> n.cache == s.cache && n.workspace == s.workspace)
      && (e.Resolved? ==>
            var key := CacheKey(index, e.commit.id);
            && n.cache.Keys <= s.cache.Keys + {key}
            && (key in s.cache ==> n.cache == s.cache && n.workspace == s.workspace)
            && (f.None? || f == Some(PageCountFailed) || f == Some(TimeOverflow) ==> key in n.cache))
  {
  }

  /** What one iteration prints: nothing for a walk error, a lookup error for
      an unresolved id, and a hit or a miss for a resolved commit. */
  lemma StepLog(env: Env, s: State, index: nat, e: WalkEntry)
    ensures var (n, f) := Step(env, s, index, e);
      n.log == s.log + match e {
        case WalkError => []
        case Unresolved(oid) => [LookupError(oid)]
        case Resolved(c) =>
          var key := CacheKey(index, c.id);
          [if key in s.cache then CacheHit(key) else CacheMiss(key)]
      }
  {
  }

  /** On a cache hit nothing is copied, checked out or compiled: the step's
      result does not depend on the repository or on the checkout and build
      tools. */
  lemma HitDoesNotBuild(env: Env, s: State, index: nat, c: Commit,
                        repo: Node, checkout: (Node, Oid) -> Option<Node>, latexmk: Node -> Option<Node>)
    requires CacheKey(index, c.id) in s.cache
    ensures Step(env.(repo := repo, checkout := checkout, latexmk := latexmk), s, index, Resolved(c))
         == Step(env, s, index, Resolved(c))
  {
  }

  /** On a cache miss the workspace is rebuilt from scratch: the step's result
      does not depend on the workspace the previous commit left, and when it
      succeeds the cached PDF is the file the build produced in a fresh copy
      of the repository checked out at the commit. */
  lemma MissStartsFresh(env: Env, s: State, index: nat, c: Commit, w: Option<Node>)
    requires CacheKey(index, c.id) !in s.cache
    ensures Step(env, s.(workspace := w), index, Resolved(c)) == Step(env, s, index, Resolved(c))
    ensures var (n, f) := Step(env, s, index, Resolved(c));
      f.None? ==>
        && Copyable(env.repo)
        && env.checkout(Filtered(env.repo), c.id).Some?
        && env.latexmk(env.checkout(Filtered(env.repo), c.id).value).Some?
        && var built := env.latexmk(env.checkout(Filtered(env.repo), c.id).value).value;
           && Lookup(built, PdfPath(env.args.mainTexFile)) == Some(File(n.cache[CacheKey(index, c.id)]))
           && n.workspace == Some(RemoveFile(built, PdfPath(env.args.mainTexFile)))
  {
  }

  /** A resolved commit's step fails only for a cause the loop checks: a
      negative commit time, a cached PDF whose pages cannot be counted, or on
      a miss a repository that cannot be copied, a failed checkout, a failed
      build, a build that leaves no PDF file, or a built PDF whose pages
      cannot be counted. */
  lemma StepFailsOnlyOnFailure(env: Env, s: State, index: nat, c: Commit)
    ensures var key := CacheKey(index, c.id);
            var f := Step(env, s, index, Resolved(c)).1;
            var tree := env.checkout(Filtered(env.repo), c.id);
            var built := if tree.Some? then env.latexmk(tree.value) else None;
            var pdf := if built.Some? then Lookup(built.value, PdfPath(env.args.mainTexFile)) else None;
      f.Some? ==>
        || c.time < 0
        || (key in s.cache && env.pageCount(s.cache[key]).None?)
        || (key !in s.cache &&
              (|| !Copyable(env.repo) || tree.None? || built.None?
               || !(pdf.Some? && pdf.value.File?) || env.pageCount(pdf.value.data).None?))
  {
  }

  /** The external tools never fail: the repository can be copied, every
      checkout and every build succeeds, every build leaves the PDF as a file,
      and every PDF's pages can be counted. */
  ghost predicate ToolsSucceed(env: Env) {
    && Copyable(env.repo)
    && (forall id: Oid :: env.checkout(Filtered(env.repo), id).Some?)
    && (forall tree :: env.latexmk(tree).Some?)
    && (forall tree :: env.latexmk(tree).Some? ==>
          var pdf := Lookup(env.latexmk(tree).value, PdfPath(env.args.mainTexFile));
          pdf.Some? && pdf.value.File?)
    && (forall data :: env.pageCount(data).Some?)
  }

  /** The walk yields no error and no resolved commit with a negative time. */
  predicate WellFormedFrom(walk: seq<WalkEntry>, i: nat) {
    forall j :: i <= j < |walk| ==>
      !walk[j].WalkError? && (walk[j].Resolved? ==> walk[j].commit.time >= 0)
  }

  // ---------------------------------------------------------------------------
  // Whole runs.

  /** The walk position after the last entry a run completed. */
  function End(walk: seq<WalkEntry>, o: Outcome): (end: nat)
    ensures end <= |walk|
  {
    if o.Aborted? && o.at < |walk| then o.at else |walk|
  }

  /** The resolved commits of a walk, in walk order. */
  function ResolvedCommits(walk: seq<WalkEntry>): seq<Commit> {
    if walk == [] then []
    else (if walk[0].Resolved? then [walk[0].commit] else []) + ResolvedCommits(walk[1..])
  }

  /** The commit of each row of a data file, in file order. */
  function RowCommits(lines: seq<Line>): seq<Commit> {
    if lines == [] then []
    else (if lines[0].Row? then [Commit(lines[0].id, lines[0].time)] else []) + RowCommits(lines[1..])
  }

  lemma {:induction false} RowCommitsAppend(a: seq<Line>, b: seq<Line>)
    ensures RowCommits(a + b) == RowCommits(a) + RowCommits(b)
    decreases |a|
  {
    if a != [] {
      assert (a + b)[0] == a[0] && (a + b)[1..] == a[1..] + b;
      RowCommitsAppend(a[1..], b);
      var h := if a[0].Row? then [Commit(a[0].id, a[0].time)] else [];
      assert RowCommits(a + b) == h + (RowCommits(a[1..]) + RowCommits(b));
    } else {
      assert a + b == b;
    }
  }

  /** From any point on, a run only appends to the data file and to the
      messages and only adds entries to the cache. */
  lemma {:induction false} RunFromExtends(env: Env, walk: seq<WalkEntry>, i: nat, s: State)
    requires i <= |walk|
    ensures var t := RunFrom(env, walk, i, s).0;
      s.output <= t.output && s.log <= t.log && CacheGrows(s.cache, t.cache)
    decreases |walk| - i
  {
    if i < |walk| {
      var (n, f) := Step(env, s, i, walk[i]);
      StepOutput(env, s, i, walk[i]);
      StepCache(env, s, i, walk[i]);
      StepLog(env, s, i, walk[i]);
      if f.None? {
        RunFromExtends(env, walk, i + 1, n);
      }
    }
  }

  /** From any point on, a run never compiles a commit whose PDF was cached
      when it got there, and it compiles each cache key at most once. */
  lemma {:induction false} RunFromMisses(env: Env, walk: seq<WalkEntry>, i: nat, s: State)
    requires i <= |walk|
    ensures var t := RunFrom(env, walk, i, s).0;
      && (forall j :: |s.log| <= j < |t.log| && t.log[j].CacheMiss? ==> t.log[j].key !in s.cache)
      && (forall a, b :: |s.log| <= a < b < |t.log| && t.log[a].CacheMiss? && t.log[b].CacheMiss? ==>
            t.log[a].key != t.log[b].key)
    decreases |walk| - i
  {
    if i < |walk| {
      var (n, f) := Step(env, s, i, walk[i]);
      StepOutput(env, s, i, walk[i]);
      StepCache(env, s, i, walk[i]);
      StepLog(env, s, i, walk[i]);
      if f.None? {
        RunFromMisses(env, walk, i + 1, n);
        RunFromExtends(env, walk, i + 1, n);
        var t := RunFrom(env, walk, i + 1, n).0;
        assert t == RunFrom(env, walk, i, s).0;
        forall a, b | |s.log| <= a < b < |t.log| && t.log[a].CacheMiss? && t.log[b].CacheMiss?
          ensures t.log[a].key != t.log[b].key
        {
          if a < |n.log| {
            assert a == |s.log| && t.log[a] == n.log[a];
            assert t.log[a].key in n.cache;
          }
        }
      }
    }
  }

  /** From any point on, a run stops only at a walk error or at a resolved
      commit whose processing failed, never at an id that could not be
      resolved, and it reports WalkFailed exactly when the walk failed. */
  lemma {:induction false} RunFromStops(env: Env, walk: seq<WalkEntry>, i: nat, s: State)
    requires i <= |walk|
    ensures var o := RunFrom(env, walk, i, s).1;
      && i <= End(walk, o)
      && (forall j :: i <= j < End(walk, o) ==> !walk[j].WalkError?)
      && (o.Aborted? ==> i <= o.at < |walk| && !walk[o.at].Unresolved?
                         && (o.failure == WalkFailed <==> walk[o.at].WalkError?))
    decreases |walk| - i
  {
    if i < |walk| {
      var (n, f) := Step(env, s, i, walk[i]);
      StepOutput(env, s, i, walk[i]);
      if f.None? {
        RunFromStops(env, walk, i + 1, n);
        assert RunFrom(env, walk, i, s) == RunFrom(env, walk, i + 1, n);
        assert !walk[i].WalkError?;
      } else {
        assert RunFrom(env, walk, i, s) == (n, Aborted(i, f.value));
      }
    }
  }

  /** From any point on, a run appends exactly one row per resolved commit it
      gets through, in walk order, and nothing but rows. */
  lemma {:induction false} RunFromRows(env: Env, walk: seq<WalkEntry>, i: nat, s: State)
    requires i <= |walk|
    ensures var (t, o) := RunFrom(env, walk, i, s);
      && i <= End(walk, o)
      && |s.output| <= |t.output| && t.output[..|s.output|] == s.output
      && (forall j :: |s.output| <= j < |t.output| ==> t.output[j].Row?)
      && RowCommits(t.output[|s.output|..]) == ResolvedCommits(walk[i..End(walk, o)])
    decreases |walk| - i
  {
    var (t, o) := RunFrom(env, walk, i, s);
    RunFromStops(env, walk, i, s);
    if i == |walk| {
      assert t.output[|s.output|..] == [];
    } else {
      var (n, f) := Step(env, s, i, walk[i]);
      StepOutput(env, s, i, walk[i]);
      if f.Some? {
        assert t.output[|s.output|..] == [];
        assert walk[i..i] == [];
      } else {
        assert (t, o) == RunFrom(env, walk, i + 1, n);
        RunFromRows(env, walk, i + 1, n);
        RowsStep(walk, i, End(walk, o), s.output, n.output, t.output);
      }
    }
  }

  /** The induction step of RunFromRows: the rows after s come from the step
      at position i, followed by the rows after n. */
  lemma RowsStep(walk: seq<WalkEntry>, i: nat, end: nat, s: seq<Line>, n: seq<Line>, t: seq<Line>)
    requires i < end <= |walk|
    requires |n| == |s| + (if walk[i].Resolved? then 1 else 0) && n[..|s|] == s
    requires walk[i].Resolved? ==> n[|s|].Row? && n[|s|].id == walk[i].commit.id && n[|s|].time == walk[i].commit.time
    requires |n| <= |t| && t[..|n|] == n
    requires forall j :: |n| <= j < |t| ==> t[j].Row?
    requires RowCommits(t[|n|..]) == ResolvedCommits(walk[i + 1..end])
    ensures t[..|s|] == s
    ensures forall j :: |s| <= j < |t| ==> t[j].Row?
    ensures RowCommits(t[|s|..]) == ResolvedCommits(walk[i..end])
  {
    ResolvedCommitsStep(walk, i, end);
    RowCommitsSplit(t, |s|, |n|);
    assert t[|s|..|n|] == n[|s|..];
    if walk[i].Resolved? {
      assert n[|s|..] == [n[|s|]];
      assert RowCommits(n[|s|..]) == [walk[i].commit];
    } else {
      assert n[|s|..] == [];
    }
  }

  /** The rows of lines[a..] are those of lines[a..b] followed by those of
      lines[b..]. */
  lemma RowCommitsSplit(lines: seq<Line>, a: nat, b: nat)
    requires a <= b <= |lines|
    ensures RowCommits(lines[a..]) == RowCommits(lines[a..b]) + RowCommits(lines[b..])
  {
    assert lines[a..] == lines[a..b] + lines[b..];
    RowCommitsAppend(lines[a..b], lines[b..]);
  }

  /** The resolved commits of walk[i..w], taken one entry at a time. */
  lemma ResolvedCommitsStep(walk: seq<WalkEntry>, i: nat, w: nat)
    requires i < w <= |walk|
    ensures ResolvedCommits(walk[i..w]) ==
      (if walk[i].Resolved? then [walk[i].commit] else []) + ResolvedCommits(walk[i + 1..w])
  {
    assert walk[i..w][0] == walk[i] && walk[i..w][1..] == walk[i + 1..w];
  }

  /** The number of resolved commits before walk position w, which is where,
      after the header, the data file holds the row of the commit at w. */
  function RowIndex(walk: seq<WalkEntry>, w: nat): nat
    requires w <= |walk|
  {
    if w == 0 then 0 else RowIndex(walk, w - 1) + (if walk[w - 1].Resolved? then 1 else 0)
  }

  /** Row j of the data file holds the page count the page counter reads
      from the PDF cached under key. */
  predicate CountedAt(env: Env, st: State, key: string, j: int) {
    && key in st.cache && 0 <= j < |st.output| && st.output[j].Row?
    && env.pageCount(st.cache[key]) == Some(st.output[j].pages)
  }

  /** A row already in the data file, and the cache entry it was counted
      from, survive the rest of a run unchanged. */
  lemma PageKept(env: Env, key: string, n: State, t: State, j: int)
    requires CountedAt(env, n, key, j)
    requires CacheGrows(n.cache, t.cache) && n.output <= t.output
    ensures CountedAt(env, t, key, j)
  {
    assert t.output[j] == n.output[j];
  }

  /** From any point on, the row a run appends for the resolved commit at walk
      position w comes after one row for each resolved commit between the
      start and w, and its page count is the one the page counter reads from
      that commit's cached PDF, which the cache still holds at the end. */
  lemma {:induction false} RunFromPages(env: Env, walk: seq<WalkEntry>, i: nat, s: State)
    requires i <= |walk|
    ensures var (t, o) := RunFrom(env, walk, i, s);
      forall w :: i <= w < End(walk, o) && walk[w].Resolved? ==>
        CountedAt(env, t, CacheKey(w, walk[w].commit.id), |s.output| + RowIndex(walk, w) - RowIndex(walk, i))
    decreases |walk| - i
  {
    var (t, o) := RunFrom(env, walk, i, s);
    if i < |walk| {
      var (n, f) := Step(env, s, i, walk[i]);
      StepOutput(env, s, i, walk[i]);
      if f.None? {
        assert (t, o) == RunFrom(env, walk, i + 1, n);
        RunFromPages(env, walk, i + 1, n);
        assert |n.output| - RowIndex(walk, i + 1) == |s.output| - RowIndex(walk, i);
        if walk[i].Resolved? {
          RunFromExtends(env, walk, i + 1, n);
          PageKept(env, CacheKey(i, walk[i].commit.id), n, t, |s.output|);
        }
      }
    }
  }

  /** key names the cached PDF of a resolved commit at a walk position from
      i up to and including end. */
  predicate NamedWithin(walk: seq<WalkEntry>, i: nat, end: nat, key: string) {
    exists j :: i <= j <= end && j < |walk| && walk[j].Resolved? && key == CacheKey(j, walk[j].commit.id)
  }

  /** From any point on, every entry a run adds to the cache is named after a
      resolved commit the run reached: one it got through, or the one it
      stopped at (whose PDF is cached when its page count or time then fails). */
  lemma {:induction false} RunFromCaches(env: Env, walk: seq<WalkEntry>, i: nat, s: State)
    requires i <= |walk|
    ensures var (t, o) := RunFrom(env, walk, i, s);
      forall k :: k in t.cache && k !in s.cache ==> NamedWithin(walk, i, End(walk, o), k)
    decreases |walk| - i
  {
    if i < |walk| {
      var (t, o) := RunFrom(env, walk, i, s);
      var (n, f) := Step(env, s, i, walk[i]);
      StepCache(env, s, i, walk[i]);
      RunFromStops(env, walk, i, s);
      if f.None? {
        RunFromCaches(env, walk, i + 1, n);
        assert (t, o) == RunFrom(env, walk, i + 1, n);
        forall k | k in t.cache && k !in s.cache
          ensures NamedWithin(walk, i, End(walk, o), k)
        {
          if k in n.cache {
            assert walk[i].Resolved? && k == CacheKey(i, walk[i].commit.id);
          } else {
            var j :| i + 1 <= j <= End(walk, o) && j < |walk| && walk[j].Resolved? && k == CacheKey(j, walk[j].commit.id);
          }
        }
      } else {
        assert (t, o) == (n, Aborted(i, f.value));
        forall k | k in t.cache && k !in s.cache
          ensures NamedWithin(walk, i, End(walk, o), k)
        {
          assert walk[i].Resolved? && k == CacheKey(i, walk[i].commit.id);
        }
      }
    }
  }

  /** The walk lists resolved commits oldest first. */
  predicate OldestFirst(walk: seq<WalkEntry>) {
    forall a, b :: 0 <= a < b < |walk| && walk[a].Resolved? && walk[b].Resolved? ==>
      walk[a].commit.time <= walk[b].commit.time
  }

  /** The rows of a data file are in non-decreasing time order. */
  predicate Chronological(lines: seq<Line>) {
    forall a, b :: 0 <= a < b < |lines| && lines[a].Row? && lines[b].Row? ==> lines[a].time <= lines[b].time
  }

  lemma {:induction false} RunFromChronological(env: Env, walk: seq<WalkEntry>, i: nat, s: State)
    requires i <= |walk| && OldestFirst(walk) && Chronological(s.output)
    requires forall a, j :: 0 <= a < |s.output| && s.output[a].Row? && i <= j < |walk| && walk[j].Resolved? ==>
      s.output[a].time <= walk[j].commit.time
    ensures Chronological(RunFrom(env, walk, i, s).0.output)
    decreases |walk| - i
  {
    if i < |walk| {
      var (n, f) := Step(env, s, i, walk[i]);
      StepOutput(env, s, i, walk[i]);
      if f.None? {
        RunFromChronological(env, walk, i + 1, n);
      }
    }
  }

  // ---------------------------------------------------------------------------
  // Running the tool again.

  /** Rerunning the rest of a walk that completed, over the cache that run
      left, hits the cache for every commit: it compiles nothing, changes
      neither the cache nor the workspace, and appends the rows the first run
      appended. */
  lemma {:induction false} RerunFrom(env: Env, walk: seq<WalkEntry>, i: nat, s: State, t: State)
    requires i <= |walk|
    requires RunFrom(env, walk, i, s).1 == Completed
    requires t.cache == RunFrom(env, walk, i, s).0.cache
    ensures var first := RunFrom(env, walk, i, s).0;
            var (second, o) := RunFrom(env, walk, i, t);
      && o == Completed
      && second.cache == t.cache && second.workspace == t.workspace
      && |s.output| <= |first.output|
      && second.output == t.output + first.output[|s.output|..]
      && forall j :: |t.log| <= j < |second.log| ==> !second.log[j].CacheMiss?
    decreases |walk| - i
  {
    if i < |walk| {
      var (n, f) := Step(env, s, i, walk[i]);
      StepOutput(env, s, i, walk[i]);
      assert f.None? && RunFrom(env, walk, i, s) == RunFrom(env, walk, i + 1, n);
      RunFromExtends(env, walk, i + 1, n);
      var first := RunFrom(env, walk, i + 1, n).0;
      assert !walk[i].WalkError?;
      var (tn, ev) := match walk[i] {
        case Resolved(c) =>
          var key := CacheKey(i, c.id);
          (t.(log := t.log + [CacheHit(key)], output := t.output + [n.output[|s.output|]]), CacheHit(key))
        case Unresolved(oid) => (t.(log := t.log + [LookupError(oid)]), LookupError(oid))
      };
      if walk[i].Resolved? {
        var key := CacheKey(i, walk[i].commit.id);
        assert key in t.cache && t.cache[key] == n.cache[key];
      }
      assert Step(env, t, i, walk[i]) == (tn, None);
      assert RunFrom(env, walk, i, t) == RunFrom(env, walk, i + 1, tn);
      RerunFrom(env, walk, i + 1, n, tn);
      RunFromExtends(env, walk, i + 1, tn);
      RerunJoin(t, tn, RunFrom(env, walk, i + 1, tn).0, s.output, n.output, first.output, ev);
    }
  }

  /** The induction step of RerunFrom: what the rerun's step appended to t,
      followed by what the rest of the rerun appended. */
  lemma RerunJoin(t: State, tn: State, second: State, s: seq<Line>, n: seq<Line>, first: seq<Line>, ev: Event)
    requires |s| <= |n| && n <= first
    requires tn.output == t.output + n[|s|..]
    requires second.output == tn.output + first[|n|..]
    requires tn.log == t.log + [ev] && !ev.CacheMiss? && tn.log <= second.log
    requires forall j :: |tn.log| <= j < |second.log| ==> !second.log[j].CacheMiss?
    ensures |s| <= |first| && second.output == t.output + first[|s|..]
    ensures forall j :: |t.log| <= j < |second.log| ==> !second.log[j].CacheMiss?
  {
    assert first[|s|..] == n[|s|..] + first[|n|..];
    assert second.log[|t.log|] == ev;
  }

  /** Running the tool a second time over the same walk, with the cache the
      first, completed run left, compiles nothing, leaves the cache as it is
      and writes the same data file. */
  lemma RerunDoesNoBuilds(env: Env, walk: seq<WalkEntry>, cache0: map<string, Bytes>)
    requires Run(env, walk, cache0).1 == Completed
    ensures var first := Run(env, walk, cache0).0;
            var (second, o) := Run(env, walk, first.cache);
      && o == Completed
      && second.cache == first.cache
      && second.output == first.output
      && forall j :: 0 <= j < |second.log| ==> !second.log[j].CacheMiss?
  {
    var first := Run(env, walk, cache0).0;
    RunFromExtends(env, walk, 0, InitialState(cache0));
    RerunFrom(env, walk, 0, InitialState(cache0), InitialState(first.cache));
    assert first.output == [Header] + first.output[1..];
  }

  // ---------------------------------------------------------------------------
  // A whole run.

  /** The data file of a run holds the header once, first, followed by one
      row per resolved commit the run got through, in walk order; ids that
      could not be resolved are skipped without stopping the run. */
  lemma RunOutput(env: Env, walk: seq<WalkEntry>, cache0: map<string, Bytes>)
    ensures var (t, o) := Run(env, walk, cache0);
      && |t.output| >= 1 && t.output[0] == Header
      && (forall j :: 1 <= j < |t.output| ==> t.output[j].Row?)
      && RowCommits(t.output) == ResolvedCommits(walk[..End(walk, o)])
      && (forall j :: 0 <= j < End(walk, o) ==> !walk[j].WalkError?)
      && (o.Aborted? ==> o.at < |walk| && !walk[o.at].Unresolved?)
  {
    var (t, o) := Run(env, walk, cache0);
    RunFromStops(env, walk, 0, InitialState(cache0));
    RunFromRows(env, walk, 0, InitialState(cache0));
    assert t.output == [Header] + t.output[1..];
    RowCommitsAppend([Header], t.output[1..]);
    assert walk[0..End(walk, o)] == walk[..End(walk, o)];
  }

  /** From any point on, when the tools never fail and the rest of the walk
      holds no error and no negative commit time, the run goes on to the end
      of the walk: an id that cannot be resolved and a commit that is
      processed successfully both let it continue. */
  lemma {:induction false} RunFromCompletes(env: Env, walk: seq<WalkEntry>, i: nat, s: State)
    requires i <= |walk| && ToolsSucceed(env) && WellFormedFrom(walk, i)
    ensures RunFrom(env, walk, i, s).1 == Completed
    decreases |walk| - i
  {
    if i < |walk| {
      var (n, f) := Step(env, s, i, walk[i]);
      StepOutput(env, s, i, walk[i]);
      if walk[i].Resolved? {
        StepFailsOnlyOnFailure(env, s, i, walk[i].commit);
      }
      assert f.None?;
      assert RunFrom(env, walk, i, s) == RunFrom(env, walk, i + 1, n);
      RunFromCompletes(env, walk, i + 1, n);
    }
  }

  /** When the tools never fail and the walk holds no error and no negative
      commit time, a run completes, and its data file holds one row for each
      resolved commit of the whole walk, in walk order; ids that cannot be
      resolved are skipped. */
  lemma RunCompletes(env: Env, walk: seq<WalkEntry>, cache0: map<string, Bytes>)
    requires ToolsSucceed(env) && WellFormedFrom(walk, 0)
    ensures var (t, o) := Run(env, walk, cache0);
      o == Completed && RowCommits(t.output) == ResolvedCommits(walk)
  {
    RunFromCompletes(env, walk, 0, InitialState(cache0));
    RunOutput(env, walk, cache0);
    assert walk[..|walk|] == walk;
  }

  /** In the data file of a run, the row of the resolved commit at walk
      position w follows the header and one row for each resolved commit
      before w, and holds the page count the page counter reads from that
      commit's PDF, which the cache holds at the end of the run. */
  lemma RunPages(env: Env, walk: seq<WalkEntry>, cache0: map<string, Bytes>)
    ensures var (t, o) := Run(env, walk, cache0);
      forall w :: 0 <= w < End(walk, o) && walk[w].Resolved? ==>
        CountedAt(env, t, CacheKey(w, walk[w].commit.id), 1 + RowIndex(walk, w))
  {
    RunFromPages(env, walk, 0, InitialState(cache0));
  }

  /** When the walk lists commits oldest first, the rows of the data file are
      in chronological order. */
  lemma RunChronological(env: Env, walk: seq<WalkEntry>, cache0: map<string, Bytes>)
    requires OldestFirst(walk)
    ensures Chronological(Run(env, walk, cache0).0.output)
  {
    RunFromChronological(env, walk, 0, InitialState(cache0));
  }

  /** A run keeps every cached PDF it found, caches the PDF of every resolved
      commit it gets through, adds nothing else to the cache, and compiles
      only commits whose PDF was not cached, each at most once. */
  lemma RunCache(env: Env, walk: seq<WalkEntry>, cache0: map<string, Bytes>)
    ensures var (t, o) := Run(env, walk, cache0);
      && CacheGrows(cache0, t.cache)
      && (forall j :: 0 <= j < End(walk, o) && walk[j].Resolved? ==> CacheKey(j, walk[j].commit.id) in t.cache)
      && (forall k :: k in t.cache && k !in cache0 ==>
            exists j :: 0 <= j <= End(walk, o) && j < |walk| && walk[j].Resolved? && k == CacheKey(j, walk[j].commit.id))
      && (forall j :: 0 <= j < |t.log| && t.log[j].CacheMiss? ==> t.log[j].key !in cache0)
      && (forall a, b :: 0 <= a < b < |t.log| && t.log[a].CacheMiss? && t.log[b].CacheMiss? ==>
            t.log[a].key != t.log[b].key)
  {
    RunFromExtends(env, walk, 0, InitialState(cache0));
    RunFromMisses(env, walk, 0, InitialState(cache0));
    RunFromPages(env, walk, 0, InitialState(cache0));
    RunFromCaches(env, walk, 0, InitialState(cache0));
  }
}
