/** Handlers and the files they came from, over whole runs. */
module RegistryMatches {
  import opened Wrappers
  import opened Texts
  import opened SortedKeys
  import opened RegistrySpec
  import opened RegistryRuns

  // ---------- duplicates ----------

  ghost predicate Distinct(files: seq<Text>) {
    forall i, j :: 0 <= i < j < |files| ==> files[i] != files[j]
  }

  lemma {:induction false} InOrderDistinct(files: set<Text>)
    ensures Distinct(InOrder(files))
    decreases |files|
  {
    if files != {} {
      InOrderDistinct(files - {Least(files)});
    }
  }

  lemma FirstDistinct(files: seq<Text>)
    requires files != [] && Distinct(files)
    ensures files[0] !in files[1..] && Distinct(files[1..])
  {
    var rest := files[1..];
    assert forall i :: 0 <= i < |rest| ==> rest[i] == files[i + 1];
  }

  // Retrying a file leaves what concerns the other ones as it was: their digests, whether they are
  // read again, and whether they have a handler.
  lemma AddedOthers(env: Env, s: Registry, file: Text, content: Option<Text>, other: Text)
    requires other != file
    ensures var s' := Added(env, s, file, content, false);
      && (other in s'.fileHashes <==> other in s.fileHashes)
      && (other in s.fileHashes ==> s'.fileHashes[other] == s.fileHashes[other])
      && (KeyOfFile(s'.handlers, other).None? <==> KeyOfFile(s.handlers, other).None?)
  {
    hide Lower, KeyOfFile;
    var s' := Added(env, s, file, content, false);
    AddedOthersKept(env, s, file, content, false);
    assert forall k :: k in s'.handlers && k !in s.handlers ==> s'.handlers[k].file == file;
  }

  lemma SameCheck(env: Env, s: Registry, s': Registry, file: Text, content: Option<Text>)
    requires file in s'.fileHashes <==> file in s.fileHashes
    requires file in s.fileHashes ==> s'.fileHashes[file] == s.fileHashes[file]
    ensures Checked(env, s', file, content).None? <==> Checked(env, s, file, content).None?
  {
  }

  ghost predicate NoneChanged(env: Env, s: Registry, disk: map<Text, Text>, files: seq<Text>) {
    forall f :: f in files ==> Checked(env, s, f, ContentOn(disk, f)).None?
  }

  lemma NextUnchanged(env: Env, s: Registry, disk: map<Text, Text>, files: seq<Text>)
    requires files != [] && Distinct(files)
    ensures NoneChanged(env, s, disk, files) <==>
            Checked(env, s, files[0], ContentOn(disk, files[0])).None? &&
            NoneChanged(env, Added(env, s, files[0], ContentOn(disk, files[0]), false), disk, files[1..])
  {
    hide Added, Checked;
    FirstDistinct(files);
    var s' := Added(env, s, files[0], ContentOn(disk, files[0]), false);
    forall f | f in files[1..]
      ensures Checked(env, s', f, ContentOn(disk, f)).None? <==> Checked(env, s, f, ContentOn(disk, f)).None?
    {
      AddedOthers(env, s, files[0], ContentOn(disk, files[0]), f);
      SameCheck(env, s, s', f, ContentOn(disk, f));
    }
    assert forall f :: f in files <==> f == files[0] || f in files[1..];
  }

  lemma {:induction false} RetriedDigest(env: Env, s: Registry, disk: map<Text, Text>, files: seq<Text>, other: Text)
    requires other !in files
    ensures var s' := Retried(env, s, disk, files);
      && (other in s'.fileHashes <==> other in s.fileHashes)
      && (other in s.fileHashes ==> s'.fileHashes[other] == s.fileHashes[other])
    decreases |files|
  {
    hide Added;
    if files != [] {
      AddedOthers(env, s, files[0], ContentOn(disk, files[0]), other);
      RetriedDigest(env, Added(env, s, files[0], ContentOn(disk, files[0]), false), disk, files[1..], other);
    }
  }

  // A file that is read again has another digest afterwards.
  lemma AddedDigest(env: Env, s: Registry, file: Text, content: Option<Text>)
    ensures var s' := Added(env, s, file, content, false);
      if Checked(env, s, file, content).None? then s' == s
      else file in s'.fileHashes && (file in s.fileHashes ==> s'.fileHashes[file] != s.fileHashes[file])
  {
    hide Lower;
  }

  // Retrying duplicates does nothing exactly when none of their files has changed, even if the id of
  // one of them is no longer taken.
  lemma {:induction false} RetryDoesNothing(env: Env, s: Registry, disk: map<Text, Text>, files: seq<Text>)
    requires Distinct(files)
    ensures Retried(env, s, disk, files) == s <==> NoneChanged(env, s, disk, files)
    decreases |files|
  {
    hide Added, Checked, NoneChanged;
    if files == [] {
      NothingToChange(env, s, disk);
    } else {
      var s' := Added(env, s, files[0], ContentOn(disk, files[0]), false);
      FirstDistinct(files);
      NextUnchanged(env, s, disk, files);
      AddedDigest(env, s, files[0], ContentOn(disk, files[0]));
      RetryDoesNothing(env, s', disk, files[1..]);
      RetriedDigest(env, s', disk, files[1..], files[0]);
    }
  }

  lemma NothingToChange(env: Env, s: Registry, disk: map<Text, Text>)
    ensures NoneChanged(env, s, disk, [])
  {
  }

  // A duplicate that is tried again stays one exactly when its file has not changed, cannot be parsed,
  // or names an id that is taken.
  lemma StaysDuplicate(env: Env, s: Registry, file: Text, content: Option<Text>)
    requires file in s.duplicate
    ensures file in Added(env, s, file, content, false).duplicate <==>
            Checked(env, s, file, content).None? || env.parse(content.value).None? ||
            Lower(env.parse(content.value).value.0) in s.handlers
  {
    hide Lower;
  }

  // Two files of one id are read: the second one is a duplicate.
  lemma SecondIsDuplicate(env: Env, f: Text, g: Text, c: Text, d: Text, id: Text, initial: bool)
    requires !env.backgroundInit && f != g && IsConfigName(f) && IsConfigName(g)
    requires |c| < MAX_SIZE && |d| < MAX_SIZE
    requires env.parse(c) == Some((id, false)) && env.parse(d) == Some((id, false))
    ensures Run(env, [Create(f, Some(c), initial), Create(g, Some(d), initial)]) ==
            Registry(map[Lower(id) := Handler(id, f, c)], {g}, map[f := env.hash(c), g := env.hash(d)], false, [])
  {
    hide Lower, IsConfigName, Run;
    var e1 := [Create(f, Some(c), initial)];
    EmptyRun(env);
    OneMoreEvent(env, [], Create(f, Some(c), initial));
    assert [] + e1 == e1;
    OneMoreEvent(env, e1, Create(g, Some(d), initial));
    assert e1 + [Create(g, Some(d), initial)] == [Create(f, Some(c), initial), Create(g, Some(d), initial)];
  }

  lemma OnlyHandlerRemoved(f: Text, g: Text, h: Handler, x: Text, y: Text)
    requires f != g && h.file == f
    ensures Removed(Registry(map[Lower(h.id) := h], {g}, map[f := x, g := y], false, []), f) ==
            Registry(map[], {g}, map[g := y], false, [])
  {
    hide Lower, KeyOfFile;
    var handlers := map[Lower(h.id) := h];
    assert Lower(h.id) in handlers && handlers[Lower(h.id)].file == f;
    assert map[f := x, g := y] - {f} == map[g := y];
    assert handlers - {Lower(h.id)} == map[];
  }

  // A run after which an id is free and the file that should have it is still a duplicate: the file
  // that had the id goes away, and the other one, unchanged, is tried again in vain.
  lemma RetryMissesDuplicate(env: Env, f: Text, g: Text, c: Text, d: Text, id: Text, initial: bool)
    requires !env.backgroundInit && f != g && IsConfigName(f) && IsConfigName(g)
    requires |c| < MAX_SIZE && |d| < MAX_SIZE
    requires env.parse(c) == Some((id, false)) && env.parse(d) == Some((id, false))
    ensures
      var events := [Create(f, Some(c), initial), Create(g, Some(d), initial), Delete(f), Retry(map[g := d])];
      var s := Run(env, events);
      && s.handlers == map[] && s.duplicate == {g} && !s.reloadRequired
      && g in s.fileHashes && s.fileHashes[g] == env.hash(d) && !Served(env, s, g, d)
  {
    hide Lower, IsConfigName, Run, Removed, Retried;
    var e2 := [Create(f, Some(c), initial), Create(g, Some(d), initial)];
    var s3 := Registry(map[], {g}, map[g := env.hash(d)], false, []);
    SecondIsDuplicate(env, f, g, c, d, id, initial);
    OneMoreEvent(env, e2, Delete(f));
    OnlyHandlerRemoved(f, g, Handler(id, f, c), env.hash(c), env.hash(d));
    OneMoreEvent(env, e2 + [Delete(f)], Retry(map[g := d]));
    InOrderDistinct({g});
    RetryDoesNothing(env, s3, map[g := d], InOrder({g}));
    assert e2 + [Delete(f)] + [Retry(map[g := d])] ==
           [Create(f, Some(c), initial), Create(g, Some(d), initial), Delete(f), Retry(map[g := d])];
  }

  // ---------- handlers and the files they came from ----------

  ghost predicate Matched(env: Env, s: Registry) {
    forall k :: k in s.handlers ==> HandlerMatches(env, s, s.handlers[k])
  }

  // Then no file has two handlers.
  lemma OneHandlerPerFile(env: Env, s: Registry, k: Text, k': Text)
    requires Injective(env) && KeysMatch(s) && Matched(env, s)
    requires k in s.handlers && k' in s.handlers && s.handlers[k].file == s.handlers[k'].file
    ensures k == k'
  {
    assert HandlerMatches(env, s, s.handlers[k]) && HandlerMatches(env, s, s.handlers[k']);
  }

  // Whether an event leaves handlers matching their files. A served file must not be added or retried
  // with a new content. When it is modified and names an id that is not served, the new content must be
  // readable and enabled, and the old id must be in lower case.
  predicate KeepsMatch(env: Env, s: Registry, e: Event) {
    match e
    case Create(file, content, _) =>
      !IsConfigName(file) || Checked(env, s, file, content).None? || KeyOfFile(s.handlers, file).None?
    case Modify(file, content) =>
      !IsConfigName(file) || Checked(env, s, file, content).None? ||
      (match KeyOfFile(s.handlers, file)
       case None => true
       case Some(k) =>
         match env.parse(content.value)
         case None => false
         case Some((id, ignored)) => Lower(id) in s.handlers || (!ignored && IsLower(s.handlers[k].id)))
    case Delete(_) => true
    case Retry(disk) =>
      forall f :: f in s.duplicate ==> Checked(env, s, f, ContentOn(disk, f)).None? || KeyOfFile(s.handlers, f).None?
    case RunTask(_) => true
  }

  // A changed digest of its file leaves a handler that is still there behind.
  lemma StaleHandler(env: Env, s: Registry, s': Registry, k: Text)
    requires Matched(env, s) && k in s.handlers && k in s'.handlers && s'.handlers[k] == s.handlers[k]
    requires s.handlers[k].file in s'.fileHashes
    requires s'.fileHashes[s.handlers[k].file] != s.fileHashes[s.handlers[k].file]
    ensures !Matched(env, s')
  {
    assert HandlerMatches(env, s, s.handlers[k]);
    assert !HandlerMatches(env, s', s'.handlers[k]);
  }

  lemma AddedMatch(env: Env, s: Registry, file: Text, content: Option<Text>, initialUpdate: bool)
    requires Synchronous(env, s) && KeysMatch(s) && Matched(env, s) && !s.reloadRequired
    ensures var s' := Added(env, s, file, content, initialUpdate);
      s'.reloadRequired || Matched(env, s') <==>
      Checked(env, s, file, content).None? || KeyOfFile(s.handlers, file).None?
  {
    hide Lower, KeyOfFile;
    var s' := Added(env, s, file, content, initialUpdate);
    AddedOthersKept(env, s, file, content, initialUpdate);
    if Checked(env, s, file, content).Some? {
      match KeyOfFile(s.handlers, file)
      case Some(k) =>
        assert HandlerMatches(env, s, s.handlers[k]);
        StaleHandler(env, s, s', k);
      case None =>
        forall k | k in s'.handlers ensures HandlerMatches(env, s', s'.handlers[k]) {
          assert k in s.handlers ==> HandlerMatches(env, s, s.handlers[k]);
        }
    }
  }

  lemma ModifiedMatch(env: Env, s: Registry, file: Text, content: Option<Text>)
    requires Injective(env) && Synchronous(env, s) && KeysMatch(s) && Matched(env, s) && !s.reloadRequired
    requires IsConfigName(file)
    ensures var s' := Modified(env, s, file, content);
      s'.reloadRequired || Matched(env, s') <==> KeepsMatch(env, s, Modify(file, content))
  {
    hide Lower, KeyOfFile, Injective, IsConfigName;
    var s' := Modified(env, s, file, content);
    if Checked(env, s, file, content).Some? {
      match KeyOfFile(s.handlers, file)
      case None =>
        UnservedModified(env, s, file, content);
      case Some(k) =>
        ServedModified(env, s, file, content, k);
    }
  }

  lemma UnservedModified(env: Env, s: Registry, file: Text, content: Option<Text>)
    requires Synchronous(env, s) && Matched(env, s)
    requires Checked(env, s, file, content).Some? && KeyOfFile(s.handlers, file).None?
    ensures Modified(env, s, file, content).reloadRequired || Matched(env, Modified(env, s, file, content))
  {
    hide Lower, KeyOfFile;
    var s' := Modified(env, s, file, content);
    forall k | k in s'.handlers && !s'.reloadRequired ensures HandlerMatches(env, s', s'.handlers[k]) {
      assert k in s.handlers ==> HandlerMatches(env, s, s.handlers[k]);
    }
  }

  lemma ServedModified(env: Env, s: Registry, file: Text, content: Option<Text>, k: Text)
    requires Injective(env) && Synchronous(env, s) && KeysMatch(s) && Matched(env, s) && !s.reloadRequired
    requires Checked(env, s, file, content).Some? && KeyOfFile(s.handlers, file) == Some(k)
    ensures var s' := Modified(env, s, file, content);
      s'.reloadRequired || Matched(env, s') <==>
      (env.parse(content.value).Some? &&
       var (id, ignored) := env.parse(content.value).value;
       Lower(id) in s.handlers || (!ignored && IsLower(s.handlers[k].id)))
  {
    hide Lower, KeyOfFile, Injective;
    var s' := Modified(env, s, file, content);
    var id2 := s.handlers[k].id;
    forall j | j in s.handlers && s.handlers[j].file == file ensures j == k {
      OneHandlerPerFile(env, s, j, k);
    }
    if env.parse(content.value).Some? {
      LowerIsIdempotent(env.parse(content.value).value.0);
    }
    LowerIsIdempotent(id2);
    assert HandlerMatches(env, s, s.handlers[k]);
    if k in s'.handlers && s'.handlers[k] == s.handlers[k] && !s'.reloadRequired {
      StaleHandler(env, s, s', k);
    } else {
      forall j | j in s'.handlers && !s'.reloadRequired ensures HandlerMatches(env, s', s'.handlers[j]) {
        assert j in s.handlers ==> HandlerMatches(env, s, s.handlers[j]);
      }
    }
  }

  lemma RemovedMatch(env: Env, s: Registry, file: Text)
    requires Injective(env) && KeysMatch(s) && Matched(env, s)
    ensures Matched(env, Removed(s, file))
  {
    hide Lower, KeyOfFile, Injective;
    var s' := Removed(s, file);
    forall j | j in s'.handlers ensures HandlerMatches(env, s', s'.handlers[j]) {
      assert HandlerMatches(env, s, s.handlers[j]);
      if s.handlers[j].file == file {
        OneHandlerPerFile(env, s, j, KeyOfFile(s.handlers, file).value);
      }
    }
  }

  ghost predicate RetryKeeps(env: Env, s: Registry, disk: map<Text, Text>, files: seq<Text>) {
    forall f :: f in files ==> Checked(env, s, f, ContentOn(disk, f)).None? || KeyOfFile(s.handlers, f).None?
  }

  lemma NextKeeps(env: Env, s: Registry, disk: map<Text, Text>, files: seq<Text>)
    requires files != [] && Distinct(files)
    ensures RetryKeeps(env, s, disk, files) <==>
            (Checked(env, s, files[0], ContentOn(disk, files[0])).None? || KeyOfFile(s.handlers, files[0]).None?) &&
            RetryKeeps(env, Added(env, s, files[0], ContentOn(disk, files[0]), false), disk, files[1..])
  {
    hide Added, Checked, KeyOfFile;
    FirstDistinct(files);
    var s' := Added(env, s, files[0], ContentOn(disk, files[0]), false);
    forall f | f in files[1..]
      ensures Checked(env, s', f, ContentOn(disk, f)).None? <==> Checked(env, s, f, ContentOn(disk, f)).None?
      ensures KeyOfFile(s'.handlers, f).None? <==> KeyOfFile(s.handlers, f).None?
    {
      AddedOthers(env, s, files[0], ContentOn(disk, files[0]), f);
      SameCheck(env, s, s', f, ContentOn(disk, f));
    }
    assert forall f :: f in files <==> f == files[0] || f in files[1..];
  }

  // A retry asks for no reload.
  lemma AddedNoReload(env: Env, s: Registry, file: Text, content: Option<Text>)
    requires Synchronous(env, s)
    ensures var s' := Added(env, s, file, content, false);
      s'.reloadRequired == s.reloadRequired && Synchronous(env, s')
  {
    hide Lower;
  }

  // Handlers that do not match stay, and do not match afterwards either.
  lemma {:induction false} RetriedStale(env: Env, s: Registry, disk: map<Text, Text>, files: seq<Text>, k: Text)
    requires Synchronous(env, s) && k in s.handlers
    requires !HandlerMatches(env, s, s.handlers[k]) && s.handlers[k].file !in files
    ensures !Matched(env, Retried(env, s, disk, files))
    ensures Retried(env, s, disk, files).reloadRequired == s.reloadRequired
    decreases |files|
  {
    hide Added;
    if files != [] {
      var s' := Added(env, s, files[0], ContentOn(disk, files[0]), false);
      AddedNoReload(env, s, files[0], ContentOn(disk, files[0]));
      AddedOthersKept(env, s, files[0], ContentOn(disk, files[0]), false);
      AddedOthers(env, s, files[0], ContentOn(disk, files[0]), s.handlers[k].file);
      RetriedStale(env, s', disk, files[1..], k);
    }
  }

  // A handler that a retried file leaves behind was made from that file.
  lemma AddedStale(env: Env, s: Registry, file: Text, content: Option<Text>) returns (k: Text)
    requires Matched(env, s) && Checked(env, s, file, content).Some? && KeyOfFile(s.handlers, file).Some?
    ensures var s' := Added(env, s, file, content, false);
      k in s'.handlers && s'.handlers[k].file == file && !HandlerMatches(env, s', s'.handlers[k])
  {
    hide Lower, KeyOfFile;
    k := KeyOfFile(s.handlers, file).value;
    AddedOthersKept(env, s, file, content, false);
    AddedDigest(env, s, file, content);
    assert HandlerMatches(env, s, s.handlers[k]);
  }

  // Retrying duplicates keeps handlers matching their files exactly when no changed file among them
  // already has a handler.
  lemma {:induction false} RetriedMatch(env: Env, s: Registry, disk: map<Text, Text>, files: seq<Text>)
    requires Synchronous(env, s) && KeysMatch(s) && Matched(env, s) && !s.reloadRequired && Distinct(files)
    ensures Retried(env, s, disk, files).reloadRequired || Matched(env, Retried(env, s, disk, files)) <==>
            RetryKeeps(env, s, disk, files)
    decreases |files|
  {
    hide Added, Checked, KeyOfFile, RetryKeeps, Matched, KeysMatch, HandlerMatches;
    if files == [] {
      NoneToKeep(env, s, disk);
    } else {
      var content := ContentOn(disk, files[0]);
      var s' := Added(env, s, files[0], content, false);
      FirstDistinct(files);
      NextKeeps(env, s, disk, files);
      AddedMatch(env, s, files[0], content, false);
      AddedNoReload(env, s, files[0], content);
      AddedKeysMatch(env, s, files[0], content, false);
      if Matched(env, s') {
        RetriedMatch(env, s', disk, files[1..]);
      } else {
        var k := AddedStale(env, s, files[0], content);
        RetriedStale(env, s', disk, files[1..], k);
      }
    }
  }

  lemma NoneToKeep(env: Env, s: Registry, disk: map<Text, Text>)
    ensures RetryKeeps(env, s, disk, [])
  {
  }

  // One event keeps handlers matching their files, or asks for a reload, exactly under that condition.
  lemma StepMatch(env: Env, s: Registry, e: Event)
    requires Injective(env) && Synchronous(env, s) && KeysMatch(s) && Matched(env, s) && !s.reloadRequired
    ensures Step(env, s, e).reloadRequired || Matched(env, Step(env, s, e)) <==> KeepsMatch(env, s, e)
  {
    hide Added, Modified, Retried, Removed, Injective, KeysMatch, Checked, KeyOfFile, Lower, Matched, IsConfigName;
    match e
    case Create(file, content, initialUpdate) =>
      AddedMatch(env, s, file, content, initialUpdate);
    case Modify(file, content) =>
      if IsConfigName(file) {
        ModifiedMatch(env, s, file, content);
      }
    case Delete(file) =>
      RemovedMatch(env, s, file);
    case Retry(disk) =>
      InOrderDistinct(s.duplicate);
      RetriedMatch(env, s, disk, InOrder(s.duplicate));
    case RunTask(_) =>
  }

  // Every event of the run met the condition, as long as no reload was asked for.
  ghost predicate RunKeeps(env: Env, events: seq<Event>) {
    events == [] ||
    (var init := events[..|events| - 1];
     RunKeeps(env, init) &&
     (Run(env, init).reloadRequired || KeepsMatch(env, Run(env, init), events[|events| - 1])))
  }

  // After every event of the run, handlers match their files, or a reload is requested.
  ghost predicate AlwaysMatched(env: Env, events: seq<Event>) {
    forall n :: 0 <= n <= |events| ==> Run(env, events[..n]).reloadRequired || Matched(env, Run(env, events[..n]))
  }

  lemma MatchedByLast(env: Env, events: seq<Event>)
    requires events != []
    ensures AlwaysMatched(env, events) <==>
            AlwaysMatched(env, events[..|events| - 1]) &&
            (Run(env, events).reloadRequired || Matched(env, Run(env, events)))
  {
    hide Run, Matched;
    var init := events[..|events| - 1];
    assert events[..|events|] == events;
    assert forall n :: 0 <= n <= |init| ==> init[..n] == events[..n];
    if AlwaysMatched(env, events) {
      assert Run(env, events[..|events|]).reloadRequired || Matched(env, Run(env, events[..|events|]));
      forall n | 0 <= n <= |init| ensures Run(env, init[..n]).reloadRequired || Matched(env, Run(env, init[..n])) {
        assert Run(env, events[..n]).reloadRequired || Matched(env, Run(env, events[..n]));
      }
    }
  }

  lemma LastMatched(env: Env, events: seq<Event>)
    requires AlwaysMatched(env, events)
    ensures Run(env, events).reloadRequired || Matched(env, Run(env, events))
  {
    assert events[..|events|] == events;
  }

  // Over every run each handler was always made from what was last read from its file, until a reload
  // is asked for, exactly when every event met the condition.
  lemma {:induction false} RunMatchedExactly(env: Env, events: seq<Event>)
    requires Injective(env) && !env.backgroundInit
    ensures AlwaysMatched(env, events) <==> RunKeeps(env, events)
  {
    hide Step, KeepsMatch, Accounted, Matched, AlwaysMatched, Injective, KeysMatch;
    if events == [] {
      NothingMatched(env);
    } else {
      var init, e := events[..|events| - 1], events[|events| - 1];
      RunMatchedExactly(env, init);
      MatchedByLast(env, events);
      RunAccounted(env, init);
      RunKeysMatch(env, init);
      if AlwaysMatched(env, init) {
        LastMatched(env, init);
        if Run(env, init).reloadRequired {
          ReloadStays(env, Run(env, init), e);
        } else {
          StepMatch(env, Run(env, init), e);
        }
      }
    }
  }

  lemma NothingMatched(env: Env)
    ensures AlwaysMatched(env, [])
  {
  }

  // At the end of such a run no file has two handlers, until a reload is asked for.
  lemma RunMatched(env: Env, events: seq<Event>)
    requires Injective(env) && !env.backgroundInit && RunKeeps(env, events)
    ensures var s := Run(env, events);
      s.reloadRequired || (Matched(env, s) && OneEach(s))
  {
    hide Step, KeepsMatch, HandlerMatches, Run;
    var s := Run(env, events);
    RunMatchedExactly(env, events);
    LastMatched(env, events);
    RunKeysMatch(env, events);
    if !s.reloadRequired {
      forall k, k' | k in s.handlers && k' in s.handlers && s.handlers[k].file == s.handlers[k'].file ensures k == k' {
        OneHandlerPerFile(env, s, k, k');
      }
    }
  }

  // ---------- one handler for each file ----------

  // No file has two handlers.
  predicate OneEach(s: Registry) {
    forall k, k' :: k in s.handlers && k' in s.handlers && s.handlers[k].file == s.handlers[k'].file ==> k == k'
  }

  // A file with a handler does not get another one: it is read again, enabled, and its id is free.
  predicate GetsAnother(env: Env, s: Registry, file: Text, content: Option<Text>) {
    && Checked(env, s, file, content).Some? && KeyOfFile(s.handlers, file).Some? && env.parse(content.value).Some?
    && var (id, ignored) := env.parse(content.value).value;
       !ignored && Lower(id) !in s.handlers
  }

  predicate RetryKeepsOne(env: Env, s: Registry, disk: map<Text, Text>, files: seq<Text>)
    decreases |files|
  {
    files == [] ||
    (!GetsAnother(env, s, files[0], ContentOn(disk, files[0])) &&
     RetryKeepsOne(env, Added(env, s, files[0], ContentOn(disk, files[0]), false), disk, files[1..]))
  }

  // Whether an event leaves one handler for each file. A changed file with a new id loses its old
  // handler only when the old id is in lower case.
  predicate KeepsOne(env: Env, s: Registry, e: Event) {
    match e
    case Create(file, content, _) => !IsConfigName(file) || !GetsAnother(env, s, file, content)
    case Modify(file, content) =>
      !IsConfigName(file) || !GetsAnother(env, s, file, content) ||
      IsLower(s.handlers[KeyOfFile(s.handlers, file).value].id)
    case Delete(_) => true
    case Retry(disk) => RetryKeepsOne(env, s, disk, InOrder(s.duplicate))
    case RunTask(_) => true
  }

  lemma FewerHandlers(s: Registry, s': Registry)
    requires OneEach(s) && forall k :: k in s'.handlers ==> k in s.handlers && s'.handlers[k] == s.handlers[k]
    ensures OneEach(s')
  {
  }

  lemma AddedOne(env: Env, s: Registry, file: Text, content: Option<Text>, initialUpdate: bool)
    requires Synchronous(env, s) && OneEach(s)
    ensures OneEach(Added(env, s, file, content, initialUpdate)) <==> !GetsAnother(env, s, file, content)
  {
    hide Lower, KeyOfFile;
    var s' := Added(env, s, file, content, initialUpdate);
    if GetsAnother(env, s, file, content) {
      var k, key := KeyOfFile(s.handlers, file).value, Lower(env.parse(content.value).value.0);
      assert s'.handlers[k].file == file && s'.handlers[key].file == file;
    }
  }

  lemma ModifiedOne(env: Env, s: Registry, file: Text, content: Option<Text>)
    requires Synchronous(env, s) && KeysMatch(s) && OneEach(s)
    ensures OneEach(Modified(env, s, file, content)) <==>
            !GetsAnother(env, s, file, content) || IsLower(s.handlers[KeyOfFile(s.handlers, file).value].id)
  {
    hide Lower, KeyOfFile;
    var s' := Modified(env, s, file, content);
    if GetsAnother(env, s, file, content) {
      var k, id := KeyOfFile(s.handlers, file).value, env.parse(content.value).value.0;
      LowerIsIdempotent(id);
      assert s'.handlers == s.handlers[Lower(id) := Handler(id, file, content.value)] - {s.handlers[k].id};
      if !IsLower(s.handlers[k].id) {
        LowerIsIdempotent(s.handlers[k].id);
        assert s'.handlers[k].file == file && s'.handlers[Lower(id)].file == file;
      }
    }
  }

  lemma RemovedOne(s: Registry, file: Text)
    requires OneEach(s)
    ensures OneEach(Removed(s, file))
  {
    hide Lower, KeyOfFile;
    FewerHandlers(s, Removed(s, file));
  }

  lemma {:induction false} TwoStay(env: Env, s: Registry, disk: map<Text, Text>, files: seq<Text>)
    requires !OneEach(s)
    ensures !OneEach(Retried(env, s, disk, files))
    decreases |files|
  {
    hide Added;
    if files != [] {
      AddedOthersKept(env, s, files[0], ContentOn(disk, files[0]), false);
      TwoStay(env, Added(env, s, files[0], ContentOn(disk, files[0]), false), disk, files[1..]);
    }
  }

  lemma {:induction false} RetriedOne(env: Env, s: Registry, disk: map<Text, Text>, files: seq<Text>)
    requires Synchronous(env, s) && OneEach(s)
    ensures OneEach(Retried(env, s, disk, files)) <==> RetryKeepsOne(env, s, disk, files)
    decreases |files|
  {
    hide Added, GetsAnother, OneEach;
    if files != [] {
      var content := ContentOn(disk, files[0]);
      var s' := Added(env, s, files[0], content, false);
      AddedOne(env, s, files[0], content, false);
      AddedNoReload(env, s, files[0], content);
      if OneEach(s') {
        RetriedOne(env, s', disk, files[1..]);
      } else {
        TwoStay(env, s', disk, files[1..]);
      }
    }
  }

  // One event leaves one handler for each file exactly under that condition, reload or not.
  lemma StepOne(env: Env, s: Registry, e: Event)
    requires Synchronous(env, s) && KeysMatch(s) && OneEach(s)
    ensures OneEach(Step(env, s, e)) <==> KeepsOne(env, s, e)
  {
    hide Added, Modified, Retried, Removed, KeysMatch, GetsAnother, KeyOfFile, Lower, OneEach, IsConfigName;
    match e
    case Create(file, content, initialUpdate) =>
      AddedOne(env, s, file, content, initialUpdate);
    case Modify(file, content) =>
      ModifiedOne(env, s, file, content);
    case Delete(file) =>
      RemovedOne(s, file);
    case Retry(disk) =>
      RetriedOne(env, s, disk, InOrder(s.duplicate));
    case RunTask(_) =>
  }

  ghost predicate AlwaysOne(env: Env, events: seq<Event>) {
    forall n :: 0 <= n <= |events| ==> OneEach(Run(env, events[..n]))
  }

  ghost predicate RunKeepsOne(env: Env, events: seq<Event>) {
    events == [] ||
    (var init := events[..|events| - 1]; RunKeepsOne(env, init) && KeepsOne(env, Run(env, init), events[|events| - 1]))
  }

  lemma OneByLast(env: Env, events: seq<Event>)
    requires events != []
    ensures AlwaysOne(env, events) <==> AlwaysOne(env, events[..|events| - 1]) && OneEach(Run(env, events))
  {
    hide Run, OneEach;
    var init := events[..|events| - 1];
    assert events[..|events|] == events;
    assert forall n :: 0 <= n <= |init| ==> init[..n] == events[..n];
    if AlwaysOne(env, events) {
      assert OneEach(Run(env, events[..|events|]));
    }
  }

  lemma NoneTwice(env: Env)
    ensures AlwaysOne(env, [])
  {
  }

  lemma LastOne(env: Env, events: seq<Event>)
    requires AlwaysOne(env, events)
    ensures OneEach(Run(env, events))
  {
    assert events[..|events|] == events;
  }

  // Over every run no file ever has two handlers, whether a reload is asked for or not, exactly when
  // every event met that condition.
  lemma {:induction false} RunOneExactly(env: Env, events: seq<Event>)
    requires !env.backgroundInit
    ensures AlwaysOne(env, events) <==> RunKeepsOne(env, events)
  {
    hide Step, KeepsOne, OneEach, AlwaysOne, KeysMatch;
    if events == [] {
      NoneTwice(env);
    } else {
      var init, e := events[..|events| - 1], events[|events| - 1];
      RunOneExactly(env, init);
      OneByLast(env, events);
      RunSynchronous(env, init);
      RunKeysMatch(env, init);
      if AlwaysOne(env, init) {
        LastOne(env, init);
        StepOne(env, Run(env, init), e);
      }
    }
  }
}
