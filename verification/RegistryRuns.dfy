/** No configuration file is lost over whole runs, and exactly where that fails. */
module RegistryRuns {
  import opened Wrappers
  import opened Texts
  import opened SortedKeys
  import opened RegistrySpec

  // Distinct contents have distinct digests.
  ghost predicate Injective(env: Env) {
    forall a, b :: env.hash(a) == env.hash(b) ==> a == b
  }

  // Adds are done at once: there are no worker threads.
  ghost predicate Synchronous(env: Env, s: Registry) {
    !env.backgroundInit && s.tasks == []
  }

  // The handler was made from the content of its file that was read last.
  predicate HandlerMatches(env: Env, s: Registry, h: Handler) {
    && h.file in s.fileHashes && s.fileHashes[h.file] == env.hash(h.content)
    && env.parse(h.content) == Some((h.id, false))
  }

  // ---------- no configuration is lost ----------

  // The configuration is served as the file's one, unless it is disabled.
  predicate Served(env: Env, s: Registry, file: Text, c: Text) {
    match env.parse(c)
    case None => true
    case Some((id, ignored)) => ignored || (Lower(id) in s.handlers && s.handlers[Lower(id)] == Handler(id, file, c))
  }

  // The handler of the configuration is still to be added by a worker thread.
  predicate Waiting(env: Env, s: Registry, file: Text, c: Text) {
    env.parse(c).Some? && Handler(env.parse(c).value.0, file, c) in s.tasks
  }

  // What was read from the file is served, known as a duplicate, or waiting.
  ghost predicate FileAccounted(env: Env, s: Registry, file: Text)
    requires file in s.fileHashes
  {
    forall c :: env.hash(c) == s.fileHashes[file] ==>
      file in s.duplicate || Served(env, s, file, c) || Waiting(env, s, file, c)
  }

  ghost predicate Accounted(env: Env, s: Registry) {
    s.reloadRequired || forall file :: file in s.fileHashes ==> FileAccounted(env, s, file)
  }

  // The two states only differ in what concerns the file.
  ghost predicate OnlyAbout(s: Registry, s': Registry, file: Text) {
    && OthersKept(s, s', {file})
    && (forall f :: f != file ==> (f in s.fileHashes <==> f in s'.fileHashes))
    && (forall f :: f != file && f in s.fileHashes ==> s'.fileHashes[f] == s.fileHashes[f])
    && (forall f :: f != file ==> (f in s.duplicate <==> f in s'.duplicate))
    && (forall h :: h in s.tasks ==> h in s'.tasks)
    && (s.reloadRequired ==> s'.reloadRequired)
  }

  lemma OthersAccounted(env: Env, s: Registry, s': Registry, file: Text)
    requires Accounted(env, s) && OnlyAbout(s, s', file)
    requires s'.reloadRequired || (file in s'.fileHashes ==> FileAccounted(env, s', file))
    ensures Accounted(env, s')
  {
    hide Lower;
    forall f | f in s'.fileHashes && f != file && !s'.reloadRequired ensures FileAccounted(env, s', f) {
      assert FileAccounted(env, s, f);
    }
  }

  lemma AddedFileAccounted(env: Env, s: Registry, file: Text, content: Option<Text>, initialUpdate: bool)
    requires Injective(env) && Checked(env, s, file, content).Some?
    ensures var s' := Added(env, s, file, content, initialUpdate);
      file in s'.fileHashes && FileAccounted(env, s', file)
  {
    hide Lower;
    var s' := Added(env, s, file, content, initialUpdate);
    assert s'.fileHashes[file] == env.hash(content.value);
    assert file in s'.duplicate || Served(env, s', file, content.value) || Waiting(env, s', file, content.value);
  }

  lemma AddedOnlyAbout(env: Env, s: Registry, file: Text, content: Option<Text>, initialUpdate: bool)
    ensures OnlyAbout(s, Added(env, s, file, content, initialUpdate), file)
  {
    hide Lower, OthersKept;
    AddedOthersKept(env, s, file, content, initialUpdate);
    OthersKeptBut(s, Added(env, s, file, content, initialUpdate), file);
  }

  lemma OthersKeptBut(s: Registry, s': Registry, file: Text)
    requires OthersKept(s, s', {})
    ensures OthersKept(s, s', {file})
  {
  }

  lemma AddedAccounted(env: Env, s: Registry, file: Text, content: Option<Text>, initialUpdate: bool)
    requires Injective(env) && Accounted(env, s)
    ensures Accounted(env, Added(env, s, file, content, initialUpdate))
  {
    hide Added, Accounted, FileAccounted, OnlyAbout, Injective;
    if Checked(env, s, file, content).Some? {
      AddedOnlyAbout(env, s, file, content, initialUpdate);
      AddedFileAccounted(env, s, file, content, initialUpdate);
      OthersAccounted(env, s, Added(env, s, file, content, initialUpdate), file);
    } else {
      NotAdded(env, s, file, content, initialUpdate);
    }
  }

  lemma NotAdded(env: Env, s: Registry, file: Text, content: Option<Text>, initialUpdate: bool)
    requires Checked(env, s, file, content).None?
    ensures Added(env, s, file, content, initialUpdate) == s
  {
  }

  lemma ModifiedOnlyAbout(env: Env, s: Registry, file: Text, content: Option<Text>)
    requires KeysMatch(s)
    ensures OnlyAbout(s, Modified(env, s, file, content), file)
  {
    hide Lower, KeyOfFile, OthersKept;
    ModifiedOthersKept(env, s, file, content);
  }

  lemma ModifiedFileAccounted(env: Env, s: Registry, file: Text, content: Option<Text>)
    requires Injective(env) && KeysMatch(s) && Checked(env, s, file, content).Some?
    ensures var s' := Modified(env, s, file, content);
      s'.reloadRequired || (file in s'.fileHashes && FileAccounted(env, s', file))
  {
    hide Lower, KeyOfFile;
    if env.parse(content.value).Some? {
      LowerIsIdempotent(env.parse(content.value).value.0);
    }
    var s' := Modified(env, s, file, content);
    assert s'.fileHashes[file] == env.hash(content.value);
    assert s'.reloadRequired || Served(env, s', file, content.value);
  }

  lemma ModifiedAccounted(env: Env, s: Registry, file: Text, content: Option<Text>)
    requires Injective(env) && Accounted(env, s) && KeysMatch(s)
    ensures Accounted(env, Modified(env, s, file, content))
  {
    hide Lower, KeyOfFile, Modified, Checked, FileAccounted, Accounted, Injective, KeysMatch, OnlyAbout;
    if Checked(env, s, file, content).Some? {
      ModifiedOnlyAbout(env, s, file, content);
      ModifiedFileAccounted(env, s, file, content);
      OthersAccounted(env, s, Modified(env, s, file, content), file);
    } else {
      NotModified(env, s, file, content);
    }
  }

  lemma NotModified(env: Env, s: Registry, file: Text, content: Option<Text>)
    requires Checked(env, s, file, content).None?
    ensures Modified(env, s, file, content) == s
  {
  }

  lemma {:induction false} RetriedAccounted(env: Env, s: Registry, disk: map<Text, Text>, files: seq<Text>)
    requires Injective(env) && Accounted(env, s)
    ensures Accounted(env, Retried(env, s, disk, files))
    decreases |files|
  {
    hide Added, Accounted, Injective;
    if files != [] {
      AddedAccounted(env, s, files[0], ContentOn(disk, files[0]), false);
      RetriedAccounted(env, Added(env, s, files[0], ContentOn(disk, files[0]), false), disk, files[1..]);
    }
  }

  lemma RemovedAccounted(env: Env, s: Registry, file: Text)
    requires Accounted(env, s) && KeysMatch(s)
    ensures Accounted(env, Removed(s, file))
  {
    hide Lower, KeyOfFile;
    assert OnlyAbout(s, Removed(s, file), file);
    OthersAccounted(env, s, Removed(s, file), file);
  }

  // ---------- background adds ----------

  // What a worker thread leaves in the list when it takes a task.
  function Others(s: Registry, task: nat): seq<Handler>
    requires task < |s.tasks|
  {
    s.tasks[..task] + s.tasks[task + 1..]
  }

  // Whether a background add loses nothing: its id is free, or what it replaces is the same handler,
  // out of date, a known duplicate, or waiting to be added itself.
  predicate KeepsAccount(env: Env, s: Registry, e: Event) {
    match e
    case RunTask(task) =>
      task < |s.tasks| && Lower(s.tasks[task].id) in s.handlers ==>
        var h := s.handlers[Lower(s.tasks[task].id)];
        h == s.tasks[task] || !HandlerMatches(env, s, h) || h.file in s.duplicate || h in Others(s, task)
    case _ => true
  }

  lemma OthersAndOne(s: Registry, task: nat, h: Handler)
    requires task < |s.tasks|
    ensures h in s.tasks <==> h in Others(s, task) || h == s.tasks[task]
  {
    assert s.tasks == s.tasks[..task] + [s.tasks[task]] + s.tasks[task + 1..];
  }

  // What a background add changes about one file.
  lemma TaskFile(env: Env, s: Registry, task: nat, file: Text, c: Text)
    requires KeysMatch(s) && task < |s.tasks|
    requires file in s.duplicate || Served(env, s, file, c) || Waiting(env, s, file, c)
    ensures var s' := Step(env, s, RunTask(task));
      && s'.duplicate == s.duplicate
      && (file in s'.duplicate || Served(env, s', file, c) || Waiting(env, s', file, c) <==>
          (Lower(s.tasks[task].id) in s.handlers ==>
            var h := s.handlers[Lower(s.tasks[task].id)];
            h == s.tasks[task] || h != Handler(h.id, file, c) || env.parse(c) != Some((h.id, false)) ||
            file in s.duplicate || h in Others(s, task)))
  {
    hide Lower;
    if env.parse(c).Some? {
      OthersAndOne(s, task, Handler(env.parse(c).value.0, file, c));
    }
  }

  // A background add keeps every file accounted for exactly under that condition.
  lemma TaskAccounted(env: Env, s: Registry, task: nat)
    requires Injective(env) && KeysMatch(s) && Accounted(env, s) && !s.reloadRequired
    ensures Accounted(env, Step(env, s, RunTask(task))) <==> KeepsAccount(env, s, RunTask(task))
  {
    hide Lower, Served, Waiting;
    if task < |s.tasks| {
      var s' := Step(env, s, RunTask(task));
      assert s'.fileHashes == s.fileHashes && !s'.reloadRequired;
      forall file, c | file in s.fileHashes && env.hash(c) == s.fileHashes[file]
        ensures file in s'.duplicate || Served(env, s', file, c) || Waiting(env, s', file, c) <==>
          (Lower(s.tasks[task].id) in s.handlers ==>
            var h := s.handlers[Lower(s.tasks[task].id)];
            h == s.tasks[task] || h != Handler(h.id, file, c) || env.parse(c) != Some((h.id, false)) ||
            file in s.duplicate || h in Others(s, task))
      {
        assert FileAccounted(env, s, file);
        TaskFile(env, s, task, file, c);
      }
    }
  }

  // Every event keeps all files accounted for, or there is a request for a reload, exactly under
  // that condition; only background adds can fail it.
  lemma StepAccounted(env: Env, s: Registry, e: Event)
    requires Injective(env) && Accounted(env, s) && KeysMatch(s) && !s.reloadRequired
    ensures Accounted(env, Step(env, s, e)) <==> KeepsAccount(env, s, e)
  {
    hide Added, Modified, Retried, Removed, Accounted, Injective, IsConfigName, KeysMatch;
    match e
    case Create(file, content, initialUpdate) =>
      AddedAccounted(env, s, file, content, initialUpdate);
    case Modify(file, content) =>
      ModifiedAccounted(env, s, file, content);
    case Delete(file) =>
      RemovedAccounted(env, s, file);
    case Retry(disk) =>
      RetriedAccounted(env, s, disk, InOrder(s.duplicate));
    case RunTask(task) =>
      TaskAccounted(env, s, task);
  }

  // Every background add of the run met the condition, as long as no reload was asked for.
  ghost predicate RunKeepsAccount(env: Env, events: seq<Event>) {
    events == [] ||
    (var init := events[..|events| - 1];
     RunKeepsAccount(env, init) &&
     (Run(env, init).reloadRequired || KeepsAccount(env, Run(env, init), events[|events| - 1])))
  }

  ghost predicate AlwaysAccounted(env: Env, events: seq<Event>) {
    forall n :: 0 <= n <= |events| ==> Accounted(env, Run(env, events[..n]))
  }

  lemma AlwaysByLast(env: Env, events: seq<Event>)
    requires events != []
    ensures AlwaysAccounted(env, events) <==>
            AlwaysAccounted(env, events[..|events| - 1]) && Accounted(env, Run(env, events))
  {
    hide Run, Accounted;
    var init := events[..|events| - 1];
    assert events[..|events|] == events;
    assert forall n :: 0 <= n <= |init| ==> init[..n] == events[..n];
    if AlwaysAccounted(env, events) {
      assert Accounted(env, Run(env, events[..|events|]));
    }
  }

  // Over every run, in the background or not: an enabled configuration file that was read is always
  // served, known as a duplicate or waiting, or a reload is requested, exactly when no background add
  // replaced the handler of an up-to-date file.
  lemma {:induction false} RunAccountedExactly(env: Env, events: seq<Event>)
    requires Injective(env)
    ensures AlwaysAccounted(env, events) <==> RunKeepsAccount(env, events)
  {
    hide Step, Accounted, Injective, KeepsAccount, AlwaysAccounted;
    if events == [] {
      NothingRead(env);
    } else {
      var init, e := events[..|events| - 1], events[|events| - 1];
      RunAccountedExactly(env, init);
      AlwaysByLast(env, events);
      RunKeysMatch(env, init);
      if AlwaysAccounted(env, init) {
        LastAccounted(env, init);
        if Run(env, init).reloadRequired {
          ReloadStays(env, Run(env, init), e);
          ReloadAccounts(env, Run(env, events));
        } else {
          StepAccounted(env, Run(env, init), e);
        }
      }
    }
  }

  lemma NothingRead(env: Env)
    ensures AlwaysAccounted(env, [])
  {
    assert EMPTY.fileHashes == map[];
  }

  lemma LastAccounted(env: Env, events: seq<Event>)
    requires AlwaysAccounted(env, events)
    ensures Accounted(env, Run(env, events))
  {
    assert events[..|events|] == events;
  }

  lemma ReloadAccounts(env: Env, s: Registry)
    requires s.reloadRequired
    ensures Accounted(env, s)
  {
  }

  lemma StepSynchronous(env: Env, s: Registry, e: Event)
    requires Synchronous(env, s)
    ensures Synchronous(env, Step(env, s, e))
  {
    hide Lower, KeyOfFile, IsConfigName, Retried;
    match e
    case Retry(disk) =>
      RetriedSynchronous(env, s, disk, InOrder(s.duplicate));
    case _ =>
  }

  lemma {:induction false} RetriedSynchronous(env: Env, s: Registry, disk: map<Text, Text>, files: seq<Text>)
    requires Synchronous(env, s)
    ensures Synchronous(env, Retried(env, s, disk, files))
    decreases |files|
  {
    hide Lower;
    if files != [] {
      RetriedSynchronous(env, Added(env, s, files[0], ContentOn(disk, files[0]), false), disk, files[1..]);
    }
  }

  lemma {:induction false} RunSynchronous(env: Env, events: seq<Event>)
    requires !env.backgroundInit
    ensures Synchronous(env, Run(env, events))
  {
    hide Step;
    if events != [] {
      RunSynchronous(env, events[..|events| - 1]);
      StepSynchronous(env, Run(env, events[..|events| - 1]), events[|events| - 1]);
    }
  }

  // Without worker threads nothing ever waits, so that every enabled configuration file that was
  // read is served or known as a duplicate after every run, or a reload has been requested.
  lemma {:induction false} RunAccounted(env: Env, events: seq<Event>)
    requires Injective(env) && !env.backgroundInit
    ensures Accounted(env, Run(env, events)) && Synchronous(env, Run(env, events))
  {
    hide Step, Accounted, Injective;
    if events == [] {
      NothingRead(env);
      LastAccounted(env, []);
    } else {
      var init, e := events[..|events| - 1], events[|events| - 1];
      RunAccounted(env, init);
      RunKeysMatch(env, init);
      StepSynchronous(env, Run(env, init), e);
      if Run(env, init).reloadRequired {
        ReloadStays(env, Run(env, init), e);
        ReloadAccounts(env, Run(env, events));
      } else {
        StepAccounted(env, Run(env, init), e);
      }
    }
  }

  // Of two files with the same id, loaded in the background at the start, the one whose task runs
  // first is lost: neither served, nor known as a duplicate, nor waiting.
  lemma BackgroundLoses(env: Env, f: Text, g: Text, c: Text, d: Text, id: Text)
    requires env.backgroundInit && f != g && IsConfigName(f) && IsConfigName(g)
    requires |c| < MAX_SIZE && |d| < MAX_SIZE
    requires env.parse(c) == Some((id, false)) && env.parse(d) == Some((id, false))
    ensures var s := Run(env, [Create(f, Some(c), true), Create(g, Some(d), true), RunTask(0), RunTask(0)]);
      && s.handlers == map[Lower(id) := Handler(id, g, d)] && s.tasks == [] && !Accounted(env, s)
  {
    hide Lower, IsConfigName, Run, Accounted;
    var hf, hg := Handler(id, f, c), Handler(id, g, d);
    var e2 := [Create(f, Some(c), true), Create(g, Some(d), true)];
    var hashes := map[f := env.hash(c), g := env.hash(d)];
    BothWait(env, f, g, c, d, id);
    OneMoreEvent(env, e2, RunTask(0));
    TaskRun(env, Registry(map[], {}, hashes, false, [hf, hg]));
    OneMoreEvent(env, e2 + [RunTask(0)], RunTask(0));
    TaskRun(env, Registry(map[Lower(id) := hf], {}, hashes, false, [hg]));
    assert map[Lower(id) := hf][Lower(id) := hg] == map[Lower(id) := hg];
    assert e2 + [RunTask(0)] + [RunTask(0)] ==
           [Create(f, Some(c), true), Create(g, Some(d), true), RunTask(0), RunTask(0)];
    NotServed(env, Registry(map[Lower(id) := hg], {}, hashes, false, []), f, c, id);
  }

  lemma BothWait(env: Env, f: Text, g: Text, c: Text, d: Text, id: Text)
    requires env.backgroundInit && f != g && IsConfigName(f) && IsConfigName(g)
    requires |c| < MAX_SIZE && |d| < MAX_SIZE
    requires env.parse(c) == Some((id, false)) && env.parse(d) == Some((id, false))
    ensures Run(env, [Create(f, Some(c), true), Create(g, Some(d), true)]) ==
            Registry(map[], {}, map[f := env.hash(c), g := env.hash(d)], false, [Handler(id, f, c), Handler(id, g, d)])
  {
    hide Lower, IsConfigName, Run;
    var e1 := [Create(f, Some(c), true)];
    EmptyRun(env);
    OneMoreEvent(env, [], Create(f, Some(c), true));
    assert [] + e1 == e1;
    OneMoreEvent(env, e1, Create(g, Some(d), true));
    assert e1 + [Create(g, Some(d), true)] == [Create(f, Some(c), true), Create(g, Some(d), true)];
  }

  lemma TaskRun(env: Env, s: Registry)
    requires s.tasks != []
    ensures Step(env, s, RunTask(0)) ==
            s.(handlers := s.handlers[Lower(s.tasks[0].id) := s.tasks[0]], tasks := s.tasks[1..])
  {
    hide Lower;
    assert s.tasks[..0] + s.tasks[1..] == s.tasks[1..];
  }

  lemma NotServed(env: Env, s: Registry, f: Text, c: Text, id: Text)
    requires env.parse(c) == Some((id, false)) && Lower(id) in s.handlers && s.handlers[Lower(id)].file != f
    requires f in s.fileHashes && s.fileHashes[f] == env.hash(c)
    requires f !in s.duplicate && s.tasks == [] && !s.reloadRequired
    ensures !Accounted(env, s)
  {
    assert !FileAccounted(env, s, f);
  }

  lemma EmptyRun(env: Env)
    ensures Run(env, []) == EMPTY
  {
  }

  lemma OneMoreEvent(env: Env, events: seq<Event>, e: Event)
    ensures Run(env, events + [e]) == Step(env, Run(env, events), e)
  {
    assert (events + [e])[..|events|] == events;
  }
}
