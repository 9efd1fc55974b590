/** StoredQueryMap and FileContentChecker as a state machine over configuration file events. */
module RegistrySpec {
  import opened Wrappers
  import opened Texts
  import opened SortedKeys

  const MAX_SIZE := 131072

  // What stays fixed while the server runs: the digest, the configuration parser (the stored query
  // id, and whether the settings disable the query; None is an exception), the loading mode.
  datatype Env = Env(hash: Text -> Text, parse: Text -> Option<(Text, bool)>, backgroundInit: bool)

  // A stored query handler, made from the content of a file.
  datatype Handler = Handler(id: Text, file: Text, content: Text)

  datatype Registry = Registry(
    handlers: map<Text, Handler>,
    duplicate: set<Text>,
    fileHashes: map<Text, Text>,
    reloadRequired: bool,
    tasks: seq<Handler>)  // adds still to be done by the worker threads

  const EMPTY := Registry(map[], {}, map[], false, [])

  // A content of None is a file that cannot be read, or is no regular file.
  datatype Event =
    | Create(file: Text, content: Option<Text>, initialUpdate: bool)
    | Modify(file: Text, content: Option<Text>)
    | Delete(file: Text)
    | Retry(disk: map<Text, Text>)
    | RunTask(task: nat)

  // ---------- one event ----------

  // check_file_hash: the state with the new digest, or None when there is nothing to reread.
  function Checked(env: Env, s: Registry, file: Text, content: Option<Text>): Option<Registry> {
    if content.None? || |content.value| >= MAX_SIZE then None
    else
      var digest := env.hash(content.value);
      if file in s.fileHashes && s.fileHashes[file] == digest then None
      else Some(s.(fileHashes := s.fileHashes[file := digest]))
  }

  function WithHandler(s: Registry, h: Handler): Registry {
    s.(handlers := s.handlers[Lower(h.id) := h])
  }

  function Enqueued(env: Env, s: Registry, h: Handler, initialUpdate: bool): Registry {
    if env.backgroundInit && initialUpdate then s.(tasks := s.tasks + [h]) else WithHandler(s, h)
  }

  function Ignored(s: Registry, h: Handler): Registry {
    if Lower(h.id) in s.handlers then
      if s.handlers[Lower(h.id)].file == h.file then s.(handlers := s.handlers - {Lower(h.id)})
      else s.(reloadRequired := true)
    else s
  }

  // The first handler of a file, in the order of the map.
  function FirstOf(handlers: map<Text, Handler>, keys: seq<Text>, file: Text): (r: Option<Text>)
    requires forall k :: k in keys ==> k in handlers
    ensures r.Some? ==> r.value in handlers && handlers[r.value].file == file
    ensures r.None? ==> forall k :: k in keys ==> handlers[k].file != file
  {
    if keys == [] then None
    else if handlers[keys[0]].file == file then Some(keys[0])
    else FirstOf(handlers, keys[1..], file)
  }

  function KeyOfFile(handlers: map<Text, Handler>, file: Text): (r: Option<Text>)
    ensures r.Some? ==> r.value in handlers && handlers[r.value].file == file
    ensures r.None? ==> forall k :: k in handlers ==> handlers[k].file != file
  {
    FirstOf(handlers, InOrder(handlers.Keys), file)
  }

  function Added(env: Env, s: Registry, file: Text, content: Option<Text>, initialUpdate: bool): Registry {
    match Checked(env, s, file, content)
    case None => s
    case Some(s1) =>
      match env.parse(content.value)
      case None => s1
      case Some((id, ignored)) =>
        var h := Handler(id, file, content.value);
        if Lower(id) in s1.handlers then s1.(duplicate := s1.duplicate + {file})
        else
          var s2 := s1.(duplicate := s1.duplicate - {file});
          if ignored then Ignored(s2, h) else Enqueued(env, s2, h, initialUpdate)
  }

  function Modified(env: Env, s: Registry, file: Text, content: Option<Text>): Registry {
    match Checked(env, s, file, content)
    case None => s
    case Some(s1) =>
      match env.parse(content.value)
      case None => s1
      case Some((id, ignored)) =>
        var h := Handler(id, file, content.value);
        if ignored then Ignored(s1.(duplicate := s1.duplicate - {file}), h)
        else
          match KeyOfFile(s1.handlers, file)
          case Some(k) =>
            if Lower(id) in s1.handlers && k != Lower(id) then s1.(reloadRequired := true)
            else
              var s2 := Enqueued(env, s1, h, false);
              if Lower(id) in s1.handlers then s2
              else s2.(handlers := s2.handlers - {s1.handlers[k].id})  // not lower-cased
          case None =>
            if Lower(id) in s1.handlers then s1.(reloadRequired := true) else Enqueued(env, s1, h, false)
  }

  function Removed(s: Registry, file: Text): Registry {
    var s1 := s.(fileHashes := s.fileHashes - {file}, duplicate := s.duplicate - {file});
    match KeyOfFile(s.handlers, file)
    case None => s1
    case Some(k) => s1.(handlers := s1.handlers - {Lower(s.handlers[k].id)})
  }

  function ContentOn(disk: map<Text, Text>, file: Text): Option<Text> {
    if file in disk then Some(disk[file]) else None
  }

  function Retried(env: Env, s: Registry, disk: map<Text, Text>, files: seq<Text>): Registry
    decreases |files|
  {
    if files == [] then s
    else Retried(env, Added(env, s, files[0], ContentOn(disk, files[0]), false), disk, files[1..])
  }

  // Only names ending in .conf that do not start with '.' or '#' are looked at.
  predicate IsConfigName(name: Text) {
    && |name| >= 5 && name[|name| - 5..] == ".conf"
    && name[0] != '.' && name[0] != '#'
  }

  function Step(env: Env, s: Registry, e: Event): Registry {
    match e
    case Create(file, content, initialUpdate) =>
      if IsConfigName(file) then Added(env, s, file, content, initialUpdate) else s
    case Modify(file, content) =>
      if IsConfigName(file) then Modified(env, s, file, content) else s
    case Delete(file) =>
      if IsConfigName(file) then Removed(s, file) else s
    case Retry(disk) =>
      Retried(env, s, disk, InOrder(s.duplicate))
    case RunTask(task) =>
      if task < |s.tasks| then WithHandler(s.(tasks := s.tasks[..task] + s.tasks[task + 1..]), s.tasks[task]) else s
  }

  // Whether an event ends with an exception: the file is read again, and cannot be parsed.
  predicate Throws(env: Env, s: Registry, e: Event) {
    match e
    case Create(file, content, _) =>
      IsConfigName(file) && Checked(env, s, file, content).Some? && env.parse(content.value).None?
    case Modify(file, content) =>
      IsConfigName(file) && Checked(env, s, file, content).Some? && env.parse(content.value).None?
    case _ => false
  }

  function RunFrom(env: Env, s: Registry, events: seq<Event>): Registry {
    if events == [] then s
    else Step(env, RunFrom(env, s, events[..|events| - 1]), events[|events| - 1])
  }

  // How many events of a run end with an exception.
  function Failures(env: Env, s: Registry, events: seq<Event>): (n: nat)
    ensures n <= |events|
  {
    if events == [] then 0
    else
      var init := events[..|events| - 1];
      Failures(env, s, init) + if Throws(env, RunFrom(env, s, init), events[|events| - 1]) then 1 else 0
  }

  // A whole run, from the start of the server.
  function Run(env: Env, events: seq<Event>): Registry {
    RunFrom(env, EMPTY, events)
  }

  // ---------- lookup ----------

  // Every handler is kept under its own id in lower case.
  ghost predicate KeysMatch(s: Registry) {
    forall k :: k in s.handlers ==> k == Lower(s.handlers[k].id)
  }

  lemma AddedKeysMatch(env: Env, s: Registry, file: Text, content: Option<Text>, initialUpdate: bool)
    requires KeysMatch(s)
    ensures KeysMatch(Added(env, s, file, content, initialUpdate))
  {
    hide Lower;
  }

  lemma ModifiedKeysMatch(env: Env, s: Registry, file: Text, content: Option<Text>)
    requires KeysMatch(s)
    ensures KeysMatch(Modified(env, s, file, content))
  {
    hide Lower, KeyOfFile;
  }

  lemma {:induction false} RetriedKeysMatch(env: Env, s: Registry, disk: map<Text, Text>, files: seq<Text>)
    requires KeysMatch(s)
    ensures KeysMatch(Retried(env, s, disk, files))
    decreases |files|
  {
    hide Lower, Added;
    if files != [] {
      AddedKeysMatch(env, s, files[0], ContentOn(disk, files[0]), false);
      RetriedKeysMatch(env, Added(env, s, files[0], ContentOn(disk, files[0]), false), disk, files[1..]);
    }
  }

  lemma StepKeysMatch(env: Env, s: Registry, e: Event)
    requires KeysMatch(s)
    ensures KeysMatch(Step(env, s, e))
  {
    hide Lower, KeyOfFile, Added, Modified, Retried, IsConfigName;
    match e
    case Create(file, content, initialUpdate) =>
      AddedKeysMatch(env, s, file, content, initialUpdate);
    case Modify(file, content) =>
      ModifiedKeysMatch(env, s, file, content);
    case Delete(_) =>
    case Retry(disk) =>
      RetriedKeysMatch(env, s, disk, InOrder(s.duplicate));
    case RunTask(_) =>
  }

  // In every interleaving of events and background tasks a name is only ever resolved to a handler
  // with that id, upper and lower case letters being the same.
  lemma {:induction false} RunKeysMatch(env: Env, events: seq<Event>)
    ensures KeysMatch(Run(env, events))
  {
    if events != [] {
      RunKeysMatch(env, events[..|events| - 1]);
      StepKeysMatch(env, Run(env, events[..|events| - 1]), events[|events| - 1]);
    }
  }

  // ---------- ownership ----------

  // The handlers of other files than those of the event stay.
  ghost predicate OthersKept(s: Registry, s': Registry, files: set<Text>) {
    forall k :: k in s.handlers && s.handlers[k].file !in files ==> k in s'.handlers && s'.handlers[k] == s.handlers[k]
  }

  function FilesOf(s: Registry, e: Event): set<Text> {
    match e
    case Create(file, _, _) => {file}
    case Modify(file, _) => {file}
    case Delete(file) => {file}
    case Retry(_) => s.duplicate
    case RunTask(task) => if task < |s.tasks| then {s.tasks[task].file} else {}
  }

  lemma AddedOthersKept(env: Env, s: Registry, file: Text, content: Option<Text>, initialUpdate: bool)
    ensures OthersKept(s, Added(env, s, file, content, initialUpdate), {})
  {
    hide Lower;
  }

  // The entry of the old id is the file's own one, or there is none under that spelling.
  lemma ModifiedOthersKept(env: Env, s: Registry, file: Text, content: Option<Text>)
    requires KeysMatch(s)
    ensures OthersKept(s, Modified(env, s, file, content), {file})
  {
    hide Lower, KeyOfFile;
    forall k | k in s.handlers ensures IsLower(k) {
      LowerIsIdempotent(s.handlers[k].id);
    }
  }

  lemma {:induction false} RetriedOthersKept(env: Env, s: Registry, disk: map<Text, Text>, files: seq<Text>)
    ensures OthersKept(s, Retried(env, s, disk, files), {})
    decreases |files|
  {
    hide Lower, Added;
    if files != [] {
      var s' := Added(env, s, files[0], ContentOn(disk, files[0]), false);
      AddedOthersKept(env, s, files[0], ContentOn(disk, files[0]), false);
      RetriedOthersKept(env, s', disk, files[1..]);
    }
  }

  // An entry made from one file is only replaced or removed by an event on that same file, unless a
  // background task does it.
  lemma StepOthersKept(env: Env, s: Registry, e: Event)
    requires KeysMatch(s) && !e.RunTask?
    ensures OthersKept(s, Step(env, s, e), FilesOf(s, e))
  {
    hide Lower, KeyOfFile, Added, Modified, Retried, IsConfigName;
    match e
    case Create(file, content, initialUpdate) =>
      AddedOthersKept(env, s, file, content, initialUpdate);
    case Modify(file, content) =>
      ModifiedOthersKept(env, s, file, content);
    case Delete(file) =>
    case Retry(disk) =>
      RetriedOthersKept(env, s, disk, InOrder(s.duplicate));
  }

  // ---------- reload ----------

  lemma ReloadStays(env: Env, s: Registry, e: Event)
    requires s.reloadRequired
    ensures Step(env, s, e).reloadRequired
  {
    hide Lower, KeyOfFile, IsConfigName;
    match e
    case Retry(disk) =>
      RetriedReload(env, s, disk, InOrder(s.duplicate));
    case _ =>
  }

  lemma {:induction false} RetriedReload(env: Env, s: Registry, disk: map<Text, Text>, files: seq<Text>)
    requires s.reloadRequired
    ensures Retried(env, s, disk, files).reloadRequired
    decreases |files|
  {
    if files != [] {
      hide Lower;
      RetriedReload(env, Added(env, s, files[0], ContentOn(disk, files[0]), false), disk, files[1..]);
    }
  }

  lemma RetryKeepsReload(env: Env, s: Registry, disk: map<Text, Text>)
    ensures s.reloadRequired ==> Step(env, s, Retry(disk)).reloadRequired
  {
    if s.reloadRequired {
      ReloadStays(env, s, Retry(disk));
    }
  }
}
