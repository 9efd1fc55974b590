/** What single events do to the registry, and exactly when a reload is asked for. */
module RegistryEffects {
  import opened Wrappers
  import opened Texts
  import opened SortedKeys
  import opened RegistrySpec

  // ---------- reloads ----------

  // A file that can be read, is not too large, and whose digest is not the one remembered.
  predicate IsChanged(env: Env, s: Registry, file: Text, content: Option<Text>) {
    && content.Some? && |content.value| < MAX_SIZE
    && (file in s.fileHashes ==> s.fileHashes[file] != env.hash(content.value))
  }

  // Only a modification asks for a reload: the file is changed and can be parsed, and its id is taken, by
  // a handler other than the one found for the file, or, when it is disabled, by another file.
  predicate AsksForReload(env: Env, s: Registry, e: Event) {
    match e
    case Modify(file, content) =>
      && IsConfigName(file) && IsChanged(env, s, file, content) && env.parse(content.value).Some?
      && var (id, ignored) := env.parse(content.value).value;
         && Lower(id) in s.handlers
         && if ignored then s.handlers[Lower(id)].file != file else KeyOfFile(s.handlers, file) != Some(Lower(id))
    case _ => false
  }

  lemma {:induction false} RetriedSameReload(env: Env, s: Registry, disk: map<Text, Text>, files: seq<Text>)
    ensures Retried(env, s, disk, files).reloadRequired == s.reloadRequired
    decreases |files|
  {
    hide Lower;
    if files != [] {
      RetriedSameReload(env, Added(env, s, files[0], ContentOn(disk, files[0]), false), disk, files[1..]);
    }
  }

  lemma StepReload(env: Env, s: Registry, e: Event)
    ensures Step(env, s, e).reloadRequired <==> s.reloadRequired || AsksForReload(env, s, e)
  {
    hide Lower, KeyOfFile, IsConfigName;
    match e
    case Retry(disk) =>
      RetriedSameReload(env, s, disk, InOrder(s.duplicate));
    case _ =>
  }

  // After a run a reload is required exactly when some event of it has asked for one.
  lemma {:induction false} RunReload(env: Env, events: seq<Event>)
    ensures Run(env, events).reloadRequired <==>
            exists n :: 0 <= n < |events| && AsksForReload(env, Run(env, events[..n]), events[n])
  {
    hide Step, AsksForReload;
    if events != [] {
      var init, last := events[..|events| - 1], |events| - 1;
      RunReload(env, init);
      StepReload(env, Run(env, init), events[last]);
      assert forall n :: 0 <= n < last ==> init[..n] == events[..n] && init[n] == events[n];
    }
  }

  // ---------- edits ----------

  // A file read for the first time, enabled and with a free id, is served, or waits to be.
  lemma NewFile(env: Env, s: Registry, file: Text, c: Text, id: Text, initialUpdate: bool)
    requires IsConfigName(file) && IsChanged(env, s, file, Some(c)) && env.parse(c) == Some((id, false))
    requires Lower(id) !in s.handlers
    ensures var s' := Step(env, s, Create(file, Some(c), initialUpdate));
      && s'.fileHashes == s.fileHashes[file := env.hash(c)] && s'.duplicate == s.duplicate - {file}
      && s'.reloadRequired == s.reloadRequired
      && (if env.backgroundInit && initialUpdate then
            s'.tasks == s.tasks + [Handler(id, file, c)] && s'.handlers == s.handlers
          else
            s'.tasks == s.tasks && s'.handlers == s.handlers[Lower(id) := Handler(id, file, c)])
  {
    hide Lower, IsConfigName;
  }

  // A file read for the first time whose id is taken becomes a duplicate, and nothing else changes.
  lemma NewDuplicate(env: Env, s: Registry, file: Text, c: Text, id: Text, ignored: bool, initialUpdate: bool)
    requires IsConfigName(file) && IsChanged(env, s, file, Some(c)) && env.parse(c) == Some((id, ignored))
    requires Lower(id) in s.handlers
    ensures Step(env, s, Create(file, Some(c), initialUpdate)) ==
            s.(fileHashes := s.fileHashes[file := env.hash(c)], duplicate := s.duplicate + {file})
  {
    hide Lower, IsConfigName;
  }

  // A disabled file with a free id is not served.
  lemma NewDisabled(env: Env, s: Registry, file: Text, c: Text, id: Text, initialUpdate: bool)
    requires IsConfigName(file) && IsChanged(env, s, file, Some(c)) && env.parse(c) == Some((id, true))
    requires Lower(id) !in s.handlers
    ensures Step(env, s, Create(file, Some(c), initialUpdate)) ==
            s.(fileHashes := s.fileHashes[file := env.hash(c)], duplicate := s.duplicate - {file})
  {
    hide Lower, IsConfigName;
  }

  // The commonest edit: a served file keeps its id. The new handler takes the place of the old one, and
  // no reload is asked for.
  lemma SameIdEdit(env: Env, s: Registry, file: Text, c: Text, id: Text)
    requires IsConfigName(file) && IsChanged(env, s, file, Some(c)) && env.parse(c) == Some((id, false))
    requires KeyOfFile(s.handlers, file) == Some(Lower(id))
    ensures Step(env, s, Modify(file, Some(c))) ==
            s.(fileHashes := s.fileHashes[file := env.hash(c)],
               handlers := s.handlers[Lower(id) := Handler(id, file, c)])
  {
    hide Lower, KeyOfFile, IsConfigName;
  }

  // A served file gets a free id: its handler moves there, if the old id is in lower case, and else stays
  // beside the new one.
  lemma NewIdEdit(env: Env, s: Registry, file: Text, c: Text, id: Text, key: Text)
    requires KeysMatch(s) && IsConfigName(file) && IsChanged(env, s, file, Some(c)) && env.parse(c) == Some((id, false))
    requires KeyOfFile(s.handlers, file) == Some(key) && Lower(id) !in s.handlers
    ensures var handlers := s.handlers[Lower(id) := Handler(id, file, c)];
      Step(env, s, Modify(file, Some(c))) ==
      s.(fileHashes := s.fileHashes[file := env.hash(c)],
         handlers := if IsLower(s.handlers[key].id) then handlers - {key} else handlers)
  {
    hide Lower, KeyOfFile, IsConfigName;
    forall k | k in s.handlers ensures IsLower(k) {
      LowerIsIdempotent(s.handlers[k].id);
    }
    LowerIsIdempotent(id);
  }

  // A served file is disabled and keeps its id: its handler goes away, and it is no duplicate any more.
  lemma DisablingEdit(env: Env, s: Registry, file: Text, c: Text, id: Text)
    requires IsConfigName(file) && IsChanged(env, s, file, Some(c)) && env.parse(c) == Some((id, true))
    requires Lower(id) in s.handlers && s.handlers[Lower(id)].file == file
    ensures Step(env, s, Modify(file, Some(c))) ==
            s.(fileHashes := s.fileHashes[file := env.hash(c)], handlers := s.handlers - {Lower(id)},
               duplicate := s.duplicate - {file})
  {
    hide Lower, KeyOfFile, IsConfigName;
  }

  // A file that was not served is edited and has a free id: it is served.
  lemma EnablingEdit(env: Env, s: Registry, file: Text, c: Text, id: Text)
    requires IsConfigName(file) && IsChanged(env, s, file, Some(c)) && env.parse(c) == Some((id, false))
    requires KeyOfFile(s.handlers, file).None? && Lower(id) !in s.handlers
    ensures Step(env, s, Modify(file, Some(c))) ==
            s.(fileHashes := s.fileHashes[file := env.hash(c)],
               handlers := s.handlers[Lower(id) := Handler(id, file, c)])
  {
    hide Lower, KeyOfFile, IsConfigName;
  }

  // A file goes away: nothing about it is left but a second handler, if it had two.
  lemma Deletion(env: Env, s: Registry, file: Text)
    requires KeysMatch(s) && IsConfigName(file)
    ensures var s' := Step(env, s, Delete(file));
      && s'.fileHashes == s.fileHashes - {file} && s'.duplicate == s.duplicate - {file}
      && s'.reloadRequired == s.reloadRequired && s'.tasks == s.tasks
      && (if exists k :: k in s.handlers && s.handlers[k].file == file then
            exists k :: k in s.handlers && s.handlers[k].file == file && s'.handlers == s.handlers - {k}
          else s'.handlers == s.handlers)
  {
    hide Lower, KeyOfFile, IsConfigName;
  }

  // An unchanged file, one that cannot be read and one with another kind of name change nothing; a changed
  // file that cannot be parsed is only remembered, and throws.
  lemma NothingNew(env: Env, s: Registry, file: Text, content: Option<Text>, e: Event)
    requires e == Modify(file, content) || e == Create(file, content, true) || e == Create(file, content, false)
    ensures !IsConfigName(file) || !IsChanged(env, s, file, content) ==> Step(env, s, e) == s && !Throws(env, s, e)
    ensures IsConfigName(file) && IsChanged(env, s, file, content) ==>
      (Throws(env, s, e) <==> env.parse(content.value).None?)
    ensures Throws(env, s, e) ==> Step(env, s, e) == s.(fileHashes := s.fileHashes[file := env.hash(content.value)])
  {
    hide Lower, KeyOfFile, IsConfigName;
  }

  // A file that is not named like a configuration can be deleted without effect; deletions, retries and
  // background adds never throw.
  lemma OtherEvents(env: Env, s: Registry, e: Event)
    requires !e.Create? && !e.Modify?
    ensures !Throws(env, s, e)
    ensures e.Delete? && !IsConfigName(e.file) ==> Step(env, s, e) == s
  {
    hide IsConfigName;
  }

  // Of the handlers made from a file, the one found is that of the least key.
  lemma LeastKeyOfFile(handlers: map<Text, Handler>, file: Text, key: Text)
    requires key in handlers && handlers[key].file == file
    ensures KeyOfFile(handlers, file).Some? && AtMost(KeyOfFile(handlers, file).value, key)
  {
    var keys := InOrder(handlers.Keys);
    InOrderSorted(handlers.Keys);
    assert key in keys;
    FirstIsLeast(handlers, keys, file, key);
  }

  lemma {:induction false} FirstIsLeast(handlers: map<Text, Handler>, keys: seq<Text>, file: Text, key: Text)
    requires forall k :: k in keys ==> k in handlers
    requires forall i, j :: 0 <= i < j < |keys| ==> Less(keys[i], keys[j])
    requires key in keys && handlers[key].file == file
    ensures FirstOf(handlers, keys, file).Some? && AtMost(FirstOf(handlers, keys, file).value, key)
  {
    if handlers[keys[0]].file == file {
      if key == keys[0] {
        AtMostReflexive(key);
      } else {
        LessIsAtMost(keys[0], key);
      }
    } else {
      FirstIsLeast(handlers, keys[1..], file, key);
    }
  }

  // Names that are looked at, and names that are not: hidden files, backups and other kinds.
  lemma ConfigNames()
    ensures IsConfigName("a.conf") && IsConfigName("x.conf.conf")
    ensures !IsConfigName(".a.conf") && !IsConfigName("#a.conf") && !IsConfigName("a.conf~") && !IsConfigName("a.cfg")
    ensures !IsConfigName("") && !IsConfigName(".conf") && !IsConfigName("conf")
  {
    assert "x.conf.conf"[6..] == ".conf" && "a.conf"[1..] == ".conf";
    assert "a.conf~"[2..][4] == '~';
  }
}
