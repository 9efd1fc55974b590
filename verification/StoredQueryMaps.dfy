/** StoredQueryMap: the registry of stored query handlers, changed in place by file events. */
module StoredQueryMaps {
  import opened Wrappers
  import opened Texts
  import opened SortedKeys
  import opened RegistrySpec

  class StoredQueryMap {
    const env: Env
    var handler_map: map<Text, Handler>
    var duplicate: set<Text>
    var file_hash_map: map<Text, Text>
    var reload_required: bool
    var init_tasks: seq<Handler>
    var num_updates: map<nat, nat>  // of each watched directory
    var load_failed: bool

    function Contents(): Registry
      reads this
    {
      Registry(handler_map, duplicate, file_hash_map, reload_required, init_tasks)
    }

    // A run starts with the configuration directories that are watched, none of them updated yet.
    constructor (env: Env, watchers: set<nat>)
      ensures this.env == env && Contents() == EMPTY && !load_failed
      ensures num_updates.Keys == watchers && forall w :: w in watchers ==> num_updates[w] == 0
    {
      this.env := env;
      handler_map, duplicate, file_hash_map, reload_required, init_tasks := map[], {}, map[], false, [];
      num_updates, load_failed := (map w | w in watchers :: 0), false;
    }

    method CheckFileHash(file: Text, content: Option<Text>) returns (changed: bool)
      modifies this`file_hash_map
      ensures changed <==> Checked(env, old(Contents()), file, content).Some?
      ensures Contents() == if changed then Checked(env, old(Contents()), file, content).value else old(Contents())
    {
      if content.None? {
        return false;
      }
      if |content.value| < MAX_SIZE {
        var digest := env.hash(content.value);
        if file !in file_hash_map {
          file_hash_map := file_hash_map[file := digest];
          return true;
        }
        if file_hash_map[file] == digest {
          return false;
        }
        file_hash_map := file_hash_map[file := digest];
        return true;
      } else {
        return false;
      }
    }

    // Whatever the file holds next time, it is read; other files are not affected.
    method RemoveFileHash(file: Text)
      modifies this`file_hash_map
      ensures file_hash_map == old(file_hash_map) - {file}
      ensures forall content: Text :: |content| < MAX_SIZE ==> Checked(env, Contents(), file, Some(content)).Some?
      ensures forall f, content :: f != file ==>
        (Checked(env, Contents(), f, content).Some? <==> Checked(env, old(Contents()), f, content).Some?)
    {
      file_hash_map := file_hash_map - {file};
    }

    method AddHandler(handler: Handler)
      modifies this`handler_map
      ensures Contents() == WithHandler(old(Contents()), handler)
    {
      var lname := Lower(handler.id);
      if lname in handler_map {
        handler_map := handler_map - {lname};
      }
      handler_map := handler_map[lname := handler];
    }

    // None is an exception.
    method GetHandlerByName(name: Text) returns (r: Option<Handler>)
      ensures r.Some? <==> Lower(name) in handler_map
      ensures r.Some? ==> r.value == handler_map[Lower(name)]
      ensures r.Some? && KeysMatch(Contents()) ==> Lower(r.value.id) == Lower(name)
    {
      var lname := Lower(name);
      if lname !in handler_map {
        return None;
      }
      r := Some(handler_map[lname]);
    }

    // The key of the first handler made from the file, in the order of the map.
    method GetHandlerByFileName(file: Text) returns (r: Option<Text>)
      ensures r == KeyOfFile(handler_map, file)
    {
      var keys := InOrder(handler_map.Keys);
      r := None;
      var i := 0;
      while r.None? && i < |keys|
        invariant i <= |keys|
        invariant KeyOfFile(handler_map, file) == if r.Some? then r else FirstOf(handler_map, keys[i..], file)
        decreases |keys| - i, r.None?
      {
        if handler_map[keys[i]].file == file {
          r := Some(keys[i]);
        }
        i := i + 1;
      }
    }

    method EnqueueQueryAdd(handler: Handler, initial_update: bool)
      modifies this`handler_map, this`init_tasks
      ensures Contents() == Enqueued(env, old(Contents()), handler, initial_update)
    {
      if env.backgroundInit && initial_update {
        init_tasks := init_tasks + [handler];
      } else {
        AddHandler(handler);
      }
    }

    method RequestReload()
      modifies this`reload_required
      ensures reload_required
    {
      reload_required := true;
    }

    method HandleQueryIgnore(config: Handler)
      modifies this`handler_map, this`reload_required
      ensures Contents() == Ignored(old(Contents()), config)
    {
      var prev_handler := GetHandlerByName(config.id);
      if prev_handler.Some? {
        if config.file == prev_handler.value.file {
          handler_map := handler_map - {Lower(config.id)};
        } else {
          RequestReload();
        }
      }
    }

    // The methods that read a file report whether that ends with an exception.
    method HandleQueryAdd(file: Text, content: Option<Text>, initial_update: bool) returns (failed: bool)
      modifies this`handler_map, this`duplicate, this`file_hash_map, this`reload_required, this`init_tasks
      ensures failed <==> Checked(env, old(Contents()), file, content).Some? && env.parse(content.value).None?
      ensures Contents() == Added(env, old(Contents()), file, content, initial_update)
    {
      hide Lower;
      failed := false;
      var changed := CheckFileHash(file, content);
      if !changed {
        return false;
      }
      var parsed := env.parse(content.value);
      if parsed.None? {
        return true;
      }
      var sqh_config := Handler(parsed.value.0, file, content.value);
      var prev_handler := GetHandlerByName(sqh_config.id);
      if prev_handler.Some? {
        duplicate := duplicate + {file};
      } else {
        duplicate := duplicate - {file};
        if parsed.value.1 {
          HandleQueryIgnore(sqh_config);
        } else {
          EnqueueQueryAdd(sqh_config, initial_update);
        }
      }
    }

    // Two handlers are the same object exactly when they are found under the same key.
    method HandleQueryModify(file: Text, content: Option<Text>) returns (failed: bool)
      modifies this`handler_map, this`duplicate, this`file_hash_map, this`reload_required, this`init_tasks
      ensures failed <==> Checked(env, old(Contents()), file, content).Some? && env.parse(content.value).None?
      ensures Contents() == Modified(env, old(Contents()), file, content)
    {
      hide Lower, KeyOfFile;
      failed := false;
      var changed := CheckFileHash(file, content);
      if !changed {
        return false;
      }
      var parsed := env.parse(content.value);
      if parsed.None? {
        return true;
      }
      var id := parsed.value.0;
      var sqh_config := Handler(id, file, content.value);
      if parsed.value.1 {
        duplicate := duplicate - {file};
        HandleQueryIgnore(sqh_config);
      } else {
        var ph1 := GetHandlerByFileName(file);
        var ph2 := GetHandlerByName(id);
        if ph1.Some? {
          var id2 := handler_map[ph1.value].id;
          if ph2.Some? && ph1.value != Lower(id) {
            RequestReload();
          } else {
            EnqueueQueryAdd(sqh_config, false);
            if ph2.None? {
              handler_map := handler_map - {id2};
            }
          }
        } else {
          if ph2.Some? {
            RequestReload();
          } else {
            EnqueueQueryAdd(sqh_config, false);
          }
        }
      }
    }

    method HandleQueryRemove(file: Text)
      modifies this`handler_map, this`duplicate, this`file_hash_map
      ensures Contents() == Removed(old(Contents()), file)
    {
      hide Lower, KeyOfFile;
      RemoveFileHash(file);
      var key := GetHandlerByFileName(file);
      duplicate := duplicate - {file};
      if key.Some? {
        handler_map := handler_map - {Lower(handler_map[key.value].id)};
      }
    }

    method HandleConfigFileChange(change: Event) returns (failed: bool)
      requires change.Create? || change.Modify? || change.Delete?
      modifies this`handler_map, this`duplicate, this`file_hash_map, this`reload_required, this`init_tasks
      ensures Contents() == Step(env, old(Contents()), change)
      ensures failed <==> Throws(env, old(Contents()), change)
    {
      hide Added, Modified, Removed, Checked;
      failed := false;
      if IsConfigName(change.file) {
        match change
        case Delete(file) => HandleQueryRemove(file);
        case Create(file, content, initial_update) => failed := HandleQueryAdd(file, content, initial_update);
        case Modify(file, content) => failed := HandleQueryModify(file, content);
      }
    }

    // Exceptions are caught file by file.
    method RetryDuplicates(disk: map<Text, Text>)
      modifies this`handler_map, this`duplicate, this`file_hash_map, this`reload_required, this`init_tasks
      ensures Contents() == Step(env, old(Contents()), Retry(disk))
    {
      hide Added, Checked;
      var tmp := InOrder(duplicate);
      for i := 0 to |tmp|
        invariant Retried(env, Contents(), disk, tmp[i..]) == Retried(env, old(Contents()), disk, tmp)
      {
        assert tmp[i..][1..] == tmp[i + 1..];
        var _ := HandleQueryAdd(tmp[i], ContentOn(disk, tmp[i]), false);
      }
    }

    method RunInitTask(task: nat)
      requires task < |init_tasks|
      modifies this`init_tasks, this`handler_map
      ensures Contents() == Step(env, old(Contents()), RunTask(task))
    {
      var handler := init_tasks[task];
      init_tasks := init_tasks[..task] + init_tasks[task + 1..];
      AddHandler(handler);
    }

    // A batch of changes in a watched directory is left as soon as a reload is required; afterwards the
    // duplicates are tried again, unless this was the first batch, which fails as a whole if one of its
    // files does. Later batches are not looked at when polling is off.
    method OnConfigChange(watcher: nat, ready: bool, polling: bool, changes: seq<Event>, disk: map<Text, Text>)
      returns (failed: bool, ghost done: nat)
      requires watcher in num_updates
      requires forall e :: e in changes ==> e.Create? || e.Modify? || e.Delete?
      requires forall e :: e in changes && e.Create? ==> (e.initialUpdate <==> num_updates[watcher] == 0)
      modifies this
      ensures done <= |changes|
      ensures ready && !polling ==> done == 0 && !failed && load_failed == old(load_failed)
                                    && Contents() == old(Contents()) && num_updates == old(num_updates)
      ensures !(ready && !polling) ==>
        var initial_update := old(num_updates[watcher]) == 0;
        var s := RunFrom(env, old(Contents()), changes[..done]);
        var failures := Failures(env, old(Contents()), changes[..done]);
        && (done < |changes| ==> reload_required)
        && Contents() == (if initial_update then s else Step(env, s, Retry(disk)))
        && num_updates == old(num_updates)[watcher := old(num_updates[watcher]) + done - failures]
        && failed == (initial_update && failures > 0) && load_failed == (old(load_failed) || failed)
    {
      hide Step, Throws;
      failed := false;
      done := 0;
      var initial_update := num_updates[watcher] == 0;
      if ready && !polling {
        return;
      }
      var i, have_errors := 0, 0;
      ghost var start := Contents();
      assert changes[..0] == [];
      while !reload_required && i < |changes|
        invariant i <= |changes|
        invariant Contents() == RunFrom(env, start, changes[..i])
        invariant have_errors == Failures(env, start, changes[..i])
        invariant num_updates == old(num_updates)[watcher := old(num_updates[watcher]) + i - have_errors]
        invariant load_failed == (old(load_failed) || (initial_update && have_errors > 0))
      {
        assert changes[..i + 1][..i] == changes[..i];
        var error := HandleConfigFileChange(changes[i]);
        if error {
          have_errors := have_errors + 1;
          if initial_update {
            load_failed := true;
          }
        } else {
          num_updates := num_updates[watcher := num_updates[watcher] + 1];
        }
        i := i + 1;
      }
      done := i;
      if !initial_update {
        RetryKeepsReload(env, Contents(), disk);
        RetryDuplicates(disk);
      }
      failed := initial_update && have_errors > 0;
    }
  }
}
