/** The service-discovery listener: groups of watches, their inverse index, the mirror of etcd, the
    materialised exports and the running watches, updated in place. */
module EtcdListen {
  import opened EtcdMirror
  import opened EtcdTables

  // util.Contains
  method IndexOf(s: seq<string>, key: string) returns (i: int)
    ensures key !in s ==> i == -1
    ensures key in s ==> 0 <= i < |s| && s[i] == key && key !in s[..i]
  {
    for k := 0 to |s|
      invariant key !in s[..k]
    {
      if s[k] == key {
        return k;
      }
    }
    return -1;
  }

  /** What can happen next: a call of a public operation, a write to the store, or a move of the goroutine of
      a watch. */
  datatype Call =
    | AddCall(group: string, wsi: map<string, WatchServerInfo>)
    | EmptyCall(group: string)
    | StartCall(connected: bool)
    | ReloadCall
    | ExportCall
    | WriteCall(e: Event)
    | MoveCall(name: string)

  // What a call makes of the store; there is no empty key.
  function HistoryAfter(history: History, call: Call): History {
    if call.WriteCall? && call.e.key != "" then history + [call.e] else history
  }

  function HistoryOf(schedule: seq<Call>): History {
    if schedule == [] then []
    else HistoryAfter(HistoryOf(schedule[..|schedule| - 1]), schedule[|schedule| - 1])
  }

  // What a call makes of the groups; a group that exists is not replaced.
  function GroupsAfter(groups: Groups, call: Call): Groups {
    match call
    case AddCall(group, wsi) => if group in groups then groups else groups[group := wsi]
    case EmptyCall(group) => groups - {group}
    case _ => groups
  }

  function GroupsOf(schedule: seq<Call>): Groups {
    if schedule == [] then map[]
    else GroupsAfter(GroupsOf(schedule[..|schedule| - 1]), schedule[|schedule| - 1])
  }

  /** What the last call of a schedule makes of the store and the groups. */
  lemma ScheduleIs(schedule: seq<Call>, call: Call)
    ensures var more := schedule + [call];
      && (call.WriteCall? && call.e.key != "" ==> HistoryOf(more) == HistoryOf(schedule) + [call.e])
      && (!call.WriteCall? || call.e.key == "" ==> HistoryOf(more) == HistoryOf(schedule))
      && (call.AddCall? && call.group !in GroupsOf(schedule) ==>
            GroupsOf(more) == GroupsOf(schedule)[call.group := call.wsi])
      && (call.AddCall? && call.group in GroupsOf(schedule) ==> GroupsOf(more) == GroupsOf(schedule))
      && (call.EmptyCall? ==> GroupsOf(more) == GroupsOf(schedule) - {call.group})
      && (!call.AddCall? && !call.EmptyCall? ==> GroupsOf(more) == GroupsOf(schedule))
    ensures HistoryOf([]) == [] && GroupsOf([]) == map[]
  {
    assert (schedule + [call])[..|schedule|] == schedule;
  }

  // The goroutine of a watch made its next move, when there is one.
  predicate Proceeds(before: Watch, after: Watch, revisions: nat) {
    match before
    case Starting => !after.Starting?
    case Copying(_, _, _, todo) => if todo != {} then after.Copying? && after.todo < todo else after.Following?
    case Following(_, _, at) =>
      after.Following? && after.at == (if at < revisions then at + 1 else at)
  }

  class Listener {
    const decode: Decoder
    const inRange: InRange

    var outputFileHasKeys: Groups
    var namesWithOutputFile: Index
    var outputFileMap: Exports
    var etcdSettings: Mirrors

    // Whether Start has set where exports go.
    var listening: bool

    // Whether the etcd watcher exists, and its closeHandler with the state of each goroutine.
    var started: bool
    var closeHandler: map<string, Watch>

    // The store that the watches read, as the list of its revisions.
    var history: History

    // The names that ever had a watch, and those that were watched again later.
    ghost var watched: set<string>
    ghost var rewatched: set<string>

    constructor (decode: Decoder, inRange: InRange)
      ensures this.decode == decode && this.inRange == inRange
      ensures outputFileHasKeys == map[] && namesWithOutputFile == map[] && outputFileMap == map[]
      ensures etcdSettings == map[] && closeHandler == map[] && history == [] && !started && !listening
      ensures Valid() && watched == rewatched == {}
    {
      this.decode, this.inRange := decode, inRange;
      outputFileHasKeys, namesWithOutputFile, outputFileMap := map[], map[], map[];
      etcdSettings, closeHandler, history := map[], map[], [];
      started, listening, watched, rewatched := false, false, {}, {};
    }

    // -------------------------------------------------------------------------------- Groups

    ghost predicate IndexOk()
      reads this`outputFileHasKeys, this`namesWithOutputFile
    {
      IsInverse(namesWithOutputFile, outputFileHasKeys)
    }

    // Appends a watch key to the list of its name and group.
    method AppendKey(name: string, group: string, key: string)
      requires Compact(namesWithOutputFile)
      modifies this`namesWithOutputFile
      ensures namesWithOutputFile ==
        WithList(old(namesWithOutputFile), name, group, ListOf(old(namesWithOutputFile), name, group) + [key])
    {
      if name !in namesWithOutputFile || |namesWithOutputFile[name]| == 0 {
        namesWithOutputFile := namesWithOutputFile[name := map[]];
      }
      var keys := if group in namesWithOutputFile[name] then namesWithOutputFile[name][group] else [];
      namesWithOutputFile := namesWithOutputFile[name := namesWithOutputFile[name][group := keys + [key]]];
    }

    // A new group starts with no exports, and every one of its watches is listed once, in whatever
    // order the configuration is visited.
    method InsertGroup(wsi: map<string, WatchServerInfo>, outputalias: string) returns (ok: bool)
      requires IndexOk() && outputFileMap.Keys == outputFileHasKeys.Keys
      modifies this`outputFileHasKeys, this`namesWithOutputFile, this`outputFileMap
      ensures IndexOk() && outputFileMap.Keys == outputFileHasKeys.Keys
      ensures ok <==> outputalias !in old(outputFileHasKeys)
      ensures SameElsewhere(namesWithOutputFile, old(namesWithOutputFile), outputalias)
      ensures ok ==> outputFileHasKeys == old(outputFileHasKeys)[outputalias := wsi]
      ensures ok ==> outputFileMap == old(outputFileMap)[outputalias := map[]]
      ensures !ok ==> unchanged(this)
    {
      if outputalias in outputFileHasKeys {
        return false;
      }
      forall name ensures ListOf(namesWithOutputFile, name, outputalias) == [] {
        NoListOf(namesWithOutputFile, outputFileHasKeys, name, outputalias);
      }
      outputFileHasKeys := outputFileHasKeys[outputalias := wsi];
      var todo := wsi.Keys;
      while todo != {}
        invariant outputFileHasKeys == old(outputFileHasKeys)[outputalias := wsi] && outputFileMap == old(outputFileMap)
        invariant todo <= wsi.Keys && Compact(namesWithOutputFile)
        invariant SameElsewhere(namesWithOutputFile, old(namesWithOutputFile), outputalias)
        invariant forall name :: NoDuplicates(ListOf(namesWithOutputFile, name, outputalias))
        invariant forall name, key ::
          key in ListOf(namesWithOutputFile, name, outputalias) <==> key in wsi && key !in todo && wsi[key].name == name
      {
        var sname :| sname in todo;
        todo := todo - {sname};
        var name := wsi[sname].name;
        WithListLists(namesWithOutputFile, name, outputalias, ListOf(namesWithOutputFile, name, outputalias) + [sname]);
        AppendKey(name, outputalias, sname);
      }
      if outputalias !in outputFileMap {
        outputFileMap := outputFileMap[outputalias := map[]];
      }
      AddedIsInverse(old(namesWithOutputFile), namesWithOutputFile, old(outputFileHasKeys), wsi, outputalias);
      return true;
    }

    /** RemoveWatch of the watcher. */
    method RemoveWatch(key: string) returns (ok: bool)
      requires started
      modifies this`closeHandler
      ensures ok == (key in old(closeHandler)) && closeHandler == old(closeHandler) - {key}
    {
      ok := key in closeHandler;
      if ok {
        closeHandler := closeHandler - {key};
      }
    }

    // Drops a whole prefix of the list, through the watch key.
    method DropFromList(name: string, group: string, key: string)
      modifies this`namesWithOutputFile
      ensures namesWithOutputFile == DroppedList(old(namesWithOutputFile), name, group, key)
    {
      if name in namesWithOutputFile {
        var v := namesWithOutputFile[name];
        if group in v {
          var filekeyslist := v[group];
          var snameindex := IndexOf(filekeyslist, key);
          DropThroughIs(filekeyslist, key, snameindex);
          if snameindex != -1 {
            namesWithOutputFile := namesWithOutputFile[name := v[group := filekeyslist[snameindex + 1..]]];
          }
        }
      }
    }

    // Deletes the list of a group when it is empty.
    method TrimName(name: string, group: string)
      modifies this`namesWithOutputFile
      ensures namesWithOutputFile == Trimmed(old(namesWithOutputFile), name, group)
    {
      if |ListOf(namesWithOutputFile, name, group)| == 0 && name in namesWithOutputFile {
        namesWithOutputFile := namesWithOutputFile[name := namesWithOutputFile[name] - {group}];
      }
    }

    // Deletes a name without groups, and its watch; without a watcher this panics.
    method CleanName(name: string) returns (panicked: bool)
      modifies this`namesWithOutputFile, this`closeHandler
      ensures panicked <==> !started && name !in Cleaned(old(namesWithOutputFile), name)
      ensures panicked ==> unchanged(this)
      ensures !panicked ==> namesWithOutputFile == Cleaned(old(namesWithOutputFile), name)
      ensures !panicked ==> closeHandler == old(closeHandler) - (if name in namesWithOutputFile then {} else {name})
    {
      if name !in namesWithOutputFile || |namesWithOutputFile[name]| == 0 {
        if !started {
          return true;
        }
        var _ := RemoveWatch(name);
        namesWithOutputFile := namesWithOutputFile - {name};
      }
      return false;
    }

    // What EmptyGroupWatchs does for one watch.
    method DropKey(name: string, group: string, key: string) returns (panicked: bool)
      requires Compact(namesWithOutputFile)
      modifies this`namesWithOutputFile, this`closeHandler
      ensures panicked <==> !started && name !in Dropped(old(namesWithOutputFile), name, group, key)
      ensures !panicked ==> namesWithOutputFile == Dropped(old(namesWithOutputFile), name, group, key)
      ensures !panicked ==> closeHandler == old(closeHandler) - (if name in namesWithOutputFile then {} else {name})
    {
      hide Compact, DroppedList, Trimmed, Cleaned;
      DropFromList(name, group, key);
      TrimName(name, group);
      panicked := CleanName(name);
    }

    // Although each watch drops a whole prefix of its list, the lists of the group are gone in the end
    // for every order of the watches, the other groups keep theirs, and exactly the watches of names
    // that no other group wants are removed.  Whether it panics does not depend on the order either.
    method RemoveGroup(outputalias: string) returns (panicked: bool)
      requires IndexOk() && closeHandler.Keys <= namesWithOutputFile.Keys
      modifies this`outputFileHasKeys, this`namesWithOutputFile, this`outputFileMap, this`closeHandler
      ensures panicked <==> (!started && outputalias in old(outputFileHasKeys) &&
        LosesName(old(namesWithOutputFile), old(outputFileHasKeys)[outputalias], outputalias))
      ensures outputFileHasKeys == old(outputFileHasKeys) - {outputalias}
      ensures outputFileMap == old(outputFileMap) - {outputalias}
      ensures !panicked ==> IndexOk() && SameElsewhere(namesWithOutputFile, old(namesWithOutputFile), outputalias)
      ensures !panicked ==> closeHandler == Needed(old(closeHandler), namesWithOutputFile)
    {
      hide Compact, Dropped, DropThrough, ListOf, IsInverse, WantedElsewhere;
      outputFileMap := outputFileMap - {outputalias};
      if outputalias !in outputFileHasKeys {
        assert outputFileHasKeys - {outputalias} == outputFileHasKeys;
        assert Needed(closeHandler, namesWithOutputFile) == closeHandler;
        return false;
      }
      EverythingRemains(namesWithOutputFile, outputFileHasKeys, outputalias);
      var groupWatchs := outputFileHasKeys[outputalias];
      ghost var before := namesWithOutputFile;
      outputFileHasKeys := outputFileHasKeys - {outputalias};
      var todo := groupWatchs.Keys;
      assert Needed(closeHandler, namesWithOutputFile) == closeHandler;
      while todo != {}
        invariant outputFileHasKeys == old(outputFileHasKeys) - {outputalias}
        invariant outputFileMap == old(outputFileMap) - {outputalias}
        invariant Remaining(namesWithOutputFile, before, outputalias, groupWatchs, todo)
        invariant closeHandler == Needed(old(closeHandler), namesWithOutputFile)
        invariant !started ==>
          forall key :: key in groupWatchs && key !in todo ==> groupWatchs[key].name in namesWithOutputFile
      {
        var sname :| sname in todo;
        assert todo == todo + {sname};
        var name := groupWatchs[sname].name;
        DropKeepsRemaining(namesWithOutputFile, before, outputalias, groupWatchs, todo, sname);
        DropKeepsNeeded(old(closeHandler), namesWithOutputFile, before, outputalias, groupWatchs, todo, sname);
        ghost var index := namesWithOutputFile;
        panicked := DropKey(name, outputalias, sname);
        if panicked {
          GoneIsNotWanted(index, before, name, outputalias, sname);
          return;
        }
        todo := todo - {sname};
      }
      NothingRemains(namesWithOutputFile, before, old(outputFileHasKeys), outputalias, groupWatchs);
      if !started {
        forall key | key in groupWatchs ensures WantedElsewhere(before, groupWatchs[key].name, outputalias) {
          StillThereIsWanted(namesWithOutputFile, before, outputFileHasKeys, groupWatchs[key].name, outputalias);
        }
      }
      return false;
    }

    /** AddWatch of the watcher: starts the goroutine of a watch that has none. */
    method AddWatch(key: string) returns (ok: bool)
      requires started
      modifies this`closeHandler, this`watched, this`rewatched
      ensures ok == (key !in old(closeHandler))
      ensures closeHandler == if ok then old(closeHandler)[key := Starting] else old(closeHandler)
      ensures watched == if ok then old(watched) + {key} else old(watched)
      ensures rewatched == if ok then old(rewatched) + (old(watched) * {key}) else old(rewatched)
    {
      if key in closeHandler {
        return false;
      }
      closeHandler := closeHandler[key := Starting];
      rewatched := rewatched + (watched * {key});
      watched := watched + {key};
      return true;
    }

    // Every name of the index gets a watch, in whatever order, and the watches that run go on.
    method WatchAll()
      requires FirstWatches(etcdSettings, closeHandler, watched, rewatched)
      modifies this`closeHandler, this`watched, this`rewatched
      ensures FirstWatches(etcdSettings, closeHandler, watched, rewatched)
      ensures closeHandler == Added(old(closeHandler), ToWatch())
      ensures watched == Seen(old(closeHandler), old(watched), ToWatch())
      ensures rewatched == SeenAgain(old(closeHandler), old(watched), old(rewatched), ToWatch())
    {
      hide FirstWatches, Added, Seen, SeenAgain;
      var todo := namesWithOutputFile.Keys;
      ghost var done: set<string> := {};
      AddedNone(closeHandler, watched, rewatched);
      while todo != {}
        invariant done !! todo && (started ==> done + todo == ToWatch()) && (!started ==> done == {})
        invariant FirstWatches(etcdSettings, closeHandler, watched, rewatched)
        invariant closeHandler == Added(old(closeHandler), done)
        invariant watched == Seen(old(closeHandler), old(watched), done)
        invariant rewatched == SeenAgain(old(closeHandler), old(watched), old(rewatched), done)
      {
        var key :| key in todo;
        todo := todo - {key};
        if started {
          AddedOneMore(old(closeHandler), old(watched), old(rewatched), done, key);
          if key !in closeHandler {
            AddKeepsFirst(etcdSettings, closeHandler, watched, rewatched, key);
          }
          var _ := AddWatch(key);
          done := done + {key};
        }
      }
    }

    // The names that ReloadEtcdWatch watches: none without a watcher.
    ghost function ToWatch(): set<string>
      reads this`namesWithOutputFile, this`started
    {
      if started then namesWithOutputFile.Keys else {}
    }

    // -------------------------------------------------------------------------------- The mirror

    // Deletes one node of a watch key, and the watch key with its last node.
    method DeleteNode(watchkey: string, key: string)
      modifies this`etcdSettings
      ensures NodesOf(etcdSettings, watchkey) == NodesOf(old(etcdSettings), watchkey) - {key}
      ensures SameNodesBut(etcdSettings, old(etcdSettings), watchkey)
    {
      if watchkey in etcdSettings {
        if key in etcdSettings[watchkey] {
          var nodes := etcdSettings[watchkey] - {key};
          etcdSettings := etcdSettings[watchkey := nodes];
          if |nodes| == 0 {
            etcdSettings := etcdSettings - {watchkey};
          }
        }
      }
    }

    /** tiggerChangeWatchKeyValue: sets or deletes one node of a watch key, or all of them. */
    method TiggerChangeWatchKeyValue(watchkey: string, key: string, value: string)
      modifies this`etcdSettings
      ensures NodesOf(etcdSettings, watchkey) == Updated(decode, NodesOf(old(etcdSettings), watchkey), key, value)
      ensures key == "" ==> NodesOf(etcdSettings, watchkey) == map[]
      ensures key != "" && value == "" ==>
        NodesOf(etcdSettings, watchkey) == NodesOf(old(etcdSettings), watchkey) - {key}
      ensures key != "" && value != "" && decode(value).Some? ==>
        NodesOf(etcdSettings, watchkey) == NodesOf(old(etcdSettings), watchkey)[key := decode(value).value]
      ensures key != "" && value != "" && decode(value).None? ==>
        NodesOf(etcdSettings, watchkey) == NodesOf(old(etcdSettings), watchkey)
      ensures SameNodesBut(etcdSettings, old(etcdSettings), watchkey)
    {
      if key == "" {
        if watchkey in etcdSettings {
          etcdSettings := etcdSettings - {watchkey};
        }
        return;
      }
      if value == "" {
        DeleteNode(watchkey, key);
        return;
      }
      if watchkey !in etcdSettings {
        etcdSettings := etcdSettings[watchkey := map[]];
      }
      var ni := decode(value);
      if ni.Some? {
        etcdSettings := etcdSettings[watchkey := etcdSettings[watchkey][key := ni.value]];
      }
    }

    // -------------------------------------------------------------------------------- The exports

    /** The entries of one watch, for every order of the nodes. */
    method Entries(name: string, version: string) returns (entries: seq<WriteServerInfo>)
      ensures Exact(inRange, NodesOf(etcdSettings, name), version, entries)
    {
      entries := [];
      if name in etcdSettings {
        var servernodes := etcdSettings[name];
        var todo := servernodes.Keys;
        while todo != {}
          invariant todo <= servernodes.Keys
          invariant forall i, j :: 0 <= i < j < |entries| ==> entries[i].serverkey != entries[j].serverkey
          invariant forall e :: e in entries ==> (
            && e.serverkey in servernodes && e.serverkey !in todo && inRange(servernodes[e.serverkey].version, version)
            && e.ip == servernodes[e.serverkey].ip && e.port == servernodes[e.serverkey].port)
          invariant forall k :: k in servernodes && k !in todo && inRange(servernodes[k].version, version) ==>
            WriteServerInfo(k, servernodes[k].ip, servernodes[k].port) in entries
        {
          var nodeallname :| nodeallname in todo;
          todo := todo - {nodeallname};
          if inRange(servernodes[nodeallname].version, version) {
            var nodeInfo := servernodes[nodeallname];
            entries := entries + [WriteServerInfo(nodeallname, nodeInfo.ip, nodeInfo.port)];
          }
        }
      }
    }

    // What tiggerChangesWatchKey does for one group.
    method RefreshGroup(watchkey: string, group: string, namekeys: seq<string>)
      requires forall key :: key in namekeys ==> Watched(outputFileHasKeys, watchkey, group, key)
      modifies this`outputFileMap
      ensures GroupRefreshed(
        inRange, outputFileHasKeys, etcdSettings, old(outputFileMap), outputFileMap, group, namekeys)
    {
      if group !in outputFileMap {
        outputFileMap := outputFileMap[group := map[]];
      }
      assert GroupRefreshed(inRange, outputFileHasKeys, etcdSettings, old(outputFileMap), outputFileMap, group, []);
      hide Exact, GroupRefreshed, NodesOf;
      for i := 0 to |namekeys|
        invariant group in outputFileMap
        invariant GroupRefreshed(
          inRange, outputFileHasKeys, etcdSettings, old(outputFileMap), outputFileMap, group, namekeys[..i])
      {
        var namekey := namekeys[i];
        assert namekey in namekeys;
        if group in outputFileHasKeys && namekey in outputFileHasKeys[group] {
          var fconfig := outputFileHasKeys[group][namekey];
          var entries := Entries(fconfig.name, fconfig.version);
          RefreshOneMore(inRange, outputFileHasKeys, etcdSettings, old(outputFileMap), outputFileMap, group,
                         namekeys[..i], namekey, entries);
          outputFileMap := outputFileMap[group := outputFileMap[group][namekey := entries]];
        }
        assert namekeys[..i + 1] == namekeys[..i] + [namekey];
      }
      assert namekeys[..|namekeys|] == namekeys;
    }

    /** tiggerChangesWatchKey: afterwards every export of the name is exact, for every order of the
        groups and nodes, and no other export has changed.  When nothing listens it panics at the first
        group. */
    method TiggerChangesWatchKey(watchkey: string) returns (panicked: bool)
      requires IndexOk() && outputFileMap.Keys == outputFileHasKeys.Keys
      modifies this`outputFileMap
      ensures panicked <==> !listening && watchkey in namesWithOutputFile
      ensures !panicked ==>
        Refreshed(inRange, outputFileHasKeys, etcdSettings, old(outputFileMap), outputFileMap, watchkey)
    {
      ListedIffWatched(namesWithOutputFile, outputFileHasKeys, watchkey);
      hide ExactAt, GroupRefreshed, Lists;
      if watchkey in namesWithOutputFile {
        var todo := namesWithOutputFile[watchkey].Keys;
        while todo != {}
          invariant todo <= namesWithOutputFile[watchkey].Keys
          invariant !listening ==> todo == namesWithOutputFile[watchkey].Keys
          invariant RefreshedBut(
            inRange, outputFileHasKeys, etcdSettings, old(outputFileMap), outputFileMap, watchkey, todo)
        {
          var eachfile :| eachfile in todo;
          var namekeys := namesWithOutputFile[watchkey][eachfile];
          ghost var middle := outputFileMap;
          RefreshGroup(watchkey, eachfile, namekeys);
          if !listening {
            return true;
          }
          RefreshOneGroup(inRange, outputFileHasKeys, etcdSettings, old(outputFileMap), middle, outputFileMap, watchkey,
                          todo, eachfile, namekeys);
          todo := todo - {eachfile};
        }
      }
      return false;
    }

    // What ReloadExport does to the exports.
    method RefreshAll() returns (panicked: bool)
      requires IndexOk() && Coherent(inRange, outputFileHasKeys, etcdSettings, outputFileMap, InBatch(closeHandler))
      modifies this`outputFileMap
      ensures panicked <==> !listening && namesWithOutputFile != map[]
      ensures !panicked ==> Coherent(inRange, outputFileHasKeys, etcdSettings, outputFileMap, {})
      ensures !panicked ==> forall group, key :: group in outputFileHasKeys && key in outputFileHasKeys[group] ==>
        ExactAt(inRange, outputFileHasKeys, etcdSettings, outputFileMap, group, key)
    {
      hide Exact, NodesOf;
      var todo := namesWithOutputFile.Keys;
      while todo != {}
        invariant todo <= namesWithOutputFile.Keys
        invariant !listening ==> todo == namesWithOutputFile.Keys
        invariant outputFileMap.Keys == outputFileHasKeys.Keys
        invariant forall group, key :: Populated(outputFileMap, group, key) ==> key in outputFileHasKeys[group]
        invariant forall name, group, key ::
          Watched(outputFileHasKeys, name, group, key) && name in namesWithOutputFile && name !in todo ==>
          ExactAt(inRange, outputFileHasKeys, etcdSettings, outputFileMap, group, key)
      {
        var key :| key in todo;
        todo := todo - {key};
        label before:
        panicked := TiggerChangesWatchKey(key);
        if panicked {
          return;
        }
        forall name, group, k |
          Watched(outputFileHasKeys, name, group, k) && name in namesWithOutputFile && name !in todo
          ensures ExactAt(inRange, outputFileHasKeys, etcdSettings, outputFileMap, group, k)
        {
          if name != key {
            assert SameAt(outputFileMap, old@before(outputFileMap), group, k);
          }
        }
        forall group, k | Populated(outputFileMap, group, k) ensures k in outputFileHasKeys[group] {
          if !Watched(outputFileHasKeys, key, group, k) {
            assert SameAt(outputFileMap, old@before(outputFileMap), group, k);
          }
        }
      }
      forall group, key | group in outputFileHasKeys && key in outputFileHasKeys[group]
        ensures ExactAt(inRange, outputFileHasKeys, etcdSettings, outputFileMap, group, key)
      {
        var name := outputFileHasKeys[group][key].name;
        ListedIffWatched(namesWithOutputFile, outputFileHasKeys, name);
        assert Watched(outputFileHasKeys, name, group, key);
      }
      return false;
    }

    // -------------------------------------------------------------------------------- The callbacks

    /** Create and Modify of ListenerSC. */
    method Change(watchkey: string, key: string, value: string) returns (panicked: bool)
      requires IndexOk() && outputFileMap.Keys == outputFileHasKeys.Keys
      modifies this`etcdSettings, this`outputFileMap
      ensures panicked <==> !listening && watchkey in namesWithOutputFile
      ensures NodesOf(etcdSettings, watchkey) == Updated(decode, NodesOf(old(etcdSettings), watchkey), key, value)
      ensures SameNodesBut(etcdSettings, old(etcdSettings), watchkey)
      ensures !panicked ==>
        Refreshed(inRange, outputFileHasKeys, etcdSettings, old(outputFileMap), outputFileMap, watchkey)
    {
      TiggerChangeWatchKeyValue(watchkey, key, value);
      panicked := TiggerChangesWatchKey(watchkey);
    }

    /** Delete of ListenerSC. */
    method Delete(watchkey: string, key: string) returns (panicked: bool)
      requires IndexOk() && outputFileMap.Keys == outputFileHasKeys.Keys
      modifies this`etcdSettings, this`outputFileMap
      ensures panicked <==> !listening && watchkey in namesWithOutputFile
      ensures key != "" ==> NodesOf(etcdSettings, watchkey) == NodesOf(old(etcdSettings), watchkey) - {key}
      ensures key == "" ==> NodesOf(etcdSettings, watchkey) == map[]
      ensures SameNodesBut(etcdSettings, old(etcdSettings), watchkey)
      ensures !panicked ==>
        Refreshed(inRange, outputFileHasKeys, etcdSettings, old(outputFileMap), outputFileMap, watchkey)
    {
      TiggerChangeWatchKeyValue(watchkey, key, "");
      panicked := TiggerChangesWatchKey(watchkey);
    }

    /** Empty of ListenerSC. */
    method Empty(watchkey: string) returns (panicked: bool)
      requires IndexOk() && outputFileMap.Keys == outputFileHasKeys.Keys
      modifies this`etcdSettings, this`outputFileMap
      ensures panicked <==> !listening && watchkey in namesWithOutputFile
      ensures NodesOf(etcdSettings, watchkey) == map[] && SameNodesBut(etcdSettings, old(etcdSettings), watchkey)
      ensures !panicked ==>
        Refreshed(inRange, outputFileHasKeys, etcdSettings, old(outputFileMap), outputFileMap, watchkey)
    {
      TiggerChangeWatchKeyValue(watchkey, "", "");
      panicked := TiggerChangesWatchKey(watchkey);
    }

    // -------------------------------------------------------------------------------- Runs

    /** The index is the inverse of the groups, every export is exact outside a batch, only names of
        the index are watched, and every watched name is mirrored as far as its goroutine got, from
        nothing when it is watched for the first time. */
    ghost predicate Valid()
      reads this
    {
      && IndexOk()
      && closeHandler.Keys <= namesWithOutputFile.Keys && (closeHandler != map[] ==> started)
      && (started ==> listening)
      && FirstWatches(etcdSettings, closeHandler, watched, rewatched)
      && Mirrored(decode, inRange, outputFileHasKeys, etcdSettings, outputFileMap, history, closeHandler)
    }

    /** AddGroupWatchs: a group that exists is refused; a new one is listed and has no exports yet. */
    method AddGroupWatchs(wsi: map<string, WatchServerInfo>, outputalias: string) returns (ok: bool)
      requires Valid()
      modifies this`outputFileHasKeys, this`namesWithOutputFile, this`outputFileMap
      ensures Valid() && (ok <==> outputalias !in old(outputFileHasKeys))
      ensures SameElsewhere(namesWithOutputFile, old(namesWithOutputFile), outputalias)
      ensures ok ==> outputFileHasKeys == old(outputFileHasKeys)[outputalias := wsi]
      ensures ok ==> outputFileMap == old(outputFileMap)[outputalias := map[]]
      ensures !ok ==> unchanged(this)
    {
      ok := InsertGroup(wsi, outputalias);
      if ok {
        NamesStay(old(namesWithOutputFile), namesWithOutputFile, old(outputFileHasKeys), outputalias);
        AdditionKeepsMirrored(decode, inRange, old(outputFileHasKeys), etcdSettings, old(outputFileMap), history,
                              closeHandler, outputalias, wsi);
      }
    }

    /** EmptyGroupWatchs: the group is gone from the tables, and exactly the watches of the names that
        no other group wants are removed.  It panics exactly when there is no watcher yet and the group
        is the last one to list some name. */
    method EmptyGroupWatchs(outputalias: string) returns (panicked: bool)
      requires Valid()
      modifies this`outputFileHasKeys, this`namesWithOutputFile, this`outputFileMap, this`closeHandler
      ensures panicked <==> (!started && outputalias in old(outputFileHasKeys) &&
        LosesName(old(namesWithOutputFile), old(outputFileHasKeys)[outputalias], outputalias))
      ensures !panicked ==> Valid() && SameElsewhere(namesWithOutputFile, old(namesWithOutputFile), outputalias)
      ensures outputFileHasKeys == old(outputFileHasKeys) - {outputalias}
      ensures outputFileMap == old(outputFileMap) - {outputalias}
      ensures !panicked ==> closeHandler == Needed(old(closeHandler), namesWithOutputFile)
    {
      hide IsInverse, LosesName, SameElsewhere;
      panicked := RemoveGroup(outputalias);
      if !panicked {
        RemovalKeepsMirrored(decode, inRange, old(outputFileHasKeys), etcdSettings, old(outputFileMap), history,
                             old(closeHandler), outputalias, namesWithOutputFile);
      }
    }

    /** Adding a new group and emptying it restores every table and every watch, unless emptying it
        panics. */
    method AddThenEmpty(wsi: map<string, WatchServerInfo>, outputalias: string) returns (panicked: bool)
      requires Valid() && outputalias !in outputFileHasKeys
      modifies this`outputFileHasKeys, this`namesWithOutputFile, this`outputFileMap, this`closeHandler
      ensures panicked <==> !started && LosesName(old(namesWithOutputFile), wsi, outputalias)
      ensures !panicked ==> Valid() && unchanged(this)
    {
      assert closeHandler == Needed(closeHandler, namesWithOutputFile) && outputalias !in outputFileMap;
      hide IsInverse, SameElsewhere, Mirrored, Needed, LosesName;
      var ok := AddGroupWatchs(wsi, outputalias);
      ghost var added := namesWithOutputFile;
      LosesSameNames(old(namesWithOutputFile), added, wsi, outputalias);
      panicked := EmptyGroupWatchs(outputalias);
      if !panicked {
        InsertThenRemove(old(outputFileHasKeys), outputalias, wsi);
        InsertThenRemove(old(outputFileMap), outputalias, map[]);
        AddThenEmptyRestores(old(namesWithOutputFile), added, namesWithOutputFile, outputFileHasKeys, outputalias);
      }
    }

    /** A group added and emptied before Start: the call panics. */
    static method EmptyBeforeStart(decode: Decoder, inRange: InRange) returns (panicked: bool)
      ensures panicked
    {
      var l := new Listener(decode, inRange);
      var _ := l.AddGroupWatchs(map["grpc" := WatchServerInfo("service", ">=1.0.0")], "group");
      assert forall g :: g != "group" ==>
        ListOf(l.namesWithOutputFile, "service", g) == ListOf(map[], "service", g) == [];
      assert "grpc" in l.outputFileHasKeys["group"];
      panicked := l.EmptyGroupWatchs("group");
    }

    /** ReloadExport: every watch of every group is populated with exactly its nodes.  It panics exactly
        when nothing listens yet and some group has a watch. */
    method ReloadExport() returns (panicked: bool)
      requires Valid()
      modifies this`outputFileMap
      ensures panicked <==> !listening && SomeWatch(outputFileHasKeys)
      ensures !panicked ==> Valid()
      ensures !panicked ==> forall group, key :: group in outputFileHasKeys && key in outputFileHasKeys[group] ==>
        ExactAt(inRange, outputFileHasKeys, etcdSettings, outputFileMap, group, key)
    {
      NoNameIffNoWatch(namesWithOutputFile, outputFileHasKeys);
      hide ExactAt, IsInverse, AllFollow, FirstWatches, Coherent, SomeWatch;
      panicked := RefreshAll();
      if !panicked {
        FullyCoherent(inRange, outputFileHasKeys, etcdSettings, outputFileMap, InBatch(closeHandler));
      }
    }

    /** A group added and exported before Start: the call panics. */
    static method ExportBeforeStart(decode: Decoder, inRange: InRange) returns (panicked: bool)
      ensures panicked
    {
      var l := new Listener(decode, inRange);
      var _ := l.AddGroupWatchs(map["grpc" := WatchServerInfo("service", ">=1.0.0")], "group");
      l.WatchedName("service", "group", "grpc");
      panicked := l.ReloadExport();
    }

    /** After a Start that did not connect, exporting is safe and emptying the group still panics. */
    static method FailedStart(decode: Decoder, inRange: InRange) returns (exporting: bool, emptying: bool)
      ensures !exporting && emptying
    {
      hide Listener.Valid;
      var l := new Listener(decode, inRange);
      l.Start(false);
      var _ := l.AddGroupWatchs(map["grpc" := WatchServerInfo("service", ">=1.0.0")], "group");
      assert forall g :: g != "group" ==>
        ListOf(l.namesWithOutputFile, "service", g) == ListOf(map[], "service", g) == [];
      assert "grpc" in l.outputFileHasKeys["group"];
      exporting := l.ReloadExport();
      emptying := l.EmptyGroupWatchs("group");
    }

    lemma WatchedName(name: string, group: string, key: string)
      requires Valid() && Watched(outputFileHasKeys, name, group, key)
      ensures name in namesWithOutputFile
    {
      NameIffWatched(namesWithOutputFile, outputFileHasKeys, name);
    }

    /** Start: from now on something listens, and when the client connects, every name of the index gets
        a watch. */
    method Start(connected: bool)
      requires Valid() && !started
      modifies this`listening, this`started, this`closeHandler, this`watched, this`rewatched
      ensures Valid() && listening && started == connected
      ensures closeHandler == Added(old(closeHandler), ToWatch())
      ensures watched == Seen(old(closeHandler), old(watched), ToWatch())
      ensures rewatched == SeenAgain(old(closeHandler), old(watched), old(rewatched), ToWatch())
    {
      hide FirstWatches, Seen, SeenAgain;
      listening := true;
      AddedNone(closeHandler, watched, rewatched);
      if connected {
        started := true;
        ReloadEtcdWatch();
      }
    }

    /** ReloadEtcdWatch keeps the invariant, and afterwards exactly the names of the index are watched. */
    method ReloadEtcdWatch()
      requires Valid()
      modifies this`closeHandler, this`watched, this`rewatched
      ensures Valid() && (started ==> closeHandler.Keys == namesWithOutputFile.Keys)
      ensures closeHandler == Added(old(closeHandler), ToWatch())
      ensures watched == Seen(old(closeHandler), old(watched), ToWatch())
      ensures rewatched == SeenAgain(old(closeHandler), old(watched), old(rewatched), ToWatch())
    {
      hide FirstWatches, Seen, SeenAgain;
      WatchAll();
      assert InBatch(closeHandler) == InBatch(old(closeHandler));
    }

    // The store is written; etcd has no empty key.
    method Write(e: Event)
      requires Valid() && e.key != ""
      modifies this`history
      ensures Valid() && history == old(history) + [e]
    {
      forall n | n in closeHandler
        ensures Follows(decode, etcdSettings, history + [e], n, closeHandler[n])
      {
        WriteKeepsFollows(decode, etcdSettings, history, e, n, closeHandler[n]);
      }
      history := history + [e];
    }

    // The goroutine of a watch reaches its next state.
    method Move(name: string, watch: Watch)
      requires IndexOk() && closeHandler.Keys <= namesWithOutputFile.Keys && started && name in closeHandler
      requires Mirrored(
        decode, inRange, outputFileHasKeys, etcdSettings, outputFileMap, history, closeHandler[name := watch])
      requires listening && FirstWatches(etcdSettings, closeHandler[name := watch], watched, rewatched)
      modifies this`closeHandler
      ensures Valid() && OnlyMoved(old(closeHandler), closeHandler, name) && closeHandler[name] == watch
    {
      closeHandler := closeHandler[name := watch];
    }

    // The goroutine reads the store: it starts to copy the keys found, or empties the mirror.
    method ReadStore(name: string)
      requires Valid() && name in closeHandler && closeHandler[name].Starting?
      modifies this`closeHandler, this`etcdSettings, this`outputFileMap
      ensures Valid() && OnlyMoved(old(closeHandler), closeHandler, name)
      ensures var before, kvs := NodesOf(old(etcdSettings), name), Under(name, Store(history));
        if kvs != map[] then
          closeHandler[name] == Copying(before, |history|, kvs, kvs.Keys) && etcdSettings == old(etcdSettings)
        else
          closeHandler[name] == Following(before, |history|, |history|) && NodesOf(etcdSettings, name) == map[]
    {
      assert outputFileMap.Keys == outputFileHasKeys.Keys;
      hide Follows, NodesOf, Under, Store, IsInverse, Mirrored, SameNodesBut, Refreshed, IndexOk, FirstWatches;
      ReadFollows(decode, etcdSettings, history, name);
      var before := NodesOf(etcdSettings, name);
      var kvs := Under(name, Store(history));
      var watch;
      if |kvs| > 0 {
        watch := Copying(before, |history|, kvs, kvs.Keys);
        MoveKeepsMirrored(decode, inRange, outputFileHasKeys, etcdSettings, outputFileMap, history, closeHandler,
                          name, watch);
      } else {
        watch := Following(before, |history|, |history|);
        var _ := Empty(name);
        CallbackKeepsMirrored(decode, inRange, outputFileHasKeys, old(etcdSettings), etcdSettings, old(outputFileMap),
                              outputFileMap, history, closeHandler, name, watch);
      }
      StepKeepsFirst(old(etcdSettings), etcdSettings, closeHandler, name, watch, watched, rewatched);
      Move(name, watch);
    }

    // The goroutine hands one of the keys it found to Set, in whatever order.
    method SetNext(name: string)
      requires Valid() && name in closeHandler && closeHandler[name].Copying? && closeHandler[name].todo != {}
      modifies this`closeHandler, this`etcdSettings
      ensures Valid() && OnlyMoved(old(closeHandler), closeHandler, name)
      ensures var watch := old(closeHandler)[name];
        exists key :: key in watch.todo && closeHandler[name] == watch.(todo := watch.todo - {key})
    {
      var watch := closeHandler[name];
      var key :| key in watch.todo;
      assert Follows(decode, etcdSettings, history, name, watch) && NonEmptyKeys(history);
      hide Follows, NodesOf, Under, Store, IsInverse, Mirrored, SameNodesBut, Refreshed, IndexOk, FirstWatches;
      hide NonEmptyKeys, Updated;
      LeftToCopy(decode, etcdSettings, history, name, watch);
      TiggerChangeWatchKeyValue(name, key, watch.kvs[key]);
      SetFollows(decode, old(etcdSettings), etcdSettings, history, name, watch, key);
      var watch' := watch.(todo := watch.todo - {key});
      SetKeepsMirrored(decode, inRange, outputFileHasKeys, old(etcdSettings), etcdSettings, outputFileMap, history,
                       closeHandler, name, watch');
      StepKeepsFirst(old(etcdSettings), etcdSettings, closeHandler, name, watch', watched, rewatched);
      Move(name, watch');
    }

    // SetOk, and the goroutine goes on to the events.
    method SetOk(name: string)
      requires Valid() && name in closeHandler && closeHandler[name].Copying? && closeHandler[name].todo == {}
      modifies this`closeHandler, this`outputFileMap
      ensures Valid() && OnlyMoved(old(closeHandler), closeHandler, name)
      ensures var watch := old(closeHandler)[name];
        closeHandler[name] == Following(watch.before, watch.rev, watch.rev)
    {
      var watch := closeHandler[name];
      assert Follows(decode, etcdSettings, history, name, watch) && outputFileMap.Keys == outputFileHasKeys.Keys;
      hide Follows, NodesOf, Under, Store, IsInverse, Mirrored, SameNodesBut, Refreshed, IndexOk, FirstWatches;
      var _ := TiggerChangesWatchKey(name);
      CopiedFollows(decode, etcdSettings, history, name, watch);
      var watch' := Following(watch.before, watch.rev, watch.rev);
      CallbackKeepsMirrored(decode, inRange, outputFileHasKeys, etcdSettings, etcdSettings, old(outputFileMap),
                            outputFileMap, history, closeHandler, name, watch');
      StepKeepsFirst(old(etcdSettings), etcdSettings, closeHandler, name, watch', watched, rewatched);
      Move(name, watch');
    }

    // The goroutine receives the next event, and makes a callback if it is one of its prefix.
    method Deliver(name: string)
      requires Valid() && name in closeHandler && closeHandler[name].Following? && closeHandler[name].at < |history|
      modifies this`closeHandler, this`etcdSettings, this`outputFileMap
      ensures Valid() && OnlyMoved(old(closeHandler), closeHandler, name)
      ensures var watch := old(closeHandler)[name];
        closeHandler[name] == Following(watch.before, watch.rev, watch.at + 1)
      ensures var e, nodes := history[old(closeHandler)[name].at], NodesOf(old(etcdSettings), name);
        NodesOf(etcdSettings, name) == if name <= e.key then Replayed(decode, nodes, e) else nodes
    {
      var watch := closeHandler[name];
      var e := history[watch.at];
      assert Follows(decode, etcdSettings, history, name, watch) && outputFileMap.Keys == outputFileHasKeys.Keys;
      hide Follows, NodesOf, Under, Store, IsInverse, Mirrored, SameNodesBut, Refreshed, IndexOk, FirstWatches;
      var watch' := Following(watch.before, watch.rev, watch.at + 1);
      if name <= e.key {
        if e.Put? {
          var _ := Change(name, e.key, e.value);
        } else {
          var _ := Delete(name, e.key);
        }
        EventFollows(decode, old(etcdSettings), etcdSettings, history, name, watch);
        CallbackKeepsMirrored(decode, inRange, outputFileHasKeys, old(etcdSettings), etcdSettings, old(outputFileMap),
                              outputFileMap, history, closeHandler, name, watch');
      } else {
        EventFollows(decode, etcdSettings, etcdSettings, history, name, watch);
        MoveKeepsMirrored(decode, inRange, outputFileHasKeys, etcdSettings, outputFileMap, history, closeHandler,
                          name, watch');
      }
      StepKeepsFirst(old(etcdSettings), etcdSettings, closeHandler, name, watch', watched, rewatched);
      Move(name, watch');
    }

    /** The first part of watch, not interrupted: the goroutine reads the store, sets what it found in any
        order and goes on to the events. */
    method Copy(name: string)
      requires Valid() && name in closeHandler && closeHandler[name].Starting?
      modifies this`closeHandler, this`etcdSettings, this`outputFileMap
      ensures Valid() && OnlyMoved(old(closeHandler), closeHandler, name)
      ensures closeHandler[name] == Following(NodesOf(old(etcdSettings), name), |history|, |history|)
      ensures NodesOf(etcdSettings, name) ==
        AfterSnapshot(decode, NodesOf(old(etcdSettings), name), Under(name, Store(history)))
    {
      hide Mirrored, IndexOk, NodesOf, Under, Store, AfterSnapshot, MirrorAt;
      ReadStore(name);
      if closeHandler[name].Copying? {
        SetAll(name);
        SetOk(name);
      }
      CopiedNodes(name);
    }

    method SetAll(name: string)
      requires Valid() && name in closeHandler && closeHandler[name].Copying?
      modifies this`closeHandler, this`etcdSettings
      ensures Valid() && OnlyMoved(old(closeHandler), closeHandler, name)
      ensures closeHandler[name] == old(closeHandler)[name].(todo := {})
    {
      hide Mirrored, IndexOk, Valid;
      ghost var start := closeHandler[name];
      while closeHandler[name].todo != {}
        invariant Valid() && OnlyMoved(old(closeHandler), closeHandler, name) && closeHandler[name].Copying?
        invariant closeHandler[name] == start.(todo := closeHandler[name].todo)
        decreases closeHandler[name].todo
      {
        SetNext(name);
      }
    }

    lemma CopiedNodes(name: string)
      requires Valid() && name in closeHandler && closeHandler[name].Following?
      requires closeHandler[name].rev == closeHandler[name].at == |history|
      ensures NodesOf(etcdSettings, name) ==
        AfterSnapshot(decode, closeHandler[name].before, Under(name, Store(history)))
    {
      assert Follows(decode, etcdSettings, history, name, closeHandler[name]);
      assert history[..|history|] == history;
    }

    // Adds a group with one watch of a name, when there is no other group, and runs the first part of
    // the watch.
    method WatchOne(group: string, key: string, watch: WatchServerInfo)
      requires Valid() && started && outputFileHasKeys == map[]
      modifies this`outputFileHasKeys, this`namesWithOutputFile, this`outputFileMap
      modifies this`closeHandler, this`etcdSettings, this`watched, this`rewatched
      ensures Valid() && outputFileHasKeys == map[group := map[key := watch]] && watch.name in closeHandler
      ensures closeHandler[watch.name].Following? && closeHandler[watch.name].at == |history|
      ensures NodesOf(etcdSettings, watch.name) ==
        AfterSnapshot(decode, NodesOf(old(etcdSettings), watch.name), Under(watch.name, Store(history)))
    {
      hide FirstWatches, Mirrored, Seen, SeenAgain, SameElsewhere;
      NameIffWatched(namesWithOutputFile, outputFileHasKeys, watch.name);
      var _ := AddGroupWatchs(map[key := watch], group);
      assert Watched(outputFileHasKeys, watch.name, group, key);
      NameIffWatched(namesWithOutputFile, outputFileHasKeys, watch.name);
      hide Valid, NodesOf, AfterSnapshot, Under, Store;
      ReloadEtcdWatch();
      Copy(watch.name);
    }

    // Empties the only group when the watcher runs.
    method Unwatch(group: string)
      requires Valid() && started && outputFileHasKeys.Keys == {group}
      modifies this`outputFileHasKeys, this`namesWithOutputFile, this`outputFileMap, this`closeHandler
      ensures Valid() && outputFileHasKeys == map[]
    {
      hide Valid, SameElsewhere, LosesName;
      var _ := EmptyGroupWatchs(group);
    }

    // The first watch of a new listener, when the store holds one key.
    method WatchKey(group: string, key: string, watch: WatchServerInfo, a: string, value: string)
      requires Valid() && !started && outputFileHasKeys == map[] && etcdSettings == map[] && history == []
      requires watch.name <= a && a != "" && value != "" && decode(value).Some?
      modifies this
      ensures Valid() && started && outputFileHasKeys == map[group := map[key := watch]] && history == [Put(a, value)]
      ensures watch.name in closeHandler && closeHandler[watch.name].Following? && closeHandler[watch.name].at == 1
      ensures a in NodesOf(etcdSettings, watch.name)
    {
      assert NodesOf(etcdSettings, watch.name) == map[];
      hide Valid, NodesOf, AfterSnapshot, Under, Store;
      OneNode(decode, watch.name, a, value);
      Start(true);
      Write(Event.Put(a, value));
      WatchOne(group, key, watch);
    }

    /** Whatever the name and two keys under it: the name is watched, its group emptied and watched
        again.  The key deleted in between stays in the mirror, since the prefix is not empty. */
    method StaleNode(group: string, key: string, watch: WatchServerInfo, a: string, b: string, value: string)
      requires Valid() && !started && outputFileHasKeys == map[] && etcdSettings == map[] && history == []
      requires watch.name <= a && watch.name <= b && a != b && a != "" && b != ""
      requires value != "" && decode(value).Some?
      modifies this
      ensures Valid() && outputFileHasKeys == map[group := map[key := watch]] && watch.name in closeHandler
      ensures closeHandler[watch.name].Following? && closeHandler[watch.name].at == |history|
      ensures a in NodesOf(etcdSettings, watch.name) && a !in Shown(decode, watch.name, history, |history|)
    {
      hide Valid, NodesOf, AfterSnapshot, Under, Store, Shown;
      WatchKey(group, key, watch, a, value);
      Unwatch(group);
      StaleNodes(decode, watch.name, a, b, value, NodesOf(etcdSettings, watch.name));
      Write(Event.Put(b, value));
      Write(Event.Delete(a));
      assert history == [Put(a, value), Put(b, value), Event.Delete(a)];
      WatchOne(group, key, watch);
    }

    /** Whatever the name and a key under it: overwritten with a value that cannot be decoded, the key
        keeps its old node in the mirror. */
    method HiddenNode(group: string, key: string, watch: WatchServerInfo, a: string, value: string, bad: string)
      requires Valid() && !started && outputFileHasKeys == map[] && etcdSettings == map[] && history == []
      requires watch.name <= a && a != "" && value != "" && decode(value).Some? && Unreadable(decode, bad)
      modifies this
      ensures Valid() && outputFileHasKeys == map[group := map[key := watch]] && watch.name in closeHandler
      ensures closeHandler[watch.name].Following? && closeHandler[watch.name].at == |history|
      ensures a in NodesOf(etcdSettings, watch.name) && a !in Shown(decode, watch.name, history, |history|)
    {
      hide Valid, NodesOf, Shown;
      HiddenNodes(decode, watch.name, a, value, bad);
      WatchKey(group, key, watch, a, value);
      Write(Event.Put(a, bad));
      Deliver(watch.name);
      assert history == [Put(a, value), Put(a, bad)];
    }

    // Whether a call panics.
    ghost predicate Panics(call: Call)
      reads this`outputFileHasKeys, this`namesWithOutputFile, this`started, this`listening
    {
      match call
      case EmptyCall(group) =>
        !started && group in outputFileHasKeys && LosesName(namesWithOutputFile, outputFileHasKeys[group], group)
      case ExportCall => !listening && SomeWatch(outputFileHasKeys)
      case _ => false
    }

    /** One step of the system: a call of the public operations, a write to the store, or a move of the
        goroutine of some watch.  It panics under the exact condition or has its effect and keeps the
        invariant. */
    method Step(call: Call) returns (panicked: bool)
      requires Valid()
      modifies this
      ensures panicked <==> old(Panics(call))
      ensures !panicked ==> Valid()
      ensures !panicked ==> history == HistoryAfter(old(history), call)
      ensures !panicked ==> outputFileHasKeys == GroupsAfter(old(outputFileHasKeys), call)
      ensures listening == (old(listening) || call.StartCall?)
      ensures started == (old(started) || (call.StartCall? && call.connected))
      ensures call.ReloadCall? && started ==> closeHandler.Keys == namesWithOutputFile.Keys
      ensures call.StartCall? && started && !old(started) ==> closeHandler.Keys == namesWithOutputFile.Keys
      ensures call.MoveCall? && call.name in old(closeHandler) ==>
        OnlyMoved(old(closeHandler), closeHandler, call.name)
        && Proceeds(old(closeHandler)[call.name], closeHandler[call.name], |history|)
      ensures call.ExportCall? && !panicked ==>
        forall group, key :: group in outputFileHasKeys && key in outputFileHasKeys[group] ==>
          ExactAt(inRange, outputFileHasKeys, etcdSettings, outputFileMap, group, key)
    {
      hide Mirrored, FirstWatches, LosesName, SomeWatch, ExactAt, Seen, SeenAgain, IndexOk;
      assert started ==> listening;
      panicked := false;
      match call {
        case AddCall(group, wsi) =>
          var _ := AddGroupWatchs(wsi, group);
        case EmptyCall(group) =>
          panicked := EmptyGroupWatchs(group);
        case StartCall(connected) =>
          if !started {
            Start(connected);
          }
        case ReloadCall =>
          ReloadEtcdWatch();
        case ExportCall =>
          panicked := ReloadExport();
        case WriteCall(e) =>
          if e.key != "" {
            Write(e);
          }
        case MoveCall(name) =>
          if name in closeHandler {
            Proceed(name);
          }
      }
    }

    // The next move of the goroutine of a watch, if it has one.
    method Proceed(name: string)
      requires Valid() && name in closeHandler
      modifies this`closeHandler, this`etcdSettings, this`outputFileMap
      ensures Valid() && OnlyMoved(old(closeHandler), closeHandler, name)
      ensures Proceeds(old(closeHandler)[name], closeHandler[name], |history|)
    {
      hide Mirrored, FirstWatches, Valid;
      match closeHandler[name] {
        case Starting => ReadStore(name);
        case Copying(_, _, _, todo) =>
          if todo != {} {
            SetNext(name);
          } else {
            SetOk(name);
          }
        case Following(_, _, at) =>
          if at < |history| {
            Deliver(name);
          }
      }
    }

    /** Every populated export whose name is watched for the first time and follows the events, none of
        which wrote an unreadable value, holds exactly the nodes in range that the store shows. */
    ghost predicate ShowsStore()
      reads this
    {
      forall group, key :: Populated(outputFileMap, group, key) ==>
        group in outputFileHasKeys && key in outputFileHasKeys[group]
        && StoreShown(outputFileHasKeys[group][key], outputFileMap[group][key])
    }

    ghost predicate StoreShown(watch: WatchServerInfo, entries: seq<WriteServerInfo>)
      reads this
    {
      watch.name in closeHandler && closeHandler[watch.name].Following? && watch.name !in rewatched ==>
        var w := closeHandler[watch.name];
        && w.rev <= w.at <= |history|
        && (Readable(decode, watch.name, history, w.rev, w.at) ==>
              Exact(inRange, Shown(decode, watch.name, history, w.at), watch.version, entries))
    }

    lemma ValidShowsStore()
      requires Valid()
      ensures ShowsStore()
    {
      hide Exact, Shown, Readable, FirstWatches;
      forall group, key | Populated(outputFileMap, group, key)
        ensures group in outputFileHasKeys && key in outputFileHasKeys[group]
        ensures StoreShown(outputFileHasKeys[group][key], outputFileMap[group][key])
      {
        var watch := outputFileHasKeys[group][key];
        if watch.name in closeHandler && closeHandler[watch.name].Following? && watch.name !in rewatched {
          FirstWatchShowsStore(decode, inRange, outputFileHasKeys, etcdSettings, outputFileMap, history, closeHandler,
                               watched, rewatched, group, key);
        }
      }
    }

    /** Every schedule of calls, of any length: it runs to its end, or to a call that panics.  In the end the
        store and the groups are what the schedule made them, the state is valid and the exports show the
        store. */
    static method Run(decode: Decoder, inRange: InRange, schedule: seq<Call>)
      returns (l: Listener, panicked: bool, n: nat)
      ensures n <= |schedule| && (panicked <==> n < |schedule|)
      ensures panicked ==> schedule[n].EmptyCall? || schedule[n].ExportCall?
      ensures !panicked ==> l.Valid() && l.ShowsStore()
      ensures !panicked ==> l.history == HistoryOf(schedule) && l.outputFileHasKeys == GroupsOf(schedule)
      ensures l.decode == decode && l.inRange == inRange
    {
      l := new Listener(decode, inRange);
      panicked := false;
      n := 0;
      while n < |schedule|
        invariant n <= |schedule| && fresh(l) && l.Valid() && l.decode == decode && l.inRange == inRange
        invariant !panicked
        invariant l.history == HistoryOf(schedule[..n]) && l.outputFileHasKeys == GroupsOf(schedule[..n])
      {
        assert schedule[..n + 1][..n] == schedule[..n];
        panicked := l.Step(schedule[n]);
        if panicked {
          return;
        }
        n := n + 1;
      }
      assert schedule[..n] == schedule;
      l.ValidShowsStore();
    }
  }
}
