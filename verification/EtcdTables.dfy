/** The tables of the service-discovery listener on values: which group watches what, the inverse
    index, and what a materialised export must hold. */
module EtcdTables {
  import opened EtcdMirror

  datatype WatchServerInfo = WatchServerInfo(name: string, version: string)

  datatype WriteServerInfo = WriteServerInfo(serverkey: string, ip: string, port: int)

  // group -> watch key -> watch
  type Groups = map<string, map<string, WatchServerInfo>>

  // name -> group -> watch keys
  type Index = map<string, map<string, seq<string>>>

  // group -> watch key -> nodes in range
  type Exports = map<string, map<string, seq<WriteServerInfo>>>

  // name -> node key -> node
  type Mirrors = map<string, Mirror>

  // Whether a version lies in a range; false when either cannot be parsed.
  type InRange = (string, string) -> bool

  // -------------------------------------------------------------------------------- The index

  function ListOf(index: Index, name: string, group: string): seq<string> {
    if name in index && group in index[name] then index[name][group] else []
  }

  predicate Watched(groups: Groups, name: string, group: string, key: string) {
    group in groups && key in groups[group] && groups[group][key].name == name
  }

  ghost predicate NoDuplicates<T>(s: seq<T>) {
    forall i, j :: 0 <= i < j < |s| ==> s[i] != s[j]
  }

  // No name without groups, no group without keys.
  ghost predicate Compact(index: Index) {
    && (forall name :: name in index ==> index[name] != map[])
    && (forall name, group :: name in index && group in index[name] ==> index[name][group] != [])
  }

  ghost predicate Lists(s: seq<string>, groups: Groups, name: string, group: string) {
    NoDuplicates(s) && forall key :: key in s <==> Watched(groups, name, group, key)
  }

  /** The index lists each watch key exactly once under its name and group, and nothing else. */
  ghost predicate IsInverse(index: Index, groups: Groups) {
    Compact(index) && forall name, group :: Lists(ListOf(index, name, group), groups, name, group)
  }

  ghost predicate SameElsewhere(a: Index, b: Index, group: string) {
    forall name, g :: g != group ==> ListOf(a, name, g) == ListOf(b, name, g)
  }

  lemma PresentIffListed(index: Index, name: string)
    requires Compact(index)
    ensures name in index <==> exists group :: ListOf(index, name, group) != []
    ensures forall group :: name in index ==> (group in index[name] <==> ListOf(index, name, group) != [])
  {
    if name in index {
      var group :| group in index[name];
      assert ListOf(index, name, group) != [];
    }
  }

  /** A compact index is determined by its lists. */
  lemma SameLists(a: Index, b: Index)
    requires Compact(a) && Compact(b)
    requires forall name, group :: ListOf(a, name, group) == ListOf(b, name, group)
    ensures a == b
  {
    forall name ensures name in a <==> name in b {
      PresentIffListed(a, name);
      PresentIffListed(b, name);
    }
    forall name | name in a ensures a[name] == b[name] {
      PresentIffListed(a, name);
      PresentIffListed(b, name);
      assert forall group :: group in a[name] ==> a[name][group] == ListOf(a, name, group) == ListOf(b, name, group);
    }
  }

  // Both indexes have the same lists but for one name and group.
  ghost predicate SameBut(a: Index, b: Index, name: string, group: string) {
    forall n, g :: n != name || g != group ==> ListOf(a, n, g) == ListOf(b, n, g)
  }

  function WithList(index: Index, name: string, group: string, keys: seq<string>): Index {
    index[name := (if name in index then index[name] else map[])[group := keys]]
  }

  lemma WithListLists(index: Index, name: string, group: string, keys: seq<string>)
    requires Compact(index) && keys != []
    ensures var index' := WithList(index, name, group, keys);
      Compact(index') && ListOf(index', name, group) == keys && SameBut(index', index, name, group)
  {
    assert group in WithList(index, name, group, keys)[name];
  }

  lemma FirstIsIn(s: seq<string>)
    ensures s == [] || exists k :: k in s
  {
    assert s != [] ==> s[0] in s;
  }

  // What append(list[:0], list[snameindex+1:]...) leaves, and the list itself without the key.
  function DropThrough(s: seq<string>, key: string): seq<string> {
    if key !in s then s
    else if s[0] == key then s[1..]
    else DropThrough(s[1..], key)
  }

  lemma {:induction false} DropThroughIs(s: seq<string>, key: string, i: int)
    requires key !in s ==> i == -1
    requires key in s ==> 0 <= i < |s| && s[i] == key && key !in s[..i]
    ensures DropThrough(s, key) == s[i + 1..]
  {
    if key in s && s[0] != key {
      assert s[..i][1..] == s[1..][..i - 1];
      DropThroughIs(s[1..], key, i - 1);
    }
  }

  lemma {:induction false} DropThroughShrinks(s: seq<string>, key: string)
    requires NoDuplicates(s)
    ensures NoDuplicates(DropThrough(s, key)) && key !in DropThrough(s, key)
    ensures forall k :: k in DropThrough(s, key) ==> k in s
  {
    if key in s {
      assert NoDuplicates(s[1..]);
      if s[0] != key {
        DropThroughShrinks(s[1..], key);
      }
    }
  }

  /** What EmptyGroupWatchs does to the index for one watch. */
  function Dropped(index: Index, name: string, group: string, key: string): Index {
    Cleaned(Trimmed(DroppedList(index, name, group, key), name, group), name)
  }

  function DroppedList(index: Index, name: string, group: string, key: string): Index {
    var keys := ListOf(index, name, group);
    if key in keys then WithList(index, name, group, DropThrough(keys, key)) else index
  }

  function Trimmed(index: Index, name: string, group: string): Index {
    if name in index && ListOf(index, name, group) == [] then index[name := index[name] - {group}] else index
  }

  function Cleaned(index: Index, name: string): Index {
    if name !in index || index[name] == map[] then index - {name} else index
  }

  // Compact but for one name, and but for one list of it.
  ghost predicate NearlyCompact(index: Index, name: string, group: string) {
    && (forall n :: n in index && n != name ==> index[n] != map[])
    && (forall n, g :: n in index && g in index[n] && (n != name || g != group) ==> index[n][g] != [])
  }

  lemma DroppedListLists(index: Index, name: string, group: string, key: string)
    requires Compact(index)
    ensures var index' := DroppedList(index, name, group, key);
      && NearlyCompact(index', name, group) && SameBut(index', index, name, group) && index'.Keys == index.Keys
      && ListOf(index', name, group) == DropThrough(ListOf(index, name, group), key)
  {
  }

  lemma TrimmedLists(index: Index, name: string, group: string)
    requires NearlyCompact(index, name, group)
    ensures var index' := Trimmed(index, name, group);
      && NearlyCompact(index', name, group) && (forall n, g :: ListOf(index', n, g) == ListOf(index, n, g))
      && index'.Keys == index.Keys && (name in index' && group in index'[name] ==> index'[name][group] != [])
  {
  }

  lemma CleanedLists(index: Index, name: string, group: string)
    requires NearlyCompact(index, name, group)
    requires name in index && group in index[name] ==> index[name][group] != []
    ensures var index' := Cleaned(index, name);
      && Compact(index') && (forall n, g :: ListOf(index', n, g) == ListOf(index, n, g))
      && index'.Keys <= index.Keys && forall n :: n != name ==> (n in index' <==> n in index)
  {
  }

  lemma DroppedLists(index: Index, name: string, group: string, key: string)
    requires Compact(index)
    ensures var index' := Dropped(index, name, group, key);
      && Compact(index') && SameBut(index', index, name, group)
      && ListOf(index', name, group) == DropThrough(ListOf(index, name, group), key)
      && (forall n :: n != name ==> (n in index' <==> n in index))
      && (name in index' ==> name in index)
  {
    hide DroppedList, Trimmed, Cleaned, ListOf, Compact, NearlyCompact;
    var dropped := DroppedList(index, name, group, key);
    DroppedListLists(index, name, group, key);
    TrimmedLists(dropped, name, group);
    CleanedLists(Trimmed(dropped, name, group), name, group);
  }

  // A name leaves the index only when no other group lists watches of it.
  lemma DroppedName(index: Index, name: string, group: string, key: string, g: string)
    requires Compact(index) && g != group && ListOf(index, name, g) != []
    ensures name in Dropped(index, name, group, key)
  {
    DroppedLists(index, name, group, key);
    assert ListOf(Dropped(index, name, group, key), name, g) != [];
  }

  // Some other group lists watches of the name.
  ghost predicate WantedElsewhere(index: Index, name: string, group: string) {
    exists g :: g != group && ListOf(index, name, g) != []
  }

  // Some watch of the group has a name that no other group lists.
  ghost predicate LosesName(index: Index, watches: map<string, WatchServerInfo>, group: string) {
    exists key :: key in watches && !WantedElsewhere(index, watches[key].name, group)
  }

  lemma LosesSameNames(a: Index, b: Index, watches: map<string, WatchServerInfo>, group: string)
    requires SameElsewhere(b, a, group)
    ensures LosesName(a, watches, group) <==> LosesName(b, watches, group)
  {
    forall name ensures WantedElsewhere(a, name, group) <==> WantedElsewhere(b, name, group) {
      if g :| g != group && ListOf(a, name, g) != [] {
        assert ListOf(b, name, g) != [];
      }
      if g :| g != group && ListOf(b, name, g) != [] {
        assert ListOf(a, name, g) != [];
      }
    }
  }

  // A name is still in the index after its last watch of the group was visited just when some other
  // group wants it.
  lemma GoneIsNotWanted(index: Index, before: Index, name: string, group: string, key: string)
    requires Compact(index) && SameElsewhere(index, before, group) && name !in Dropped(index, name, group, key)
    ensures !WantedElsewhere(before, name, group)
  {
    forall g | g != group ensures ListOf(before, name, g) == [] {
      assert ListOf(index, name, g) == ListOf(before, name, g);
      if ListOf(index, name, g) != [] {
        DroppedName(index, name, group, key, g);
      }
    }
  }

  lemma StillThereIsWanted(index: Index, before: Index, groups: Groups, name: string, group: string)
    requires IsInverse(index, groups) && group !in groups && SameElsewhere(index, before, group) && name in index
    ensures WantedElsewhere(before, name, group)
  {
    PresentIffListed(index, name);
    NoListOf(index, groups, name, group);
    var g :| ListOf(index, name, g) != [];
    assert ListOf(before, name, g) != [];
  }

  // While a group is emptied: its lists hold only watches still to be visited.
  ghost predicate Remaining(
    index: Index, before: Index, group: string, watches: map<string, WatchServerInfo>, todo: set<string>)
  {
    && todo <= watches.Keys && Compact(index) && index.Keys <= before.Keys && SameElsewhere(index, before, group)
    && (forall name :: NoDuplicates(ListOf(index, name, group)))
    && (forall name, key :: key in ListOf(index, name, group) ==> key in todo && watches[key].name == name)
  }

  lemma DropKeepsRemaining(
    index: Index, before: Index, group: string, watches: map<string, WatchServerInfo>, todo: set<string>, key: string)
    requires Remaining(index, before, group, watches, todo + {key}) && key in watches
    ensures var index' := Dropped(index, watches[key].name, group, key);
      && Remaining(index', before, group, watches, todo - {key})
      && forall n :: n != watches[key].name ==> (n in index' <==> n in index)
  {
    hide Dropped, ListOf, Compact, DropThrough;
    var name := watches[key].name;
    var index' := Dropped(index, name, group, key);
    DropThroughShrinks(ListOf(index, name, group), key);
    DroppedLists(index, name, group, key);
    forall n, k | k in ListOf(index', n, group) ensures k in todo - {key} && watches[k].name == n {
      if n == name {
        assert k in ListOf(index, name, group) && k != key;
      } else {
        assert ListOf(index', n, group) == ListOf(index, n, group);
      }
      assert k in ListOf(index, n, group);
      assert k in todo + {key} && watches[k].name == n;
      assert k != key;
    }
  }

  // The watches among `handlers` that the index still needs.
  function Needed<T>(handlers: map<string, T>, index: Index): map<string, T> {
    map n | n in handlers && n in index :: handlers[n]
  }

  /** Exactly the watches of names in the index, as they were. */
  lemma NeededIs<T>(handlers: map<string, T>, index: Index)
    ensures forall n :: n in Needed(handlers, index) <==> n in handlers && n in index
    ensures forall n :: n in Needed(handlers, index) ==> Needed(handlers, index)[n] == handlers[n]
  {
  }

  lemma DropKeepsNeeded<T>(
    handlers: map<string, T>, index: Index, before: Index, group: string, watches: map<string, WatchServerInfo>,
    todo: set<string>, key: string)
    requires Remaining(index, before, group, watches, todo + {key}) && key in watches
    ensures var index' := Dropped(index, watches[key].name, group, key);
      Needed(handlers, index') ==
        Needed(handlers, index) - (if watches[key].name in index' then {} else {watches[key].name})
  {
    DroppedLists(index, watches[key].name, group, key);
  }

  lemma NothingRemains(
      index: Index, before: Index, groups: Groups, group: string, watches: map<string, WatchServerInfo>)
    requires IsInverse(before, groups) && Remaining(index, before, group, watches, {})
    ensures IsInverse(index, groups - {group})
  {
    var none: set<string> := {};
    forall name ensures ListOf(index, name, group) == [] {
      var keys := ListOf(index, name, group);
      FirstIsIn(keys);
      assert forall key :: key in ListOf(index, name, group) ==> key in none;
    }
    RemovedIsInverse(before, index, groups, group);
  }

  lemma EverythingRemains(index: Index, groups: Groups, group: string)
    requires IsInverse(index, groups) && group in groups
    ensures Remaining(index, index, group, groups[group], groups[group].Keys)
  {
    forall name ensures Lists(ListOf(index, name, group), groups, name, group) {
    }
  }

  /** Adding a new group and emptying it again leaves the index as it was. */
  lemma AddThenEmptyRestores(before: Index, added: Index, after: Index, groups: Groups, group: string)
    requires IsInverse(before, groups) && group !in groups && SameElsewhere(added, before, group)
    requires IsInverse(after, groups) && SameElsewhere(after, added, group)
    ensures after == before
  {
    forall name, g ensures ListOf(after, name, g) == ListOf(before, name, g) {
      if g == group {
        NoListOf(before, groups, name, group);
        NoListOf(after, groups, name, group);
      }
    }
    SameLists(after, before);
  }

  lemma InsertThenRemove<V>(m: map<string, V>, key: string, value: V)
    requires key !in m
    ensures m[key := value] - {key} == m
  {
  }

  lemma NoListOf(index: Index, groups: Groups, name: string, group: string)
    requires IsInverse(index, groups) && group !in groups
    ensures ListOf(index, name, group) == []
  {
    FirstIsIn(ListOf(index, name, group));
    assert Lists(ListOf(index, name, group), groups, name, group);
  }

  lemma ListedIffWatched(index: Index, groups: Groups, name: string)
    requires IsInverse(index, groups)
    ensures forall group, key ::
      Watched(groups, name, group, key) <==> (name in index && group in index[name] && key in index[name][group])
    ensures forall group :: name in index && group in index[name] ==> group in groups
  {
    forall group, key ensures Watched(groups, name, group, key) <==> key in ListOf(index, name, group) {
      assert Lists(ListOf(index, name, group), groups, name, group);
    }
    forall group | name in index && group in index[name] ensures group in groups {
      assert index[name][group][0] in ListOf(index, name, group);
    }
  }

  /** A name is in the index exactly while some group watches it. */
  lemma NameIffWatched(index: Index, groups: Groups, name: string)
    requires IsInverse(index, groups)
    ensures name in index <==> exists group, key :: Watched(groups, name, group, key)
  {
    ListedIffWatched(index, groups, name);
    if name in index {
      PresentIffListed(index, name);
      var group :| ListOf(index, name, group) != [];
      assert index[name][group][0] in index[name][group];
      assert Watched(groups, name, group, index[name][group][0]);
    }
  }

  ghost predicate SomeWatch(groups: Groups) {
    exists group :: group in groups && groups[group] != map[]
  }

  /** The index is empty exactly when no group has a watch. */
  lemma NoNameIffNoWatch(index: Index, groups: Groups)
    requires IsInverse(index, groups)
    ensures index != map[] <==> SomeWatch(groups)
  {
    if index != map[] {
      var name :| name in index;
      NameIffWatched(index, groups, name);
    }
    if group :| group in groups && groups[group] != map[] {
      var key :| key in groups[group];
      NameIffWatched(index, groups, groups[group][key].name);
      assert Watched(groups, groups[group][key].name, group, key);
    }
  }

  /** Adding a group: its watches are listed once, the other groups' lists stay. */
  lemma AddedIsInverse(before: Index, index: Index, groups: Groups, wsi: map<string, WatchServerInfo>, group: string)
    requires IsInverse(before, groups) && Compact(index) && SameElsewhere(index, before, group)
    requires forall name :: NoDuplicates(ListOf(index, name, group))
    requires forall name, key :: key in ListOf(index, name, group) <==> key in wsi && wsi[key].name == name
    ensures IsInverse(index, groups[group := wsi])
  {
    forall name, g ensures Lists(ListOf(index, name, g), groups[group := wsi], name, g) {
      assert Lists(ListOf(before, name, g), groups, name, g);
      if g != group {
        assert ListOf(index, name, g) == ListOf(before, name, g);
        assert forall key :: Watched(groups, name, g, key) <==> Watched(groups[group := wsi], name, g, key);
      }
    }
  }

  /** Removing a group: none of its lists is left, the other groups' lists stay. */
  lemma RemovedIsInverse(before: Index, index: Index, groups: Groups, group: string)
    requires IsInverse(before, groups) && Compact(index) && SameElsewhere(index, before, group)
    requires forall name :: ListOf(index, name, group) == []
    ensures IsInverse(index, groups - {group})
  {
    forall name, g ensures Lists(ListOf(index, name, g), groups - {group}, name, g) {
      assert Lists(ListOf(before, name, g), groups, name, g);
      if g != group {
        assert ListOf(index, name, g) == ListOf(before, name, g);
        assert forall key :: Watched(groups, name, g, key) <==> Watched(groups - {group}, name, g, key);
      }
    }
  }

  // -------------------------------------------------------------------------------- The exports

  function NodesOf(mirrors: Mirrors, name: string): Mirror {
    if name in mirrors then mirrors[name] else map[]
  }

  /** Exactly one entry for each of the nodes whose version lies in the range, with its key, ip and port, and
      nothing else. */
  ghost predicate Exact(inRange: InRange, nodes: Mirror, version: string, entries: seq<WriteServerInfo>) {
    && (forall i, j :: 0 <= i < j < |entries| ==> entries[i].serverkey != entries[j].serverkey)
    && (forall e :: e in entries ==>
          && e.serverkey in nodes && inRange(nodes[e.serverkey].version, version)
          && e.ip == nodes[e.serverkey].ip && e.port == nodes[e.serverkey].port)
    && (forall k :: k in nodes && inRange(nodes[k].version, version) ==>
          WriteServerInfo(k, nodes[k].ip, nodes[k].port) in entries)
  }

  predicate Populated(exports: Exports, group: string, key: string) {
    group in exports && key in exports[group]
  }

  ghost predicate ExactAt(
    inRange: InRange, groups: Groups, mirrors: Mirrors, exports: Exports, group: string, key: string)
  {
    && group in groups && key in groups[group] && Populated(exports, group, key)
    && var watch := groups[group][key];
       Exact(inRange, NodesOf(mirrors, watch.name), watch.version, exports[group][key])
  }

  ghost predicate SameAt(a: Exports, b: Exports, group: string, key: string) {
    && (Populated(a, group, key) <==> Populated(b, group, key))
    && (Populated(a, group, key) ==> a[group][key] == b[group][key])
  }

  /** Every populated export is exact, but those of the names in `inBatch`. */
  ghost predicate Coherent(
    inRange: InRange, groups: Groups, mirrors: Mirrors, exports: Exports, inBatch: set<string>)
  {
    && exports.Keys == groups.Keys
    && forall group, key :: Populated(exports, group, key) ==>
         && key in groups[group]
         && (groups[group][key].name in inBatch || ExactAt(inRange, groups, mirrors, exports, group, key))
  }

  // The exports of a name are exact but for the groups in `todo`, the others are untouched.
  ghost predicate RefreshedBut(
    inRange: InRange, groups: Groups, mirrors: Mirrors, before: Exports, exports: Exports, name: string,
    todo: set<string>)
  {
    && exports.Keys == before.Keys
    && (forall group, key :: Watched(groups, name, group, key) && group !in todo ==>
          ExactAt(inRange, groups, mirrors, exports, group, key))
    && (forall group, key :: !Watched(groups, name, group, key) ==> SameAt(exports, before, group, key))
  }

  /** What tiggerChangesWatchKey does: the exports of the name are exact, the others are untouched. */
  ghost predicate Refreshed(
    inRange: InRange, groups: Groups, mirrors: Mirrors, before: Exports, exports: Exports, name: string)
  {
    RefreshedBut(inRange, groups, mirrors, before, exports, name, {})
  }

  // The exports after those of some watch keys of one group were refreshed.
  ghost predicate GroupRefreshed(
    inRange: InRange, groups: Groups, mirrors: Mirrors, before: Exports, exports: Exports, group: string,
    keys: seq<string>)
  {
    && exports.Keys == before.Keys + {group}
    && (forall key :: key in keys ==> ExactAt(inRange, groups, mirrors, exports, group, key))
    && (forall g :: g in before && g != group ==> exports[g] == before[g])
    && (forall key :: key !in keys ==> SameAt(exports, before, group, key))
  }

  lemma RefreshOneMore(
    inRange: InRange, groups: Groups, mirrors: Mirrors, before: Exports, exports: Exports, group: string,
    keys: seq<string>,
    key: string, entries: seq<WriteServerInfo>)
    requires GroupRefreshed(inRange, groups, mirrors, before, exports, group, keys)
    requires group in groups && key in groups[group]
    requires Exact(inRange, NodesOf(mirrors, groups[group][key].name), groups[group][key].version, entries)
    ensures GroupRefreshed(
      inRange, groups, mirrors, before, exports[group := exports[group][key := entries]], group, keys + [key])
  {
    hide Exact, NodesOf;
    var exports': Exports := exports[group := exports[group][key := entries]];
    assert forall k :: k != key ==> SameAt(exports', exports, group, k);
    forall k | k in keys + [key] ensures ExactAt(inRange, groups, mirrors, exports', group, k) {
      if k != key {
        assert ExactAt(inRange, groups, mirrors, exports, group, k);
      }
    }
    forall k | k !in keys + [key] ensures SameAt(exports', before, group, k) {
      assert SameAt(exports, before, group, k);
    }
  }

  lemma RefreshOneGroup(
    inRange: InRange, groups: Groups, mirrors: Mirrors, before: Exports, middle: Exports, after: Exports, name: string,
    todo: set<string>, group: string, keys: seq<string>)
    requires RefreshedBut(inRange, groups, mirrors, before, middle, name, todo) && group in middle
    requires forall key :: key in keys <==> Watched(groups, name, group, key)
    requires GroupRefreshed(inRange, groups, mirrors, middle, after, group, keys)
    ensures RefreshedBut(inRange, groups, mirrors, before, after, name, todo - {group})
  {
    hide Exact, NodesOf;
    forall g, key | !Watched(groups, name, g, key) ensures SameAt(after, before, g, key) {
      assert SameAt(middle, before, g, key);
      assert g == group ==> SameAt(after, middle, g, key);
    }
    forall g, key | Watched(groups, name, g, key) && g !in todo - {group}
      ensures ExactAt(inRange, groups, mirrors, after, g, key)
    {
      if g != group {
        assert ExactAt(inRange, groups, mirrors, middle, g, key);
      }
    }
  }

  lemma FullyCoherent(
    inRange: InRange, groups: Groups, mirrors: Mirrors, exports: Exports, inBatch: set<string>)
    requires Coherent(inRange, groups, mirrors, exports, {})
    ensures Coherent(inRange, groups, mirrors, exports, inBatch)
  {
  }

  ghost predicate SameNodesBut(a: Mirrors, b: Mirrors, name: string) {
    forall n :: n != name ==> NodesOf(a, n) == NodesOf(b, n)
  }

  /** A change of the nodes of one name leaves only its exports stale. */
  lemma ChangeKeepsCoherent(
    inRange: InRange, groups: Groups, before: Mirrors, mirrors: Mirrors, exports: Exports, inBatch: set<string>,
    name: string)
    requires Coherent(inRange, groups, before, exports, inBatch) && SameNodesBut(mirrors, before, name)
    ensures Coherent(inRange, groups, mirrors, exports, inBatch + {name})
  {
    hide Exact, NodesOf;
    forall group, key | Populated(exports, group, key) && groups[group][key].name !in inBatch + {name}
      ensures ExactAt(inRange, groups, mirrors, exports, group, key)
    {
      assert ExactAt(inRange, groups, before, exports, group, key);
    }
  }

  /** Refreshing the exports of a name makes them coherent again. */
  lemma RefreshRestoresCoherent(
    inRange: InRange, groups: Groups, mirrors: Mirrors, before: Exports, exports: Exports, inBatch: set<string>,
    name: string)
    requires Coherent(inRange, groups, mirrors, before, inBatch)
    requires Refreshed(inRange, groups, mirrors, before, exports, name)
    ensures Coherent(inRange, groups, mirrors, exports, inBatch - {name})
  {
    hide Exact, NodesOf;
    forall group, key | Populated(exports, group, key)
      ensures key in groups[group]
      ensures groups[group][key].name in inBatch - {name} || ExactAt(inRange, groups, mirrors, exports, group, key)
    {
      if Watched(groups, name, group, key) {
        assert ExactAt(inRange, groups, mirrors, exports, group, key);
      } else {
        assert SameAt(exports, before, group, key);
      }
    }
  }

  /** Removing a group keeps the exports of the others coherent: the names whose batch it ends have
      no watch left. */
  lemma RemovalKeepsCoherent(
    inRange: InRange, groups: Groups, mirrors: Mirrors, exports: Exports, group: string, inBatch: set<string>,
    index: Index, left: set<string>)
    requires Coherent(inRange, groups, mirrors, exports, inBatch)
    requires IsInverse(index, groups - {group})
    requires forall n :: n in inBatch && n in index ==> n in left
    ensures Coherent(inRange, groups - {group}, mirrors, exports - {group}, left)
  {
    hide Exact, NodesOf, Compact;
    var groups': Groups, exports': Exports := groups - {group}, exports - {group};
    forall g, key | Populated(exports', g, key)
      ensures key in groups'[g]
      ensures groups'[g][key].name in left || ExactAt(inRange, groups', mirrors, exports', g, key)
    {
      assert Populated(exports, g, key);
      var name := groups[g][key].name;
      if name in inBatch {
        assert Lists(ListOf(index, name, g), groups', name, g);
        assert Watched(groups', name, g, key);
      } else {
        assert ExactAt(inRange, groups, mirrors, exports, g, key);
      }
    }
  }

  // -------------------------------------------------------------------------------- The watches

  /** How far the goroutine of a watch is: about to read the store, setting the keys `kvs` found at
      revision `rev` of which `todo` are left, or after the event of revision `at`.  `before` is what
      the mirror held when the store was read. */
  datatype Watch =
    | Starting
    | Copying(before: Mirror, rev: nat, kvs: Contents, todo: set<string>)
    | Following(before: Mirror, rev: nat, at: nat)

  // Between the first Set of a batch and its SetOk.
  predicate Batching(watch: Watch) {
    watch.Copying? && watch.todo != watch.kvs.Keys
  }

  // Only the goroutine of one watch has moved.
  predicate OnlyMoved(before: map<string, Watch>, after: map<string, Watch>, name: string) {
    name in before && name in after && after == before[name := after[name]]
  }

  function InBatch(watches: map<string, Watch>): set<string> {
    set n: string | n in watches && Batching(watches[n])
  }

  /** The nodes of a watch are what its goroutine must have made of the store so far. */
  ghost predicate Follows(decode: Decoder, mirrors: Mirrors, history: History, name: string, watch: Watch) {
    match watch
    case Starting => true
    case Copying(before, rev, kvs, todo) =>
      && rev <= |history| && kvs == Under(name, Store(history[..rev])) && kvs != map[] && todo <= kvs.Keys
      && NodesOf(mirrors, name) == Overlay(decode, before, kvs - todo)
    case Following(before, rev, at) =>
      rev <= at <= |history| && NodesOf(mirrors, name) == MirrorAt(decode, before, name, history, rev, at)
  }

  ghost predicate AllFollow(decode: Decoder, mirrors: Mirrors, history: History, watches: map<string, Watch>) {
    NonEmptyKeys(history) && forall n :: n in watches ==> Follows(decode, mirrors, history, n, watches[n])
  }

  lemma WriteKeepsFollows(decode: Decoder, mirrors: Mirrors, history: History, e: Event, name: string, watch: Watch)
    requires Follows(decode, mirrors, history, name, watch)
    ensures Follows(decode, mirrors, history + [e], name, watch)
  {
    match watch
    case Starting =>
    case Copying(before, rev, kvs, todo) =>
      assert (history + [e])[..rev] == history[..rev];
    case Following(before, rev, at) =>
      MirrorIsStable(decode, before, name, history, history + [e], rev, at);
  }

  /** The exports agree with the mirror outside batches, and the mirror with the store. */
  ghost predicate Mirrored(
    decode: Decoder, inRange: InRange, groups: Groups, mirrors: Mirrors, exports: Exports, history: History,
    watches: map<string, Watch>)
  {
    Coherent(inRange, groups, mirrors, exports, InBatch(watches)) && AllFollow(decode, mirrors, history, watches)
  }

  // A goroutine moves without a callback.
  lemma MoveKeepsMirrored(
    decode: Decoder, inRange: InRange, groups: Groups, mirrors: Mirrors, exports: Exports, history: History,
    watches: map<string, Watch>, name: string, watch: Watch)
    requires Mirrored(decode, inRange, groups, mirrors, exports, history, watches)
    requires Follows(decode, mirrors, history, name, watch)
    requires name in watches && Batching(watch) == Batching(watches[name])
    ensures Mirrored(decode, inRange, groups, mirrors, exports, history, watches[name := watch])
  {
    hide Coherent, Follows;
    assert InBatch(watches[name := watch]) == InBatch(watches);
  }

  // A goroutine calls Set within a batch.
  lemma SetKeepsMirrored(
    decode: Decoder, inRange: InRange, groups: Groups, before: Mirrors, mirrors: Mirrors, exports: Exports,
    history: History, watches: map<string, Watch>, name: string, watch: Watch)
    requires Mirrored(decode, inRange, groups, before, exports, history, watches) && name in watches
    requires SameNodesBut(mirrors, before, name)
    requires Follows(decode, mirrors, history, name, watch) && Batching(watch)
    ensures Mirrored(decode, inRange, groups, mirrors, exports, history, watches[name := watch])
  {
    ChangeKeepsCoherent(inRange, groups, before, mirrors, exports, InBatch(watches), name);
    assert InBatch(watches[name := watch]) == InBatch(watches) + {name};
    hide Coherent, MirrorAt, Overlay, Under, Store, NodesOf;
  }

  // A goroutine makes a callback that refreshes the exports of its name.
  lemma CallbackKeepsMirrored(
    decode: Decoder, inRange: InRange, groups: Groups, before: Mirrors, mirrors: Mirrors, stale: Exports,
    exports: Exports, history: History, watches: map<string, Watch>, name: string, watch: Watch)
    requires Mirrored(decode, inRange, groups, before, stale, history, watches) && name in watches
    requires SameNodesBut(mirrors, before, name)
    requires Refreshed(inRange, groups, mirrors, stale, exports, name)
    requires Follows(decode, mirrors, history, name, watch) && !Batching(watch)
    ensures Mirrored(decode, inRange, groups, mirrors, exports, history, watches[name := watch])
  {
    ChangeKeepsCoherent(inRange, groups, before, mirrors, stale, InBatch(watches), name);
    RefreshRestoresCoherent(inRange, groups, mirrors, stale, exports, InBatch(watches) + {name}, name);
    assert InBatch(watches[name := watch]) == InBatch(watches) + {name} - {name};
    hide Coherent, MirrorAt, Overlay, Under, Store, NodesOf;
  }

  lemma AdditionKeepsMirrored(
    decode: Decoder, inRange: InRange, groups: Groups, mirrors: Mirrors, exports: Exports, history: History,
    watches: map<string, Watch>, group: string, wsi: map<string, WatchServerInfo>)
    requires Mirrored(decode, inRange, groups, mirrors, exports, history, watches) && group !in groups
    ensures Mirrored(decode, inRange, groups[group := wsi], mirrors, exports[group := map[]], history, watches)
  {
    hide Exact, NodesOf, AllFollow;
    var groups': Groups, exports': Exports := groups[group := wsi], exports[group := map[]];
    forall g, key | Populated(exports', g, key)
      ensures key in groups'[g]
      ensures groups'[g][key].name in InBatch(watches) || ExactAt(inRange, groups', mirrors, exports', g, key)
    {
      assert Populated(exports, g, key);
      assert ExactAt(inRange, groups, mirrors, exports, g, key)
        ==> ExactAt(inRange, groups', mirrors, exports', g, key);
    }
  }

  lemma RemovalKeepsMirrored(
    decode: Decoder, inRange: InRange, groups: Groups, mirrors: Mirrors, exports: Exports, history: History,
    watches: map<string, Watch>, group: string, index: Index)
    requires Mirrored(decode, inRange, groups, mirrors, exports, history, watches)
    requires IsInverse(index, groups - {group})
    ensures Mirrored(
      decode, inRange, groups - {group}, mirrors, exports - {group}, history, Needed(watches, index))
  {
    RemovalKeepsCoherent(inRange, groups, mirrors, exports, group, InBatch(watches), index,
                         InBatch(Needed(watches, index)));
    hide Coherent, Follows, IsInverse;
  }

  // The names of an index whose other lists stay stay as well.
  lemma NamesStay(before: Index, index: Index, groups: Groups, group: string)
    requires IsInverse(before, groups) && group !in groups && Compact(index) && SameElsewhere(index, before, group)
    ensures before.Keys <= index.Keys
  {
    forall name | name in before ensures name in index {
      PresentIffListed(before, name);
      var g :| ListOf(before, name, g) != [];
      NoListOf(before, groups, name, group);
      assert ListOf(index, name, g) != [];
      PresentIffListed(index, name);
    }
  }

  lemma ReadFollows(decode: Decoder, mirrors: Mirrors, history: History, name: string)
    ensures var kvs := Under(name, Store(history));
      kvs != map[] ==>
        Follows(decode, mirrors, history, name, Copying(NodesOf(mirrors, name), |history|, kvs, kvs.Keys))
    ensures forall after: Mirrors, before: Mirror
      {:trigger NodesOf(after, name), Following(before, |history|, |history|)} ::
      Under(name, Store(history)) == map[] && NodesOf(after, name) == map[] ==>
        Follows(decode, after, history, name, Following(before, |history|, |history|))
  {
    hide Under, Store, Overlay, NodesOf;
    var kvs := Under(name, Store(history));
    assert history[..|history|] == history && kvs - kvs.Keys == map[];
    OverlayNothing(decode, NodesOf(mirrors, name));
  }

  lemma LeftToCopy(decode: Decoder, mirrors: Mirrors, history: History, name: string, watch: Watch)
    requires watch.Copying? && Follows(decode, mirrors, history, name, watch)
    ensures watch.todo <= watch.kvs.Keys
  {
  }

  lemma SetFollows(
    decode: Decoder, before: Mirrors, mirrors: Mirrors, history: History, name: string, watch: Watch, key: string)
    requires watch.Copying? && Follows(decode, before, history, name, watch) && key in watch.todo
    requires NonEmptyKeys(history)
    requires NodesOf(mirrors, name) == Updated(decode, NodesOf(before, name), key, watch.kvs[key])
    ensures Follows(decode, mirrors, history, name, watch.(todo := watch.todo - {key}))
  {
    hide Updated, Overlay, NodesOf, Store;
    var kvs, todo := watch.kvs, watch.todo;
    StoredKeysAreNotEmpty(history[..watch.rev]);
    OverlayOneMore(decode, watch.before, kvs - todo, key, kvs[key]);
    assert kvs - (todo - {key}) == (kvs - todo)[key := kvs[key]];
  }

  lemma CopiedFollows(decode: Decoder, mirrors: Mirrors, history: History, name: string, watch: Watch)
    requires watch.Copying? && watch.todo == {} && Follows(decode, mirrors, history, name, watch)
    ensures Follows(decode, mirrors, history, name, Following(watch.before, watch.rev, watch.rev))
  {
    assert watch.kvs - {} == watch.kvs;
  }

  lemma EventFollows(decode: Decoder, before: Mirrors, mirrors: Mirrors, history: History, name: string, watch: Watch)
    requires watch.Following? && Follows(decode, before, history, name, watch) && watch.at < |history|
    requires var e := history[watch.at];
      NodesOf(mirrors, name) ==
        if name <= e.key then Replayed(decode, NodesOf(before, name), e) else NodesOf(before, name)
    ensures Follows(decode, mirrors, history, name, Following(watch.before, watch.rev, watch.at + 1))
  {
    hide Updated, Overlay, Store;
  }

  /** A populated export whose watch follows the events from a fresh start, no event having hidden a
      node, holds exactly the nodes in range that the store shows at the revision reached. */
  lemma ExportShowsStore(
    decode: Decoder, inRange: InRange, groups: Groups, mirrors: Mirrors, exports: Exports, history: History,
    watches: map<string, Watch>, group: string, key: string)
    requires Mirrored(decode, inRange, groups, mirrors, exports, history, watches) && Populated(exports, group, key)
    requires groups[group][key].name in watches && watches[groups[group][key].name].Following?
    ensures var watch := groups[group][key];
      var w := watches[watch.name];
      && w.rev <= w.at <= |history|
      && (FreshStart(decode, w.before, Under(watch.name, Store(history[..w.rev])))
          && NoneHides(decode, watch.name, history, w.rev, w.at)
          ==> Exact(inRange, Shown(decode, watch.name, history, w.at), watch.version, exports[group][key]))
  {
    hide MirrorAt, NoneHides, FreshStart, Shown, Under, Store, Exact;
    var watch := groups[group][key];
    var w := watches[watch.name];
    assert ExactAt(inRange, groups, mirrors, exports, group, key) && Follows(decode, mirrors, history, watch.name, w);
    TracksUpTo(decode, w.before, watch.name, history, w.rev, w.at);
    assert (forall at :: w.rev <= at <= w.at ==> Tracks(decode, w.before, watch.name, history, w.rev, at))
      ==> Tracks(decode, w.before, watch.name, history, w.rev, w.at);
  }

  // -------------------------------------------------------------------------------- First watches

  // What the mirror held when the goroutine of a watch reads the store, or will.
  function Before(mirrors: Mirrors, name: string, watch: Watch): Mirror {
    match watch
    case Starting => NodesOf(mirrors, name)
    case Copying(before, _, _, _) => before
    case Following(before, _, _) => before
  }

  /** Only names that had a watch are mirrored, and a name that was not watched before starts from
      nothing. */
  ghost predicate FirstWatches(
    mirrors: Mirrors, watches: map<string, Watch>, watched: set<string>, rewatched: set<string>)
  {
    && watches.Keys <= watched && rewatched <= watched
    && (forall n :: NodesOf(mirrors, n) != map[] ==> n in watched)
    && (forall n :: n in watches && n !in rewatched ==> Before(mirrors, n, watches[n]) == map[])
  }

  // The watches after every name was handed to AddWatch, and what is then noted of them.
  function Added(watches: map<string, Watch>, names: set<string>): map<string, Watch> {
    map n | n in watches.Keys + names :: if n in watches then watches[n] else Starting
  }

  function Seen(watches: map<string, Watch>, watched: set<string>, names: set<string>): set<string> {
    watched + (names - watches.Keys)
  }

  function SeenAgain(
    watches: map<string, Watch>, watched: set<string>, rewatched: set<string>, names: set<string>): set<string>
  {
    rewatched + (watched * (names - watches.Keys))
  }

  /** Every name has a watch, those that ran go on, and the new ones are about to start. */
  lemma AddedIs(watches: map<string, Watch>, watched: set<string>, rewatched: set<string>, names: set<string>)
    ensures Added(watches, names).Keys == watches.Keys + names
    ensures forall n :: n in watches ==> Added(watches, names)[n] == watches[n]
    ensures forall n :: n in names && n !in watches ==> Added(watches, names)[n] == Starting
    ensures forall n :: n in Seen(watches, watched, names) <==> n in watched || (n in names && n !in watches)
    ensures forall n ::
      n in SeenAgain(watches, watched, rewatched, names) <==>
        (n in rewatched || (n in watched && n in names && n !in watches))
  {
  }

  lemma AddedNone(watches: map<string, Watch>, watched: set<string>, rewatched: set<string>)
    ensures Added(watches, {}) == watches && Seen(watches, watched, {}) == watched
    ensures SeenAgain(watches, watched, rewatched, {}) == rewatched
  {
  }

  lemma AddedOneMore(
    watches: map<string, Watch>, watched: set<string>, rewatched: set<string>, names: set<string>, key: string)
    requires key !in names
    ensures key in Added(watches, names) <==> key in watches
    ensures Added(watches, names + {key}) ==
      if key in watches then Added(watches, names) else Added(watches, names)[key := Starting]
    ensures Seen(watches, watched, names + {key}) ==
      Seen(watches, watched, names) + (if key in watches then {} else {key})
    ensures SeenAgain(watches, watched, rewatched, names + {key}) ==
      SeenAgain(watches, watched, rewatched, names)
        + (if key in watches then {} else Seen(watches, watched, names) * {key})
  {
  }

  lemma AddKeepsFirst(
    mirrors: Mirrors, watches: map<string, Watch>, watched: set<string>, rewatched: set<string>, key: string)
    requires FirstWatches(mirrors, watches, watched, rewatched) && key !in watches
    ensures FirstWatches(mirrors, watches[key := Starting], watched + {key}, rewatched + (watched * {key}))
  {
    hide NodesOf;
  }

  lemma StepKeepsFirst(
    before: Mirrors, mirrors: Mirrors, watches: map<string, Watch>, name: string, watch: Watch, watched: set<string>,
    rewatched: set<string>)
    requires FirstWatches(before, watches, watched, rewatched) && name in watches
    requires SameNodesBut(mirrors, before, name)
    requires !watch.Starting? && Before(mirrors, name, watch) == Before(before, name, watches[name])
    ensures FirstWatches(mirrors, watches[name := watch], watched, rewatched)
  {
    forall n | n in watches && n != name ensures Before(mirrors, n, watches[n]) == Before(before, n, watches[n]) {
    }
  }

  // No event from revision `rev` up to revision `at` writes an unreadable value under the prefix.
  ghost predicate Readable(decode: Decoder, prefix: string, history: History, rev: nat, at: nat)
    requires at <= |history|
  {
    forall i :: rev <= i < at && history[i].Put? && prefix <= history[i].key ==> !Unreadable(decode, history[i].value)
  }

  /** A populated export whose name is watched for the first time and follows the events, none of which
      wrote an unreadable value, holds exactly the nodes in range that the store shows. */
  lemma FirstWatchShowsStore(
    decode: Decoder, inRange: InRange, groups: Groups, mirrors: Mirrors, exports: Exports, history: History,
    watches: map<string, Watch>, watched: set<string>, rewatched: set<string>, group: string, key: string)
    requires Mirrored(decode, inRange, groups, mirrors, exports, history, watches) && Populated(exports, group, key)
    requires FirstWatches(mirrors, watches, watched, rewatched)
    requires groups[group][key].name in watches && watches[groups[group][key].name].Following?
    requires groups[group][key].name !in rewatched
    ensures var watch := groups[group][key];
      var w := watches[watch.name];
      && w.rev <= w.at <= |history|
      && (Readable(decode, watch.name, history, w.rev, w.at)
          ==> Exact(inRange, Shown(decode, watch.name, history, w.at), watch.version, exports[group][key]))
  {
    var name := groups[group][key].name;
    hide Exact, Shown, Under, Store, Mirrored, FirstWatches;
    ExportShowsStore(decode, inRange, groups, mirrors, exports, history, watches, group, key);
    StartsFromNothing(mirrors, watches, watched, rewatched, name);
  }

  lemma StartsFromNothing(
    mirrors: Mirrors, watches: map<string, Watch>, watched: set<string>, rewatched: set<string>, name: string)
    requires FirstWatches(mirrors, watches, watched, rewatched)
    requires name in watches && name !in rewatched && watches[name].Following?
    ensures watches[name].before == map[]
  {
  }

  /** A populated export agrees with the mirror field by field unless its name stands between the first Set
      of a batch and its SetOk. */
  lemma ExportShowsMirror(
    decode: Decoder, inRange: InRange, groups: Groups, mirrors: Mirrors, exports: Exports, history: History,
    watches: map<string, Watch>, group: string, key: string)
    requires Mirrored(decode, inRange, groups, mirrors, exports, history, watches) && Populated(exports, group, key)
    requires var name := groups[group][key].name;
      name !in watches || !watches[name].Copying? || watches[name].todo == watches[name].kvs.Keys
    ensures var nodes, version, entries :=
        NodesOf(mirrors, groups[group][key].name), groups[group][key].version, exports[group][key];
      && (forall e :: e in entries ==>
            (e.serverkey in nodes && inRange(nodes[e.serverkey].version, version)
             && e.ip == nodes[e.serverkey].ip && e.port == nodes[e.serverkey].port))
      && (forall k :: k in nodes && inRange(nodes[k].version, version) ==>
            (exists e :: e in entries && e.serverkey == k && e.ip == nodes[k].ip && e.port == nodes[k].port))
      && (forall i, j :: 0 <= i < j < |entries| ==> entries[i].serverkey != entries[j].serverkey)
  {
    assert ExactAt(inRange, groups, mirrors, exports, group, key);
    var nodes, version, entries :=
      NodesOf(mirrors, groups[group][key].name), groups[group][key].version, exports[group][key];
    forall k | k in nodes && inRange(nodes[k].version, version)
      ensures exists e :: e in entries && e.serverkey == k && e.ip == nodes[k].ip && e.port == nodes[k].port
    {
      assert WriteServerInfo(k, nodes[k].ip, nodes[k].port) in entries;
    }
  }
}
