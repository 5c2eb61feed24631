/** The mirror of one etcd prefix on values: a snapshot of the store at a revision, then the replay
    of the events after it. */
module EtcdMirror {
  import opened Wrappers

  // What the listener keeps of a service node.
  datatype NodeInfo = NodeInfo(ip: string, port: int, version: string)

  // JSON decoding of a stored value.
  type Decoder = string -> Option<NodeInfo>

  type Mirror = map<string, NodeInfo>
  type Contents = map<string, string>

  // One revision of the store.
  datatype Event = Put(key: string, value: string) | Delete(key: string)

  type History = seq<Event>

  // -------------------------------------------------------------------------------- The store

  function Written(store: Contents, e: Event): Contents {
    match e
    case Put(key, value) => store[key := value]
    case Delete(key) => store - {key}
  }

  // The contents of the store after all events of a history.
  function Store(history: History): Contents {
    if history == [] then map[] else Written(Store(history[..|history| - 1]), history[|history| - 1])
  }

  lemma {:induction false} StoredKeysAreNotEmpty(history: History)
    requires NonEmptyKeys(history)
    ensures "" !in Store(history)
  {
    if history != [] {
      StoredKeysAreNotEmpty(history[..|history| - 1]);
    }
  }

  function Under(prefix: string, store: Contents): Contents {
    map k | k in store && prefix <= k :: store[k]
  }

  // -------------------------------------------------------------------------------- The mirror

  /** tiggerChangeWatchKeyValue on the nodes of one watch key. */
  function Updated(decode: Decoder, m: Mirror, key: string, value: string): Mirror {
    if key == "" then map[]
    else if value == "" then m - {key}
    else if decode(value).Some? then m[key := decode(value).value]
    else m
  }

  function Replayed(decode: Decoder, m: Mirror, e: Event): Mirror {
    Updated(decode, m, e.key, if e.Put? then e.value else "")
  }

  // The nodes after Set was called for every key of `kvs`, in whatever order.
  function Overlay(decode: Decoder, m: Mirror, kvs: Contents): Mirror {
    map k | k in m.Keys + kvs.Keys && (if k in kvs && kvs[k] != "" then decode(kvs[k]).Some? || k in m else k !in kvs)
      :: if k in kvs && decode(kvs[k]).Some? then decode(kvs[k]).value else m[k]
  }

  /** The nodes after the first part of watch: Set for every key found, or Empty when there is none. */
  function AfterSnapshot(decode: Decoder, m: Mirror, kvs: Contents): Mirror {
    if kvs == map[] then map[] else Overlay(decode, m, kvs)
  }

  /** The nodes of the watch of `prefix` that started from `before`, read the store at revision `rev`
      and has seen the events up to revision `at`. */
  function MirrorAt(decode: Decoder, before: Mirror, prefix: string, history: History, rev: nat, at: nat): Mirror
    requires rev <= at <= |history|
    decreases at
  {
    if at == rev then AfterSnapshot(decode, before, Under(prefix, Store(history[..rev])))
    else
      var m := MirrorAt(decode, before, prefix, history, rev, at - 1);
      var e := history[at - 1];
      if prefix <= e.key then Replayed(decode, m, e) else m
  }

  /** The nodes that the store describes: the values that are not empty and can be decoded. */
  function Visible(decode: Decoder, store: Contents): Mirror {
    map k | k in store && store[k] != "" && decode(store[k]).Some? :: decode(store[k]).value
  }

  // -------------------------------------------------------------------------------- Properties

  /** One call of tiggerChangeWatchKeyValue, case by case. */
  lemma UpdatedIs(decode: Decoder, m: Mirror, key: string, value: string)
    ensures key == "" ==> Updated(decode, m, key, value) == map[]
    ensures key != "" && value == "" ==> Updated(decode, m, key, value) == m - {key}
    ensures key != "" && value != "" && decode(value).Some? ==>
      Updated(decode, m, key, value) == m[key := decode(value).value]
    ensures key != "" && value != "" && decode(value).None? ==> Updated(decode, m, key, value) == m
  {
  }

  /** One more Set. */
  lemma OverlayOneMore(decode: Decoder, m: Mirror, kvs: Contents, key: string, value: string)
    requires key !in kvs && key != ""
    ensures Overlay(decode, m, kvs[key := value]) == Updated(decode, Overlay(decode, m, kvs), key, value)
  {
  }

  lemma OverlayNothing(decode: Decoder, m: Mirror)
    ensures Overlay(decode, m, map[]) == m
  {
  }

  predicate Unreadable(decode: Decoder, value: string) {
    value != "" && decode(value).None?
  }

  /** After the snapshot the mirror shows the store if and only if the prefix is empty or every node
      that was there before is in the store with a readable or empty value. */
  lemma SnapshotIsExactIff(decode: Decoder, before: Mirror, kvs: Contents)
    ensures AfterSnapshot(decode, before, kvs) == Visible(decode, kvs)
      <==> kvs == map[] || forall k :: k in before ==> k in kvs && !Unreadable(decode, kvs[k])
  {
    var after := AfterSnapshot(decode, before, kvs);
    if k :| k in before && !(k in kvs && !Unreadable(decode, kvs[k])) {
      assert kvs != map[] ==> k in after && k !in Visible(decode, kvs);
    }
  }

  // An event hides a node without removing it.
  predicate Hides(decode: Decoder, m: Mirror, prefix: string, e: Event) {
    prefix <= e.key && e.Put? && Unreadable(decode, e.value) && e.key in m
  }

  ghost predicate NonEmptyKeys(history: History) {
    forall i :: 0 <= i < |history| ==> history[i].key != ""
  }

  // The nodes under a prefix that the store describes at a revision.
  function Shown(decode: Decoder, prefix: string, history: History, at: nat): Mirror
    requires at <= |history|
  {
    Visible(decode, Under(prefix, Store(history[..at])))
  }

  /** From a mirror that shows the store, an event leads to one that shows the store if and only if
      it does not overwrite a shown node with an unreadable value. */
  lemma EventIsExactIff(decode: Decoder, prefix: string, history: History, at: nat)
    requires at < |history| && history[at].key != ""
    ensures var m := Shown(decode, prefix, history, at);
      var e := history[at];
      var m' := if prefix <= e.key then Replayed(decode, m, e) else m;
      m' == Shown(decode, prefix, history, at + 1) <==> !Hides(decode, m, prefix, e)
  {
    assert history[..at + 1][..at] == history[..at];
  }

  ghost predicate Tracks(decode: Decoder, before: Mirror, prefix: string, history: History, rev: nat, at: nat)
    requires rev <= at <= |history|
  {
    MirrorAt(decode, before, prefix, history, rev, at) == Shown(decode, prefix, history, at)
  }

  ghost predicate FreshStart(decode: Decoder, before: Mirror, kvs: Contents) {
    kvs == map[] || forall k :: k in before ==> k in kvs && !Unreadable(decode, kvs[k])
  }

  // No event from revision rev up to revision `last` hides a node.
  ghost predicate NoneHides(decode: Decoder, prefix: string, history: History, rev: nat, last: nat)
    requires last <= |history|
  {
    forall i :: rev <= i < last ==> !Hides(decode, Shown(decode, prefix, history, i), prefix, history[i])
  }

  lemma {:induction false} TracksUpTo(
      decode: Decoder, before: Mirror, prefix: string, history: History, rev: nat, last: nat)
    requires rev <= last <= |history| && NonEmptyKeys(history)
    ensures (forall at :: rev <= at <= last ==> Tracks(decode, before, prefix, history, rev, at))
      <==> FreshStart(decode, before, Under(prefix, Store(history[..rev])))
           && NoneHides(decode, prefix, history, rev, last)
    decreases last
  {
    hide Visible, Under, Overlay, AfterSnapshot, Updated, Store, Hides, Shown;
    if last == rev {
      SnapshotIsExactIff(decode, before, Under(prefix, Store(history[..rev])));
      assert Tracks(decode, before, prefix, history, rev, rev)
        <==> FreshStart(decode, before, Under(prefix, Store(history[..rev]))) by {
        ShownIsVisible(decode, prefix, history, rev);
      }
    } else {
      TracksUpTo(decode, before, prefix, history, rev, last - 1);
      EventIsExactIff(decode, prefix, history, last - 1);
      var m := Shown(decode, prefix, history, last - 1);
      if Tracks(decode, before, prefix, history, rev, last - 1) {
        assert Tracks(decode, before, prefix, history, rev, last) <==> !Hides(decode, m, prefix, history[last - 1]);
      }
      assert NoneHides(decode, prefix, history, rev, last)
        <==> NoneHides(decode, prefix, history, rev, last - 1) && !Hides(decode, m, prefix, history[last - 1]);
      assert (forall at :: rev <= at <= last ==> Tracks(decode, before, prefix, history, rev, at))
        <==> ((forall at :: rev <= at <= last - 1 ==> Tracks(decode, before, prefix, history, rev, at))
              && Tracks(decode, before, prefix, history, rev, last));
    }
  }

  lemma ShownIsVisible(decode: Decoder, prefix: string, history: History, at: nat)
    requires at <= |history|
    ensures Shown(decode, prefix, history, at) == Visible(decode, Under(prefix, Store(history[..at])))
  {
  }

  /** Whatever happens to the store, the mirror equals what the store shows after the snapshot and
      after every event if and only if the watch started fresh and no event hides a node. */
  lemma MirrorTracksStoreIff(decode: Decoder, before: Mirror, prefix: string, history: History, rev: nat)
    requires rev <= |history| && NonEmptyKeys(history)
    ensures (forall at :: rev <= at <= |history| ==> Tracks(decode, before, prefix, history, rev, at))
      <==> FreshStart(decode, before, Under(prefix, Store(history[..rev])))
           && NoneHides(decode, prefix, history, rev, |history|)
  {
    TracksUpTo(decode, before, prefix, history, rev, |history|);
  }

  /** The mirror of a watch depends only on the part of the history that it has seen. */
  lemma {:induction false} MirrorIsStable(
    decode: Decoder, before: Mirror, prefix: string, history: History, more: History, rev: nat, at: nat)
    requires rev <= at <= |history| <= |more| && more[..|history|] == history
    ensures MirrorAt(decode, before, prefix, more, rev, at) == MirrorAt(decode, before, prefix, history, rev, at)
    decreases at
  {
    if at == rev {
      assert more[..rev] == more[..|history|][..rev];
    } else {
      MirrorIsStable(decode, before, prefix, history, more, rev, at - 1);
      assert more[at - 1] == more[..|history|][at - 1];
    }
  }

  // A key alone in the store is copied.
  lemma OneNode(decode: Decoder, name: string, a: string, value: string)
    requires name <= a && value != "" && decode(value).Some?
    ensures a in AfterSnapshot(decode, map[], Under(name, Store([Put(a, value)])))
  {
    assert [Put(a, value)][..0] == [];
    assert Store([Put(a, value)]) == map[a := value];
  }

  // A key deleted while nobody watched, beside another key of the prefix.
  lemma StaleNodes(decode: Decoder, name: string, a: string, b: string, value: string, before: Mirror)
    requires name <= b && a != b && a in before
    ensures var history := [Put(a, value), Put(b, value), Delete(a)];
      && a !in Shown(decode, name, history, |history|)
      && a in AfterSnapshot(decode, before, Under(name, Store(history)))
  {
    var history := [Put(a, value), Put(b, value), Delete(a)];
    assert history[..2][..1] == [Put(a, value)] && [Put(a, value)][..0] == [] && history[..3] == history;
    assert Store(history[..2][..1]) == map[a := value];
    assert Store(history[..2]) == map[a := value, b := value];
    assert Store(history) == map[b := value];
    assert b in Under(name, Store(history));
  }

  // A key overwritten with a value that cannot be decoded.
  lemma HiddenNodes(decode: Decoder, name: string, a: string, value: string, bad: string)
    requires Unreadable(decode, bad)
    ensures a !in Shown(decode, name, [Put(a, value), Put(a, bad)], 2)
  {
    var history := [Put(a, value), Put(a, bad)];
    assert history[..2] == history && history[..1] == [Put(a, value)] && [Put(a, value)][..0] == [];
    assert Store(history[..1]) == map[a := value];
    assert Store(history) == map[a := bad];
  }
}
