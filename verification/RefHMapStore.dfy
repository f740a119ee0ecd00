/**
 The flattened record store (`RedisRefHMapStore`): the hashes of one record, the key registry in
 its root hash, and the guarded scripts of Set, Delete and Patch.

 Writers of different layouts interleave: Set and Delete first read the registry and later run a
 script with the cleanup list they derived from it; the script decides atomically. Patch is a
 single script. Hashes expire on their own.
 */
module RefHMapStore {
  import opened RefHMapText
  import opened Wrappers

  type Key = string

  type Layout = seq<Key>

  datatype Hash = Hash(fields: map<string, string>, expiry: Option<int>)

  type Store = map<Key, Hash>

  /** The field pairs written to one hash. */
  datatype Write = Write(key: Key, values: map<string, string>)

  const REGISTRY := "__keys"

  // ---------------------------------------------------------------- reading the registry

  predicate HasRegistry(store: Store, root: Key) {
    root in store && REGISTRY in store[root].fields
  }

  function RegistryOf(store: Store, root: Key): string {
    if HasRegistry(store, root) then store[root].fields[REGISTRY] else ""
  }

  /** The keys in order of first occurrence, without empty ones. */
  function Unique(keys: seq<Key>): (r: seq<Key>)
    ensures forall key :: key in r <==> key in keys && key != ""
  {
    if keys == [] then []
    else
      assert keys == keys[..|keys| - 1] + [keys[|keys| - 1]];
      var front, last := Unique(keys[..|keys| - 1]), keys[|keys| - 1];
      if last == "" || last in front then front else front + [last]
  }

  /** The cleanup list and the registry text it was derived from. */
  function RegisteredKeys(store: Store, layout: Layout): (seq<Key>, string)
    requires layout != []
  {
    var raw := RegistryOf(store, layout[0]);
    var keys := ParseKeys(Go, raw);
    if keys == [] then (layout, raw) else (Unique([layout[0]] + keys), raw)
  }

  // ---------------------------------------------------------------- scripts

  /** Lets a script pass when its snapshot is current or its key list covers the registry. */
  predicate Covered(store: Store, root: Key, keys: seq<Key>, snapshot: string) {
    var current := RegistryOf(store, root);
    current == snapshot || forall key | key in ParseKeys(Lua, current) :: key in keys
  }

  function Expiry(now: int, ttl: nat, before: Option<int>): Option<int> {
    if ttl > 0 then Some(now + ttl) else before
  }

  function HSet(store: Store, key: Key, values: map<string, string>): Store {
    if key in store then store[key := store[key].(fields := store[key].fields + values)]
    else store[key := Hash(values, None)]
  }

  /** `PEXPIRE` on every key of the list that exists; nothing without a TTL. */
  function Refresh(store: Store, keys: seq<Key>, now: int, ttl: nat): Store {
    map key | key in store ::
      if key in keys then store[key].(expiry := Expiry(now, ttl, store[key].expiry)) else store[key]
  }

  /** Writes the hashes that have fields. */
  function WriteAll(store: Store, writes: seq<Write>): Store {
    if writes == [] then store
    else
      var before := WriteAll(store, writes[..|writes| - 1]);
      var last := writes[|writes| - 1];
      if last.values == map[] then before else HSet(before, last.key, last.values)
  }

  /** Adds the registry of the layout to the root hash of the encoded record. */
  function WithRegistry(layout: Layout, writes: seq<Write>): seq<Write>
    requires layout != []
  {
    if writes == [] then [Write(layout[0], map[REGISTRY := Join(layout)])]
    else if writes[0].key == layout[0] then [Write(layout[0], writes[0].values[REGISTRY := Join(layout)])] + writes[1..]
    else [writes[0]] + WithRegistry(layout, writes[1..])
  }

  datatype Op =
    | SetOp(layout: Layout, writes: seq<Write>, ttl: nat)
    | DeleteOp(layout: Layout)

  /** A Set or Delete between its registry read and its script. */
  datatype Pending = Pending(op: Op, keys: seq<Key>, snapshot: string)

  function Prepare(store: Store, op: Op): Pending
    requires op.layout != []
  {
    var (keys, snapshot) := RegisteredKeys(store, op.layout);
    Pending(op, if op.SetOp? then Unique(keys + op.layout) else keys, snapshot)
  }

  /** The script of Set or Delete: refused, or the whole record replaced or removed. */
  function RunScript(now: int, store: Store, p: Pending): (Store, bool)
    requires p.op.layout != []
  {
    if !Covered(store, p.op.layout[0], p.keys, p.snapshot) then (store, false)
    else
      var cleaned := map key | key in store && key !in p.keys :: store[key];
      match p.op
      case SetOp(layout, writes, ttl) =>
        var written := WriteAll(cleaned, WithRegistry(layout, writes));
        (Refresh(written, layout, now, ttl), true)
      case DeleteOp(_) => (cleaned, true)
  }

  /** Adds the keys the registry does not list yet. */
  ghost function MergeRegistry(registry: string, keys: seq<Key>): string {
    if keys == [] then registry
    else
      var merged := MergeRegistry(registry, keys[..|keys| - 1]);
      var key := keys[|keys| - 1];
      if Contains("\n" + merged + "\n", "\n" + key + "\n") then merged
      else if merged == "" then key else merged + "\n" + key
  }

  /** A patch: the keys from the root to the leaf hash, the reference fields between them, and the leaf field. */
  datatype PatchOp =
    PatchOp(layout: Layout, path: seq<Key>, references: seq<string>, field: string, value: string, ttl: nat)

  predicate ValidPatch(p: PatchOp) {
    && p.layout != [] && p.path != [] && p.path[0] == p.layout[0]
    && |p.references| == |p.path| - 1
    && (forall key | key in p.path :: key in p.layout)
  }

  function SetReferences(store: Store, path: seq<Key>, references: seq<string>): Store
    requires |references| == |path| - 1
  {
    if references == [] then store
    else
      var last := |references| - 1;
      HSet(SetReferences(store, path[..|path| - 1], references[..last]), path[last],
          map[references[last] := path[last + 1]])
  }

  /** The patch script: refused without a root, otherwise the path, the registry and every layout TTL are brought up
      to date. */
  ghost function RunPatch(now: int, store: Store, p: PatchOp): (Store, bool)
    requires ValidPatch(p)
  {
    var root := p.layout[0];
    if root !in store then (store, false)
    else
      var keys := Unique(p.path + p.layout);
      var registry := MergeRegistry(RegistryOf(store, root), keys);
      var referenced := SetReferences(store, p.path, p.references);
      var patched := HSet(referenced, p.path[|p.path| - 1], map[p.field := p.value]);
      (Refresh(HSet(patched, root, map[REGISTRY := registry]), keys, now, p.ttl), true)
  }

  // ---------------------------------------------------------------- runs

  datatype System = System(now: int, store: Store, pending: seq<Pending>)

  datatype Action =
    | Tick(delta: nat)
    | Begin(op: Op)
    | Script(index: nat)
    | Patch(patch: PatchOp)

  function Expire(store: Store, now: int): Store {
    map key | key in store && (store[key].expiry.None? || now < store[key].expiry.value) :: store[key]
  }

  /** One step; an action no layout gives rise to does nothing. */
  ghost function Step(s: System, action: Action): System {
    if !ValidAction(action) then s else
    match action
    case Tick(delta) => System(s.now + delta, Expire(s.store, s.now + delta), s.pending)
    case Begin(op) => s.(pending := s.pending + [Prepare(s.store, op)])
    case Script(index) =>
      if index < |s.pending| && s.pending[index].op.layout != []
      then s.(store := RunScript(s.now, s.store, s.pending[index]).0) else s
    case Patch(patch) => s.(store := RunPatch(s.now, s.store, patch).0)
  }

  /** Encoded hashes belong to the layout, and no field of the root takes the name of the registry. */
  predicate ValidWrite(layout: Layout, w: Write)
    requires layout != []
  {
    w.key in layout && (w.key == layout[0] ==> REGISTRY !in w.values)
  }

  predicate ValidAction(action: Action) {
    match action
    case Begin(op) => op.layout != [] && (op.SetOp? ==> forall w | w in op.writes :: ValidWrite(op.layout, w))
    case Patch(patch) => ValidPatch(patch)
    case _ => true
  }

  ghost function Run(actions: seq<Action>): System {
    if actions == [] then System(0, map[], []) else Step(Run(actions[..|actions| - 1]), actions[|actions| - 1])
  }

  /** Every key of the layout besides the root is clean; the root may be any non-empty key. */
  predicate ChildrenClean(layout: Layout)
    requires layout != []
  {
    layout[0] != "" && forall key | key in layout && key != layout[0] :: Clean(key)
  }

  /** The writers agree on the root key and on one TTL setting, and their other keys are clean. */
  ghost predicate Agreed(action: Action, root: Key, ttl: nat) {
    && ValidAction(action)
    && (action.Begin? ==>
          && action.op.layout[0] == root && ChildrenClean(action.op.layout)
          && (action.op.SetOp? ==> action.op.ttl == ttl))
    && (action.Patch? ==>
          action.patch.layout[0] == root && ChildrenClean(action.patch.layout) && action.patch.ttl == ttl)
  }

  // ---------------------------------------------------------------- no orphans

  /** Every hash besides the root has a clean key that is a line of the root's registry. */
  ghost predicate Listed(store: Store, root: Key) {
    store != map[] ==>
      && HasRegistry(store, root)
      && forall key | key in store && key != root :: Clean(key) && key in Lines(RegistryOf(store, root))
  }

  /** No hash outlives the root, and with a TTL nothing outlives one TTL from now. */
  ghost predicate RootLastsLongest(store: Store, root: Key, now: int, ttl: nat) {
    && (ttl == 0 ==> forall key | key in store :: store[key].expiry.None?)
    && (ttl > 0 ==> forall key | key in store :: store[key].expiry.Some? && store[key].expiry.value <= now + ttl)
    && (ttl > 0 && root in store ==> forall key | key in store :: store[key].expiry.value <= store[root].expiry.value)
  }

  /** The cleanup list covers its own snapshot. */
  ghost predicate PendingOk(p: Pending, root: Key, ttl: nat) {
    && Agreed(Begin(p.op), root, ttl)
    && root in p.keys && (forall key | key in ParseKeys(Go, p.snapshot) :: key in p.keys)
    && (p.op.SetOp? ==> forall key | key in p.op.layout :: key in p.keys)
  }

  ghost predicate Inv(s: System, root: Key, ttl: nat) {
    && Listed(s.store, root)
    && RootLastsLongest(s.store, root, s.now, ttl)
    && forall i | 0 <= i < |s.pending| :: PendingOk(s.pending[i], root, ttl)
  }

  /** What the guard lets through, the cleanup list covers: nothing of the old record survives the deletion. */
  lemma PassedGuardCleansAll(s: System, root: Key, ttl: nat, p: Pending)
    requires Inv(s, root, ttl) && PendingOk(p, root, ttl) && Covered(s.store, root, p.keys, p.snapshot)
    ensures forall key | key in s.store :: key in p.keys
  {
    forall key | key in s.store && key != root ensures key in p.keys {
      CleanLineIsKey(Go, Lines(RegistryOf(s.store, root)), key);
      CleanLineIsKey(Lua, Lines(RegistryOf(s.store, root)), key);
    }
  }

  lemma {:induction false} WriteAllAdds(store: Store, writes: seq<Write>)
    ensures forall key :: key in WriteAll(store, writes) <==> key in store || Written(writes, key)
    ensures (forall key | key in store :: store[key].expiry.None?) ==>
            forall key | key in WriteAll(store, writes) :: WriteAll(store, writes)[key].expiry.None?
  {
    if writes != [] {
      WriteAllAdds(store, writes[..|writes| - 1]);
    }
  }

  /** Some write puts fields under the key. */
  ghost predicate Written(writes: seq<Write>, key: Key) {
    writes != [] &&
    ((writes[|writes| - 1].key == key && writes[|writes| - 1].values != map[]) || Written(writes[..|writes| - 1], key))
  }

  lemma {:induction false} WrittenBy(writes: seq<Write>, key: Key)
    ensures Written(writes, key) <==> exists w :: w in writes && w.key == key && w.values != map[]
  {
    if writes != [] {
      WrittenBy(writes[..|writes| - 1], key);
      assert writes == writes[..|writes| - 1] + [writes[|writes| - 1]];
    }
  }

  ghost predicate WritesRegistry(layout: Layout, writes: seq<Write>)
    requires layout != []
  {
    && (exists w :: w in writes && w.key == layout[0] && REGISTRY in w.values)
    && (forall w | w in writes && w.key == layout[0] && REGISTRY in w.values :: w.values[REGISTRY] == Join(layout))
    && (forall w | w in writes :: w.key in layout)
  }

  lemma {:induction false} WithRegistryWrites(layout: Layout, writes: seq<Write>)
    requires layout != [] && forall w | w in writes :: ValidWrite(layout, w)
    ensures WritesRegistry(layout, WithRegistry(layout, writes))
  {
    var all := WithRegistry(layout, writes);
    if writes == [] {
      assert all[0] in all && layout[0] in layout;
    } else if writes[0].key == layout[0] {
      assert all[0] in all && writes[0] in writes;
      assert forall w | w in writes[1..] :: w in writes;
    } else {
      WithRegistryWrites(layout, writes[1..]);
      var w :| w in WithRegistry(layout, writes[1..]) && w.key == layout[0] && REGISTRY in w.values;
      assert w in all && writes[0] in writes;
    }
  }

  lemma {:induction false} RegistryWritten(layout: Layout, store: Store, writes: seq<Write>)
    requires layout != [] && layout[0] !in store
    requires forall w | w in writes && w.key == layout[0] && REGISTRY in w.values :: w.values[REGISTRY] == Join(layout)
    ensures var r := WriteAll(store, writes);
            && (HasRegistry(r, layout[0]) ==> RegistryOf(r, layout[0]) == Join(layout))
            && ((exists w :: w in writes && w.key == layout[0] && REGISTRY in w.values) ==> HasRegistry(r, layout[0]))
  {
    if writes != [] {
      var front, last := writes[..|writes| - 1], writes[|writes| - 1];
      assert writes == front + [last];
      RegistryWritten(layout, store, front);
      if last.values == map[] {
        assert REGISTRY !in last.values;
      }
    }
  }

  /** The record Set leaves behind: the layout's registry in the root, and layout hashes only. */
  lemma SetRecord(layout: Layout, writes: seq<Write>)
    requires layout != [] && ChildrenClean(layout) && forall w | w in writes :: ValidWrite(layout, w)
    ensures var r := WriteAll(map[], WithRegistry(layout, writes));
            && HasRegistry(r, layout[0]) && RegistryOf(r, layout[0]) == Join(layout)
            && (forall key | key in layout && key != layout[0] :: key in Lines(Join(layout)))
            && (forall key | key in r :: key in layout && r[key].expiry.None?)
  {
    var all := WithRegistry(layout, writes);
    WithRegistryWrites(layout, writes);
    RegistryWritten(layout, map[], all);
    WriteAllAdds(map[], all);
    forall key | key in WriteAll(map[], all) ensures key in layout {
      WrittenBy(all, key);
    }
    forall key | key in layout && key != layout[0] ensures key in Lines(Join(layout)) {
      JoinedLine(layout, key);
    }
  }

  lemma ScriptKeepsInv(s: System, root: Key, ttl: nat, p: Pending)
    requires Inv(s, root, ttl) && PendingOk(p, root, ttl)
    ensures Inv(s.(store := RunScript(s.now, s.store, p).0), root, ttl)
    ensures RunScript(s.now, s.store, p).1 && p.op.DeleteOp? ==> RunScript(s.now, s.store, p).0 == map[]
    ensures RunScript(s.now, s.store, p).1 && p.op.SetOp? ==>
      var record := WriteAll(map[], WithRegistry(p.op.layout, p.op.writes));
      RunScript(s.now, s.store, p).0 == Refresh(record, p.op.layout, s.now, ttl)
  {
    if Covered(s.store, root, p.keys, p.snapshot) {
      PassedGuardCleansAll(s, root, ttl, p);
      var cleaned := map key | key in s.store && key !in p.keys :: s.store[key];
      assert cleaned == map[];
      if p.op.SetOp? {
        SetRecord(p.op.layout, p.op.writes);
      }
    }
  }

  /** Whatever the registry held, the cleanup list covers what was read of it, the root, and for a Set the layout. */
  lemma PreparedCoversRead(store: Store, op: Op)
    requires op.layout != [] && op.layout[0] != ""
    ensures var p := Prepare(store, op);
            && op.layout[0] in p.keys && (forall key | key in ParseKeys(Go, p.snapshot) :: key in p.keys)
            && (op.SetOp? ==> forall key | key in op.layout && key != "" :: key in p.keys)
  {
    var raw := RegistryOf(store, op.layout[0]);
    LinesHaveNoNewline(raw);
    KeysAreClean(Lines(raw));
    assert op.layout[0] in op.layout;
  }

  lemma PrepareOk(s: System, root: Key, ttl: nat, op: Op)
    requires Agreed(Begin(op), root, ttl)
    ensures PendingOk(Prepare(s.store, op), root, ttl)
  {
    PreparedCoversRead(s.store, op);
  }

  // ---------------------------------------------------------------- patch

  /** Merging loses no line of text, and every clean key it was given is a line afterwards. */
  lemma {:induction false} MergeKeeps(registry: string, keys: seq<Key>, line: string)
    requires line != "" && '\n' !in line && (line in Lines(registry) || line in keys)
    ensures line in Lines(MergeRegistry(registry, keys))
  {
    if keys != [] {
      var front, key := keys[..|keys| - 1], keys[|keys| - 1];
      assert keys == front + [key];
      var merged := MergeRegistry(registry, front);
      if line in Lines(registry) || line in front {
        MergeKeeps(registry, front, line);
      } else {
        SearchFindsLines(merged, line);
        LinesSingle(line);
      }
      LinesConcat(merged, key);
    }
  }

  /** Storing fields in a hash of the path only adds path hashes and keeps every expiry. */
  ghost predicate Grown(before: Store, after: Store, path: seq<Key>) {
    && (forall key | key in before :: key in after && after[key].expiry == before[key].expiry)
    && (forall key | key in after :: key in before || (key in path && after[key].expiry.None?))
  }

  lemma {:induction false} SetReferencesGrows(store: Store, path: seq<Key>, references: seq<string>)
    requires |references| == |path| - 1
    ensures Grown(store, SetReferences(store, path, references), path)
  {
    if references != [] {
      SetReferencesGrows(store, path[..|path| - 1], references[..|references| - 1]);
    }
  }

  ghost function MergedRegistry(store: Store, p: PatchOp): string
    requires ValidPatch(p)
  {
    MergeRegistry(RegistryOf(store, p.layout[0]), Unique(p.path + p.layout))
  }

  /** What an accepted patch does to the set of hashes, their expiry and the registry. */
  lemma PatchResult(now: int, store: Store, p: PatchOp)
    requires ValidPatch(p) && p.layout[0] in store && "" !in p.layout
    ensures var r := RunPatch(now, store, p).0;
            && RegistryOf(r, p.layout[0]) == MergedRegistry(store, p) && HasRegistry(r, p.layout[0])
            && (forall key | key in store ::
                  && key in r
                  && r[key].expiry == if key in p.layout then Expiry(now, p.ttl, store[key].expiry)
                                      else store[key].expiry)
            && (forall key | key in r && key !in store :: key in p.layout && r[key].expiry == Expiry(now, p.ttl, None))
  {
    var root, keys := p.layout[0], Unique(p.path + p.layout);
    SetReferencesGrows(store, p.path, p.references);
    var patched := HSet(SetReferences(store, p.path, p.references), p.path[|p.path| - 1], map[p.field := p.value]);
    var listed := HSet(patched, root, map[REGISTRY := MergedRegistry(store, p)]);
    assert Grown(store, listed, p.path);
    assert forall key :: key in keys <==> key in p.layout;
  }

  lemma PatchKeepsListed(store: Store, root: Key, p: PatchOp, r: Store)
    requires ValidPatch(p) && p.layout[0] == root && ChildrenClean(p.layout) && Listed(store, root) && root in store
    requires HasRegistry(r, root) && RegistryOf(r, root) == MergedRegistry(store, p)
    requires forall key | key in r && key !in store :: key in p.layout
    ensures Listed(r, root)
  {
    var keys := Unique(p.path + p.layout);
    forall key | key in r && key != root ensures Clean(key) && key in Lines(RegistryOf(r, root)) {
      assert Clean(key);
      assert key in store || key in keys;
      MergeKeeps(RegistryOf(store, root), keys, key);
    }
  }

  lemma PatchKeepsInv(s: System, root: Key, ttl: nat, p: PatchOp)
    requires Inv(s, root, ttl) && Agreed(Patch(p), root, ttl)
    ensures Inv(s.(store := RunPatch(s.now, s.store, p).0), root, ttl)
  {
    if root in s.store {
      var r := RunPatch(s.now, s.store, p).0;
      PatchResult(s.now, s.store, p);
      assert Listed(r, root) by { PatchKeepsListed(s.store, root, p, r); }
      assert RootLastsLongest(r, root, s.now, ttl);
    }
  }

  // ---------------------------------------------------------------- every run

  lemma StepKeepsInv(s: System, root: Key, ttl: nat, action: Action)
    requires Inv(s, root, ttl) && Agreed(action, root, ttl)
    ensures Inv(Step(s, action), root, ttl)
  {
    match action
    case Tick(delta) =>
      var later := Expire(s.store, s.now + delta);
      assert later != map[] ==> root in later by {
        if key :| key in later {
          assert key in s.store && root in s.store;
        }
      }
    case Begin(op) => PrepareOk(s, root, ttl, op);
    case Script(index) =>
      if index < |s.pending| {
        ScriptKeepsInv(s, root, ttl, s.pending[index]);
      }
    case Patch(patch) => PatchKeepsInv(s, root, ttl, patch);
  }

  lemma {:induction false} RunKeepsInv(actions: seq<Action>, root: Key, ttl: nat)
    requires forall i | 0 <= i < |actions| :: Agreed(actions[i], root, ttl)
    ensures Inv(Run(actions), root, ttl)
  {
    if actions != [] {
      var front, last := actions[..|actions| - 1], actions[|actions| - 1];
      RunKeepsInv(front, root, ttl);
      StepKeepsInv(Run(front), root, ttl, last);
    }
  }

  /** Every hash of the record can be found: the root exists, and its registry, as Set and Delete parse it, names the
      hash. */
  ghost predicate OrphanFree(store: Store, root: Key) {
    forall key | key in store :: root in store && (key == root || key in ParseKeys(Go, RegistryOf(store, root)))
  }

  /** No run of writers with different layouts leaves an orphan. */
  lemma NoOrphans(actions: seq<Action>, root: Key, ttl: nat)
    requires forall i | 0 <= i < |actions| :: Agreed(actions[i], root, ttl)
    ensures OrphanFree(Run(actions).store, root)
  {
    RunKeepsInv(actions, root, ttl);
    var store := Run(actions).store;
    forall key | key in store ensures root in store && (key == root || key in ParseKeys(Go, RegistryOf(store, root))) {
      if key != root {
        CleanLineIsKey(Go, Lines(RegistryOf(store, root)), key);
      }
    }
  }

  /** In every run, a Delete that passes the guard removes the whole record, and a Set leaves exactly its own. */
  lemma ScriptReplacesWholeRecord(actions: seq<Action>, root: Key, ttl: nat, index: nat)
    requires forall i | 0 <= i < |actions| :: Agreed(actions[i], root, ttl)
    requires index < |Run(actions).pending|
    ensures var s := Run(actions);
            var p := s.pending[index];
            p.op.layout != [] &&
            var (store, passed) := RunScript(s.now, s.store, p);
            if !passed then store == s.store
            else if p.op.DeleteOp? then store == map[]
            else store == Refresh(WriteAll(map[], WithRegistry(p.op.layout, p.op.writes)), p.op.layout, s.now, ttl)
  {
    RunKeepsInv(actions, root, ttl);
    ScriptKeepsInv(Run(actions), root, ttl, Run(actions).pending[index]);
  }

  // ---------------------------------------------------------------- one layout

  /** Every writer uses the same layout, with any TTL setting. */
  ghost predicate SameLayout(action: Action, layout: Layout) {
    && ValidAction(action)
    && (action.Begin? ==> action.op.layout == layout)
    && (action.Patch? ==> action.patch.layout == layout)
  }

  ghost predicate AllSameLayout(actions: seq<Action>, layout: Layout) {
    forall i | 0 <= i < |actions| :: SameLayout(actions[i], layout)
  }

  /** The root's registry is the one of the layout, letter by letter. */
  ghost predicate RegistryIs(store: Store, layout: Layout)
    requires layout != []
  {
    layout[0] in store ==> HasRegistry(store, layout[0]) && RegistryOf(store, layout[0]) == Join(layout)
  }

  /** The operation read that registry, or none and then fell back to the layout. */
  ghost predicate PreparedFor(p: Pending, layout: Layout)
    requires layout != []
  {
    && p.op.layout == layout && layout[0] in p.keys
    && (p.op.SetOp? ==> forall w | w in p.op.writes :: ValidWrite(layout, w))
    && (p.snapshot == Join(layout) || (p.snapshot == "" && forall key | key in layout && key != "" :: key in p.keys))
  }

  ghost predicate OneLayout(s: System, layout: Layout) {
    && layout != [] && layout[0] != "" && RegistryIs(s.store, layout)
    && forall i | 0 <= i < |s.pending| :: PreparedFor(s.pending[i], layout)
  }

  lemma PreparedCovers(s: System, layout: Layout, op: Op)
    requires OneLayout(s, layout) && SameLayout(Begin(op), layout)
    ensures PreparedFor(Prepare(s.store, op), layout)
  {
    PreparedCoversRead(s.store, op);
    assert ParseKeys(Go, "") == [];
  }

  lemma ScriptKeepsRegistry(s: System, layout: Layout, index: nat)
    requires OneLayout(s, layout) && index < |s.pending|
    ensures RegistryIs(RunScript(s.now, s.store, s.pending[index]).0, layout)
  {
    var p := s.pending[index];
    assert PreparedFor(p, layout);
    if p.op.SetOp? {
      var cleaned := map key | key in s.store && key !in p.keys :: s.store[key];
      WithRegistryWrites(layout, p.op.writes);
      RegistryWritten(layout, cleaned, WithRegistry(layout, p.op.writes));
    }
  }

  /** Merging keys that the registry already joins changes nothing. */
  lemma {:induction false} MergeNothing(layout: Layout, keys: seq<Key>)
    requires forall key | key in keys :: key in layout
    ensures MergeRegistry(Join(layout), keys) == Join(layout)
  {
    if keys != [] {
      var key := keys[|keys| - 1];
      assert keys == keys[..|keys| - 1] + [key] && key in keys;
      MergeNothing(layout, keys[..|keys| - 1]);
      var i :| 0 <= i < |layout| && layout[i] == key;
      SearchSplits(layout, i);
    }
  }

  lemma PatchKeepsRegistry(s: System, layout: Layout, p: PatchOp)
    requires OneLayout(s, layout) && SameLayout(Patch(p), layout)
    ensures RegistryIs(RunPatch(s.now, s.store, p).0, layout)
  {
    if layout[0] in s.store {
      MergeNothing(layout, Unique(p.path + p.layout));
    } else {
      assert RunPatch(s.now, s.store, p).0 == s.store;
    }
  }

  lemma StepKeepsOneLayout(s: System, layout: Layout, action: Action)
    requires OneLayout(s, layout) && SameLayout(action, layout)
    ensures OneLayout(Step(s, action), layout)
  {
    match action
    case Tick(delta) =>
    case Begin(op) => PreparedCovers(s, layout, op);
    case Script(index) =>
      if index < |s.pending| {
        ScriptKeepsRegistry(s, layout, index);
      }
    case Patch(patch) => PatchKeepsRegistry(s, layout, patch);
  }

  lemma {:induction false} RunKeepsOneLayout(actions: seq<Action>, layout: Layout)
    requires layout != [] && layout[0] != "" && AllSameLayout(actions, layout)
    ensures OneLayout(Run(actions), layout)
  {
    if actions != [] {
      RunKeepsOneLayout(actions[..|actions| - 1], layout);
      StepKeepsOneLayout(Run(actions[..|actions| - 1]), layout, actions[|actions| - 1]);
    }
  }

  /** Every line the guard reads from the layout's registry is a key of the layout. */
  predicate GuardReadsKeys(layout: Layout) {
    forall key | key in ParseKeys(Lua, Join(layout)) :: key in layout
  }

  lemma CleanIsRead(layout: Layout)
    requires AllClean(layout)
    ensures GuardReadsKeys(layout)
  {
    RegistryRoundTrip(Lua, layout);
  }

  lemma PassesGuard(s: System, layout: Layout, index: nat)
    requires OneLayout(s, layout) && GuardReadsKeys(layout) && index < |s.pending|
    ensures Covered(s.store, layout[0], s.pending[index].keys, s.pending[index].snapshot)
  {
    assert PreparedFor(s.pending[index], layout);
    assert ParseKeys(Lua, "") == [];
    KeysNotEmpty(Lua, Lines(Join(layout)));
  }

  /** No script of writers of this one layout is ever refused. */
  ghost predicate NeverRefused(layout: Layout) {
    forall actions: seq<Action>, index: nat | AllSameLayout(actions, layout) && index < |Run(actions).pending| ::
      Passes(Run(actions), index)
  }

  ghost predicate Passes(s: System, index: nat) {
    index < |s.pending| && s.pending[index].op.layout != [] ==> RunScript(s.now, s.store, s.pending[index]).1
  }

  /** Two Sets that both found no record: the second one finds a line it does not know. */
  lemma SecondSetRefused(layout: Layout, key: Key) returns (actions: seq<Action>)
    requires layout != [] && layout[0] != "" && key in ParseKeys(Lua, Join(layout)) && key !in layout
    ensures AllSameLayout(actions, layout) && |Run(actions).pending| == 2 && !Passes(Run(actions), 1)
  {
    var op := SetOp(layout, [], 0);
    var two := TwoSets(op);
    PreparedEmpty(op);
    SecondRefused(two, Prepare(map[], op), key);
    actions := two + [Script(0)];
  }

  lemma SecondRefused(two: seq<Action>, p: Pending, key: Key)
    requires Run(two) == System(0, map[], [p, p]) && p.op.layout != [] && p.op == SetOp(p.op.layout, [], 0)
    requires p.snapshot == "" && forall k | k in p.keys :: k in p.op.layout
    requires key in ParseKeys(Lua, Join(p.op.layout)) && key !in p.op.layout
    ensures |Run(two + [Script(0)]).pending| == 2 && !Passes(Run(two + [Script(0)]), 1)
  {
    FirstScript(two, p);
    FirstRegistry(p.op.layout);
    UnknownLineRefused(Run(two + [Script(0)]).store, p, key);
  }

  lemma FirstScript(two: seq<Action>, p: Pending)
    requires Run(two) == System(0, map[], [p, p]) && p.op.SetOp? && p.op.layout != [] && p.snapshot == ""
    ensures var written := WriteAll(map[], WithRegistry(p.op.layout, p.op.writes));
            Run(two + [Script(0)]) == System(0, Refresh(written, p.op.layout, 0, p.op.ttl), [p, p])
  {
    RunAppends(two, Script(0));
    SetOnEmpty(p);
  }

  lemma PreparedEmpty(op: Op)
    requires op.layout != []
    ensures var p := Prepare(map[], op); p.op == op && p.snapshot == "" && forall k | k in p.keys :: k in op.layout
  {
    assert ParseKeys(Go, "") == [];
  }

  lemma TwoSets(op: Op) returns (actions: seq<Action>)
    requires op.SetOp? && op.layout != [] && op.writes == []
    ensures var p := Prepare(map[], op); Run(actions) == System(0, map[], [p, p])
    ensures AllSameLayout(actions, op.layout)
  {
    var p, one := Prepare(map[], op), [] + [Begin(op)];
    RunAppends([], Begin(op));
    assert Run(one) == System(0, map[], [] + [p]);
    RunAppends(one, Begin(op));
    assert [p] + [p] == [p, p] && [] + [p] == [p];
    actions := one + [Begin(op)];
  }

  lemma UnknownLineRefused(store: Store, p: Pending, key: Key)
    requires p.op.layout != [] && p.snapshot == "" && key !in p.keys
    requires RegistryOf(store, p.op.layout[0]) == Join(p.op.layout) && key in ParseKeys(Lua, Join(p.op.layout))
    ensures !Covered(store, p.op.layout[0], p.keys, p.snapshot)
  {
    assert ParseKeys(Lua, "") == [];
  }

  lemma FirstRegistry(layout: Layout)
    requires layout != []
    ensures var r := Refresh(WriteAll(map[], WithRegistry(layout, [])), layout, 0, 0);
            HasRegistry(r, layout[0]) && RegistryOf(r, layout[0]) == Join(layout)
  {
    WithRegistryWrites(layout, []);
    RegistryWritten(layout, map[], WithRegistry(layout, []));
  }

  /**
   With one layout the guard never refuses, whatever creations, deletions, TTLs and expiries interleave, exactly when
   every line it reads from the layout's registry is a key of the layout; clean keys are enough for that.
   */
  lemma NeverRefusedExactly(layout: Layout)
    requires layout != [] && layout[0] != ""
    ensures NeverRefused(layout) <==> GuardReadsKeys(layout)
    ensures AllClean(layout) ==> NeverRefused(layout)
  {
    if GuardReadsKeys(layout) {
      forall actions: seq<Action>, index: nat | AllSameLayout(actions, layout) && index < |Run(actions).pending|
        ensures Passes(Run(actions), index)
      {
        RunKeepsOneLayout(actions, layout);
        assert PreparedFor(Run(actions).pending[index], layout);
        PassesGuard(Run(actions), layout, index);
      }
    } else {
      var key :| key in ParseKeys(Lua, Join(layout)) && key !in layout;
      var actions := SecondSetRefused(layout, key);
      assert !Passes(Run(actions), 1);
    }
    if AllClean(layout) {
      CleanIsRead(layout);
    }
  }

  // ---------------------------------------------------------------- why the conditions are needed

  predicate LayoutWithin(layout: Layout, root: Key, children: set<Key>) {
    layout != [] && layout[0] == root && forall key | key in layout :: key == root || key in children
  }

  /** The action comes from writers of one record with these other keys and TTL settings. */
  ghost predicate Within(action: Action, root: Key, children: set<Key>, ttls: set<nat>) {
    && ValidAction(action)
    && (action.Begin? ==>
          LayoutWithin(action.op.layout, root, children) && (action.op.SetOp? ==> action.op.ttl in ttls))
    && (action.Patch? ==> LayoutWithin(action.patch.layout, root, children) && action.patch.ttl in ttls)
  }

  ghost predicate AllWithin(actions: seq<Action>, root: Key, children: set<Key>, ttls: set<nat>) {
    forall i | 0 <= i < |actions| :: Within(actions[i], root, children, ttls)
  }

  lemma Widen(actions: seq<Action>, root: Key, children: set<Key>, ttls: set<nat>, children': set<Key>, ttls': set<nat>)
    requires AllWithin(actions, root, children, ttls) && children <= children' && ttls <= ttls'
    ensures AllWithin(actions, root, children', ttls')
  {
  }

  /** The hashes of the layout `[root, child]` with one field in the child. */
  lemma TwoHashes(root: Key, child: Key, values: map<string, string>)
    requires root != child && values != map[]
    ensures WriteAll(map[], WithRegistry([root, child], [Write(child, values)]))
         == map[root := Hash(map[REGISTRY := Join([root, child])], None), child := Hash(values, None)]
  {
    var layout, w := [root, child], Write(child, values);
    var r := Write(root, map[REGISTRY := Join(layout)]);
    assert [w][1..] == [] && WithRegistry(layout, []) == [r];
    assert WithRegistry(layout, [w]) == [w, r];
    assert [w, r][..1] == [w] && [w][..0] == [];
    assert REGISTRY in r.values;
    assert WriteAll(map[], []) == map[];
    assert WriteAll(map[], [w]) == map[child := Hash(w.values, None)];
  }

  /** A first Set of the layout `[root, child]`, from the empty store. */
  lemma FirstSet(root: Key, child: Key, values: map<string, string>, ttl: nat) returns (actions: seq<Action>)
    requires root != child && values != map[]
    ensures |actions| == 2 && AllWithin(actions, root, {child}, {ttl})
    ensures var s := Run(actions);
            && s.now == 0 && |s.pending| == 1
            && s.store == map[root := Hash(map[REGISTRY := Join([root, child])], Expiry(0, ttl, None)),
                              child := Hash(values, Expiry(0, ttl, None))]
  {
    var begin := Begin(SetOp([root, child], [Write(child, values)], ttl));
    BeginFirst(root, child, values, ttl);
    SetOnEmpty(Prepare(map[], begin.op));
    RefreshTwo(root, child, values, ttl);
    actions := [begin] + [Script(0)];
    assert actions[..1] == [begin];
  }

  lemma RefreshTwo(root: Key, child: Key, values: map<string, string>, ttl: nat)
    requires root != child && values != map[]
    ensures Refresh(WriteAll(map[], WithRegistry([root, child], [Write(child, values)])), [root, child], 0, ttl)
         == map[root := Hash(map[REGISTRY := Join([root, child])], Expiry(0, ttl, None)),
                child := Hash(values, Expiry(0, ttl, None))]
  {
    TwoHashes(root, child, values);
  }

  lemma SetOnEmpty(p: Pending)
    requires p.op.SetOp? && p.op.layout != [] && p.snapshot == ""
    ensures RunScript(0, map[], p)
         == (Refresh(WriteAll(map[], WithRegistry(p.op.layout, p.op.writes)), p.op.layout, 0, p.op.ttl), true)
  {
    var empty: Store := map[];
    assert (map key | key in empty && key !in p.keys :: empty[key]) == empty;
  }

  lemma BeginFirst(root: Key, child: Key, values: map<string, string>, ttl: nat)
    requires root != child && values != map[]
    ensures var op := SetOp([root, child], [Write(child, values)], ttl);
            && Run([Begin(op)]) == System(0, map[], [Prepare(map[], op)])
            && Prepare(map[], op).snapshot == ""
  {
    var layout, w := [root, child], Write(child, values);
    var begin := Begin(SetOp(layout, [w], ttl));
    assert [begin][..0] == [];
    assert layout[1] == child && ValidAction(begin);
    assert ParseKeys(Go, "") == [];
  }

  /**
   The clean-key condition is needed: a hash key with a newline or with white space at its ends is
   lost by the registry, and a Delete leaves it behind. The root may be clean or not.
   */
  lemma UncleanKeyOrphans(root: Key, child: Key, values: map<string, string>, ttl: nat) returns (actions: seq<Action>)
    requires root != "" && root != child && !Clean(child) && values != map[]
    ensures child in Run(actions).store && root !in Run(actions).store
    ensures AllWithin(actions, root, {child}, {ttl})
  {
    var first := FirstSet(root, child, values, ttl);
    var delete := Begin(DeleteOp([root]));
    var s := Run(first);
    var p := Prepare(s.store, delete.op);
    DeletePrepared(s.store, root, child);
    DeleteLeaves(s.store, p, child, root);
    RunAppends(first, delete);
    RunAppends(first + [delete], Script(1));
    actions := (first + [delete]) + [Script(1)];
  }

  lemma RunAppends(actions: seq<Action>, action: Action)
    ensures Run(actions + [action]) == Step(Run(actions), action)
  {
    assert (actions + [action])[..|actions|] == actions;
  }

  lemma DeletePrepared(store: Store, root: Key, child: Key)
    requires root != "" && root != child && !Clean(child)
    ensures var p := Prepare(store, DeleteOp([root]));
            child !in p.keys && root in p.keys && p.snapshot == RegistryOf(store, root)
  {
    var raw := RegistryOf(store, root);
    LinesHaveNoNewline(raw);
    KeysAreClean(Lines(raw));
    PreparedCoversRead(store, DeleteOp([root]));
  }

  lemma DeleteLeaves(store: Store, p: Pending, child: Key, root: Key)
    requires p.op.DeleteOp? && p.op.layout == [root] && p.snapshot == RegistryOf(store, root)
    requires child in store && child !in p.keys && root in p.keys
    ensures child in RunScript(0, store, p).0 && root !in RunScript(0, store, p).0
  {
  }

  /** One TTL setting is needed: with two, a patch can shorten the root below a hash it does not know. */
  lemma DifferentTtlsOrphan(root: Key, child: Key, values: map<string, string>, slow: nat, fast: nat)
    returns (actions: seq<Action>)
    requires root != "" && root != child && values != map[] && fast > 0 && (slow == 0 || slow > fast)
    ensures child in Run(actions).store && root !in Run(actions).store
    ensures AllWithin(actions, root, {child}, {slow, fast})
  {
    var first := FirstSet(root, child, values, slow);
    var patch := PatchOp([root], [root], [], "f", "v", fast);
    Widen(first, root, {child}, {slow}, {child}, {slow, fast});
    PatchThenExpire(first, root, child, patch, slow);
    actions := (first + [Patch(patch)]) + [Tick(fast)];
  }

  lemma PatchThenExpire(first: seq<Action>, root: Key, child: Key, patch: PatchOp, slow: nat)
    requires patch.layout == patch.path == [root] && patch.references == [] && patch.ttl > 0
    requires root != "" && root != child && (slow == 0 || slow > patch.ttl)
    requires var s := Run(first);
             s.now == 0 && root in s.store && child in s.store && s.store[child].expiry == Expiry(0, slow, None)
    ensures ValidPatch(patch)
    ensures var store := Run((first + [Patch(patch)]) + [Tick(patch.ttl)]).store; child in store && root !in store
  {
    PatchShortens(Run(first).store, root, child, patch);
    RunAppends(first, Patch(patch));
    RunAppends(first + [Patch(patch)], Tick(patch.ttl));
    ExpiresAlone(Run(first + [Patch(patch)]).store, root, child, patch.ttl, slow);
  }

  lemma ExpiresAlone(store: Store, root: Key, child: Key, fast: nat, slow: nat)
    requires root in store && child in store && store[root].expiry == Some(fast)
    requires store[child].expiry == Expiry(0, slow, None) && (slow == 0 || slow > fast)
    ensures child in Expire(store, fast) && root !in Expire(store, fast)
  {
  }

  lemma PatchShortens(store: Store, root: Key, child: Key, patch: PatchOp)
    requires patch.layout == patch.path == [root] && patch.references == [] && patch.ttl > 0
    requires root in store && child in store && root != child && root != ""
    ensures ValidPatch(patch)
    ensures var r := RunPatch(0, store, patch).0;
            root in r && child in r && r[root].expiry == Some(patch.ttl) && r[child].expiry == store[child].expiry
  {
    PatchResult(0, store, patch);
  }

  // ---------------------------------------------------------------- exactly when there are no orphans

  /** No hash outside the writers' keys exists or is about to be written. */
  ghost predicate KeysWithin(s: System, root: Key, children: set<Key>) {
    && (forall key | key in s.store :: key == root || key in children)
    && forall i | 0 <= i < |s.pending| ::
         LayoutWithin(s.pending[i].op.layout, root, children) && ValidAction(Begin(s.pending[i].op))
  }

  lemma StepStaysWithin(s: System, root: Key, children: set<Key>, ttls: set<nat>, action: Action)
    requires KeysWithin(s, root, children) && Within(action, root, children, ttls)
    ensures KeysWithin(Step(s, action), root, children)
  {
    match action
    case Tick(delta) =>
    case Begin(op) =>
    case Script(index) =>
      if index < |s.pending| {
        ScriptStaysWithin(s, root, children, index);
      }
    case Patch(patch) =>
      SetReferencesGrows(s.store, patch.path, patch.references);
  }

  lemma ScriptStaysWithin(s: System, root: Key, children: set<Key>, index: nat)
    requires KeysWithin(s, root, children) && index < |s.pending|
    ensures forall key | key in RunScript(s.now, s.store, s.pending[index]).0 :: key == root || key in children
  {
    var p := s.pending[index];
    if p.op.SetOp? {
      var cleaned := map key | key in s.store && key !in p.keys :: s.store[key];
      var all := WithRegistry(p.op.layout, p.op.writes);
      WithRegistryWrites(p.op.layout, p.op.writes);
      WriteAllAdds(cleaned, all);
      forall key | key in WriteAll(cleaned, all) ensures key == root || key in children {
        WrittenBy(all, key);
      }
    }
  }

  lemma {:induction false} RunStaysWithin(actions: seq<Action>, root: Key, children: set<Key>, ttls: set<nat>)
    requires forall i | 0 <= i < |actions| :: Within(actions[i], root, children, ttls)
    ensures KeysWithin(Run(actions), root, children)
  {
    if actions != [] {
      RunStaysWithin(actions[..|actions| - 1], root, children, ttls);
      StepStaysWithin(Run(actions[..|actions| - 1]), root, children, ttls, actions[|actions| - 1]);
    }
  }

  /** No run of such writers leaves an orphan. */
  ghost predicate AlwaysOrphanFree(root: Key, children: set<Key>, ttls: set<nat>) {
    forall actions: seq<Action> | AllWithin(actions, root, children, ttls) :: OrphanFree(Run(actions).store, root)
  }

  /** Clean keys and one TTL setting, unless there is nothing besides the root. */
  ghost predicate Orderly(children: set<Key>, ttls: set<nat>) {
    children == {} || ((forall key | key in children :: Clean(key)) && forall t, u | t in ttls && u in ttls :: t == u)
  }

  lemma OrderlyIsFree(actions: seq<Action>, root: Key, children: set<Key>, ttls: set<nat>, ttl: nat)
    requires root != "" && AllWithin(actions, root, children, ttls) && ttl in ttls && Orderly(children, ttls)
    ensures OrphanFree(Run(actions).store, root)
  {
    if children == {} {
      RunStaysWithin(actions, root, children, ttls);
    } else {
      forall i | 0 <= i < |actions| ensures Agreed(actions[i], root, ttl) {
        assert Within(actions[i], root, children, ttls);
      }
      NoOrphans(actions, root, ttl);
    }
  }

  lemma UncleanIsNotFree(root: Key, children: set<Key>, ttls: set<nat>, child: Key, ttl: nat)
    requires root != "" && root !in children && child in children && !Clean(child) && ttl in ttls
    ensures !AlwaysOrphanFree(root, children, ttls)
  {
    assert "f" in map["f" := "v"];
    var actions := UncleanKeyOrphans(root, child, map["f" := "v"], ttl);
    Widen(actions, root, {child}, {ttl}, children, ttls);
  }

  lemma TwoTtlsAreNotFree(root: Key, children: set<Key>, ttls: set<nat>, child: Key, t: nat, u: nat)
    requires root != "" && root !in children && child in children && t in ttls && u in ttls && t != u
    ensures !AlwaysOrphanFree(root, children, ttls)
  {
    var slow, fast := if u == 0 || (t != 0 && t < u) then u else t, if u == 0 || (t != 0 && t < u) then t else u;
    assert "f" in map["f" := "v"];
    var actions := DifferentTtlsOrphan(root, child, map["f" := "v"], slow, fast);
    Widen(actions, root, {child}, {slow, fast}, children, ttls);
  }

  /**
   Writers of one record, with any layouts over its keys, leave no orphan in any run exactly when every key besides the
   root is clean and all use one TTL setting; a record that is only a root never has orphans.
   */
  lemma OrphanFreeExactly(root: Key, children: set<Key>, ttls: set<nat>)
    requires root != "" && root !in children && ttls != {}
    ensures AlwaysOrphanFree(root, children, ttls) <==> Orderly(children, ttls)
  {
    var ttl :| ttl in ttls;
    if Orderly(children, ttls) {
      forall actions: seq<Action> | AllWithin(actions, root, children, ttls)
        ensures OrphanFree(Run(actions).store, root)
      {
        OrderlyIsFree(actions, root, children, ttls, ttl);
      }
    } else {
      var child :| child in children;
      if key :| key in children && !Clean(key) {
        UncleanIsNotFree(root, children, ttls, key, ttl);
      } else {
        var t, u :| t in ttls && u in ttls && t != u;
        TwoTtlsAreNotFree(root, children, ttls, child, t, u);
      }
    }
  }
}
