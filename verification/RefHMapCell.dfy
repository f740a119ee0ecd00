/**
 The flattened record behaves as one cell: whatever Sets, Deletes, Patches and expiries of one
 layout interleave, a Get reads what the same operations on a single value would leave.
 */
module RefHMapCell {
  import opened RefHMapStore
  import opened RefHMapCodec
  import opened RefHMapPatch
  import RefHMapScalar
  import RefHMapText
  import opened Wrappers

  // ---------------------------------------------------------------- a Set leaves nothing stale

  /** What the hashes say about one field of the stored value. */
  lemma {:induction false} StoredAt(values: seq<FieldValue>, fields: seq<Field>, hash: map<string, string>,
                                    hashes: Hashes, base: string, i: nat)
    requires FieldsShaped(values, fields) && FieldsStored(values, fields, hash, hashes, base) && i < |fields|
    ensures values[i].Nil? ==> fields[i].name !in hash
    ensures values[i].Nested? ==>
              && fields[i].StructField? && Shaped(values[i].value, fields[i].child)
              && fields[i].name in hash && hash[fields[i].name] == base + fields[i].child.suffix
              && Stored(values[i].value, fields[i].child, hashes, base)
    ensures fields[i].StructField? ==> !values[i].ScalarValue?
    decreases fields
  {
    if i > 0 {
      StoredAt(values[1..], fields[1..], hash, hashes, base, i - 1);
    }
  }

  /** A written hash of a child comes from the child's value. */
  lemma {:induction false} WrittenByChild(values: seq<FieldValue>, fields: seq<Field>, base: string, i: nat, key: Key)
    requires FieldsShaped(values, fields) && Distinct(CollectFieldKeys(fields, base))
    requires i < |fields| && fields[i].StructField? && key in CollectKeys(fields[i].child, base)
    requires key in WriteKeys(EncodeFields(values, fields, base))
    ensures |values| == |fields| && values[i].Nested? && Shaped(values[i].value, fields[i].child)
    ensures key in WriteKeys(Encode(values[i].value, fields[i].child, base))
    decreases fields
  {
    var first := if values[0].Nested? then Encode(values[0].value, fields[0].child, base) else [];
    WriteKeysConcat(first, EncodeFields(values[1..], fields[1..], base));
    NotOfAnother(values, fields, base, i, key);
    if i > 0 {
      WrittenByChild(values[1..], fields[1..], base, i - 1, key);
    }
  }

  /** A hash of the first child is not written by the others, nor one of theirs by the first. */
  lemma NotOfAnother(values: seq<FieldValue>, fields: seq<Field>, base: string, i: nat, key: Key)
    requires FieldsShaped(values, fields) && Distinct(CollectFieldKeys(fields, base))
    requires i < |fields| && fields[i].StructField? && key in CollectKeys(fields[i].child, base)
    ensures Distinct(CollectFieldKeys(fields[1..], base))
    ensures i == 0 ==> key !in WriteKeys(EncodeFields(values[1..], fields[1..], base))
    ensures i > 0 && values[0].Nested? ==> key !in WriteKeys(Encode(values[0].value, fields[0].child, base))
  {
    var here := if fields[0].StructField? then CollectKeys(fields[0].child, base) else [];
    DistinctConcat(here, CollectFieldKeys(fields[1..], base));
    if i == 0 {
      EncodeFieldsKeys(values[1..], fields[1..], base);
    } else {
      ChildKeysIn(fields[1..], base, i - 1);
      if values[0].Nested? {
        EncodeKeys(values[0].value, fields[0].child, base);
      }
    }
  }

  /** Only hashes of the value are there. */
  ghost predicate OnlyWritten(v: Value, node: Node, hashes: Hashes, base: string)
    requires Shaped(v, node)
  {
    forall key | key in CollectKeys(node, base) && HashAt(hashes, key) != map[] ::
      key in WriteKeys(Encode(v, node, base))
  }

  lemma {:induction false} StoredIsFresh(v: Value, node: Node, hashes: Hashes, base: string)
    requires Shaped(v, node) && WellNamed(node) && Distinct(CollectKeys(node, base))
    requires Stored(v, node, hashes, base) && OnlyWritten(v, node, hashes, base)
    ensures Fresh(node, hashes, base)
    decreases node
  {
    var hash := HashAt(hashes, base + node.suffix);
    DistinctConcat([base + node.suffix], CollectFieldKeys(node.fields, base));
    forall i | 0 <= i < |node.fields| ensures FreshField(node.fields[i], hash, hashes, base) {
      var f := node.fields[i];
      if f.StructField? {
        StoredAt(v.fields, node.fields, hash, hashes, base, i);
        WellNamedChild(node.fields, i);
        ChildKeysApart(node, base, i);
        PresentIsChilds(v, node, hashes, base, i);
        if v.fields[i].Nested? {
          StoredIsFresh(v.fields[i].value, f.child, hashes, base);
        } else {
          AbsentChild(v, node, hashes, base, i);
        }
      }
    }
  }

  lemma PresentIsChilds(v: Value, node: Node, hashes: Hashes, base: string, i: nat)
    requires Shaped(v, node) && Distinct(CollectKeys(node, base)) && OnlyWritten(v, node, hashes, base)
    requires i < |node.fields| && node.fields[i].StructField?
    ensures |v.fields| == |node.fields|
    ensures forall key | key in CollectKeys(node.fields[i].child, base) && HashAt(hashes, key) != map[] ::
              && v.fields[i].Nested? && Shaped(v.fields[i].value, node.fields[i].child)
              && key in WriteKeys(Encode(v.fields[i].value, node.fields[i].child, base))
  {
    var below := EncodeFields(v.fields, node.fields, base);
    var own := Write(base + node.suffix, Pairs(v.fields, node.fields, base));
    ShapedAt(v.fields, node.fields);
    WriteKeysConcat(below, [own]);
    assert WriteKeys([own]) == [own.key];
    DistinctConcat([base + node.suffix], CollectFieldKeys(node.fields, base));
    ChildKeysApart(node, base, i);
    forall key | key in CollectKeys(node.fields[i].child, base) && HashAt(hashes, key) != map[]
      ensures && v.fields[i].Nested? && Shaped(v.fields[i].value, node.fields[i].child)
              && key in WriteKeys(Encode(v.fields[i].value, node.fields[i].child, base))
    {
      WrittenByChild(v.fields, node.fields, base, i, key);
    }
  }

  lemma AbsentChild(v: Value, node: Node, hashes: Hashes, base: string, i: nat)
    requires Shaped(v, node) && Distinct(CollectKeys(node, base)) && OnlyWritten(v, node, hashes, base)
    requires i < |node.fields| && node.fields[i].StructField? && i < |v.fields| && !v.fields[i].Nested?
    ensures Absent(node.fields[i].child, hashes, base)
  {
    PresentIsChilds(v, node, hashes, base, i);
    var keys := CollectKeys(node.fields[i].child, base);
    forall k | 0 <= k < |keys| ensures HashAt(hashes, keys[k]) == map[] {
      assert keys[k] in keys;
    }
  }

  /** After a Set the record holds the value and nothing stale. */
  lemma SetIsFresh(root: Node, v: Value, base: string, now: int, ttl: nat)
    requires Accepted(root) && Shaped(v, root)
    ensures var layout := CollectKeys(root, base);
            var store := Refresh(WriteAll(map[], WithRegistry(layout, Encode(v, root, base))), layout, now, ttl);
            Fresh(root, FieldsOf(store), base)
  {
    var layout := CollectKeys(root, base);
    var below := EncodeFields(v.fields, root.fields, base);
    var own := Write(layout[0], Pairs(v.fields, root.fields, base));
    var listed := Write(layout[0], own.values[REGISTRY := RefHMapText.Join(layout)]);
    SetWrites(root, v, base, listed);
    RefreshKeepsFields(WriteAll(map[], below + [listed]), layout, now, ttl);
    WrittenIsFresh(root, v, base, below, own, listed);
  }

  lemma WrittenIsFresh(root: Node, v: Value, base: string, below: seq<Write>, own: Write, listed: Write)
    requires Accepted(root) && Shaped(v, root) && below == EncodeFields(v.fields, root.fields, base)
    requires own == Write(base + root.suffix, Pairs(v.fields, root.fields, base))
    requires listed == Write(own.key, own.values[REGISTRY := RefHMapText.Join(CollectKeys(root, base))])
    requires Distinct(WriteKeys(below + [listed]))
    ensures Fresh(root, FieldsOf(WriteAll(map[], below + [listed])), base)
  {
    var hashes := FieldsOf(WriteAll(map[], below + [listed]));
    WriteAllHolds(below + [listed]);
    HoldsParts(hashes, below, [listed]);
    assert HashAt(hashes, [listed][0].key) == listed.values;
    assert AgreeOn(Names(root.fields), listed.values, own.values);
    HeldIsStored(v, root, hashes, base);
    WriteKeysConcat(below, [own]);
    WriteKeysConcat(below, [listed]);
    assert WriteKeys([own]) == [own.key] == WriteKeys([listed]);
    CollectKeysDistinct(root, base);
    StoredIsFresh(v, root, hashes, base);
  }

  // ---------------------------------------------------------------- the cell

  /** The record as a client sees it. */
  datatype Cell = Empty | Full(value: Value, expiry: Option<int>)

  datatype CellOp = Put(value: Value) | Drop

  datatype CellAction =
    | Pass(delta: nat)
    | BeginOp(op: CellOp)
    | RunOp(index: nat)
    | PatchLeaf(parts: seq<string>, scalar: RefHMapScalar.Scalar)

  datatype CellState = CellState(now: int, cell: Cell, pending: seq<CellOp>)

  function CellStep(root: Node, ttl: nat, c: CellState, a: CellAction): CellState {
    match a
    case Pass(delta) =>
      var over := c.cell.Full? && c.cell.expiry.Some? && c.now + delta >= c.cell.expiry.value;
      CellState(c.now + delta, if over then Empty else c.cell, c.pending)
    case BeginOp(op) => c.(pending := c.pending + [op])
    case RunOp(index) =>
      if index >= |c.pending| then c
      else
        c.(cell := match c.pending[index]
                   case Put(value) => Full(value, Expiry(c.now, ttl, None))
                   case Drop => Empty)
    case PatchLeaf(parts, scalar) =>
      if c.cell.Full? && Shaped(c.cell.value, root) && Patchable(root, parts, scalar)
      then c.(cell := Full(SetLeaf(c.cell.value, root, parts, scalar), Expiry(c.now, ttl, c.cell.expiry))) else c
  }

  function CellRun(root: Node, ttl: nat, actions: seq<CellAction>): CellState {
    if actions == [] then CellState(0, Empty, [])
    else CellStep(root, ttl, CellRun(root, ttl, actions[..|actions| - 1]), actions[|actions| - 1])
  }

  // ---------------------------------------------------------------- its implementation

  /** Values are of the type, and patches lead to a leaf that can hold the new value; others never reach the store. */
  predicate Typed(root: Node, a: CellAction) {
    match a
    case BeginOp(Put(value)) => Shaped(value, root)
    case PatchLeaf(parts, scalar) => Patchable(root, parts, scalar)
    case _ => true
  }

  function StoreOp(root: Node, base: string, ttl: nat, op: CellOp): Op
    requires op.Put? ==> Shaped(op.value, root)
  {
    match op
    case Put(value) => SetOp(CollectKeys(root, base), Encode(value, root, base), ttl)
    case Drop => DeleteOp(CollectKeys(root, base))
  }

  function StoreAction(root: Node, base: string, ttl: nat, a: CellAction): Action
    requires Typed(root, a)
  {
    match a
    case Pass(delta) => Tick(delta)
    case BeginOp(op) => Begin(StoreOp(root, base, ttl, op))
    case RunOp(index) => Script(index)
    case PatchLeaf(parts, scalar) =>
      TargetAnyBase(root, base, parts);
      Patch(PatchOf(root, base, parts, scalar, ttl))
  }

  function StoreActions(root: Node, base: string, ttl: nat, actions: seq<CellAction>): (r: seq<Action>)
    requires forall i | 0 <= i < |actions| :: Typed(root, actions[i])
    ensures |r| == |actions|
  {
    if actions == [] then []
    else
      StoreActions(root, base, ttl, actions[..|actions| - 1]) + [StoreAction(root, base, ttl, actions[|actions| - 1])]
  }

  ghost predicate Holding(store: Store, cell: Cell, root: Node, base: string, ttl: nat) {
    match cell
    case Empty => store == map[]
    case Full(value, expiry) =>
      && Get(root, FieldsOf(store), base) == Found(value) && Fresh(root, FieldsOf(store), base)
      && (forall key | key in store :: key in CollectKeys(root, base) && store[key].expiry == expiry)
      && (ttl == 0 ==> expiry.None?)
  }

  ghost predicate Refines(s: System, c: CellState, root: Node, base: string, ttl: nat) {
    s.now == c.now && Holding(s.store, c.cell, root, base, ttl) && SameOps(s.pending, c.pending, root, base, ttl)
  }

  ghost predicate SameOps(pending: seq<Pending>, ops: seq<CellOp>, root: Node, base: string, ttl: nat) {
    && |pending| == |ops|
    && forall i | 0 <= i < |ops| ::
         (ops[i].Put? ==> Shaped(ops[i].value, root)) && pending[i].op == StoreOp(root, base, ttl, ops[i])
  }

  // ---------------------------------------------------------------- every step refines

  lemma PassRefines(store: Store, cell: Cell, root: Node, base: string, ttl: nat, now: int)
    requires Holding(store, cell, root, base, ttl)
    ensures var over := cell.Full? && cell.expiry.Some? && now >= cell.expiry.value;
            Holding(Expire(store, now), if over then Empty else cell, root, base, ttl)
  {
    if cell.Full? && cell.expiry.Some? && now >= cell.expiry.value {
      assert Expire(store, now) == map[];
    } else {
      assert Expire(store, now) == store;
    }
  }

  lemma SetRefines(root: Node, base: string, ttl: nat, now: int, v: Value)
    requires Accepted(root) && Shaped(v, root) && RefHMapText.AllClean(CollectKeys(root, base))
    ensures var layout := CollectKeys(root, base);
            var store := Refresh(WriteAll(map[], WithRegistry(layout, Encode(v, root, base))), layout, now, ttl);
            Holding(store, Full(v, Expiry(now, ttl, None)), root, base, ttl)
  {
    var layout := CollectKeys(root, base);
    SetThenGet(root, v, base, now, ttl);
    SetIsFresh(root, v, base, now, ttl);
    EncodeIsValidWrite(root, v, base);
    assert layout[0] in layout;
    SetRecord(layout, Encode(v, root, base));
  }

  lemma PatchRefines(store: Store, v: Value, expiry: Option<int>, root: Node, base: string, ttl: nat, now: int,
                     parts: seq<string>, scalar: RefHMapScalar.Scalar)
    requires Accepted(root) && RefHMapText.AllClean(CollectKeys(root, base)) && Patchable(root, parts, scalar)
    requires Holding(store, Full(v, expiry), root, base, ttl)
    ensures Shaped(v, root) && PatchTarget(root, base, parts).Some?
    ensures ValidPatch(PatchOf(root, base, parts, scalar, ttl))
    ensures Holding(RunPatch(now, store, PatchOf(root, base, parts, scalar, ttl)).0,
                    Full(SetLeaf(v, root, parts, scalar), Expiry(now, ttl, expiry)), root, base, ttl)
  {
    PatchThenGet(now, store, root, base, parts, scalar, ttl, v);
    var p := PatchOf(root, base, parts, scalar, ttl);
    PatchResult(now, store, p);
  }

  lemma NoPatchRefines(root: Node, base: string, ttl: nat, now: int, parts: seq<string>, scalar: RefHMapScalar.Scalar)
    requires Patchable(root, parts, scalar)
    ensures PatchTarget(root, base, parts).Some? && ValidPatch(PatchOf(root, base, parts, scalar, ttl))
    ensures RunPatch(now, map[], PatchOf(root, base, parts, scalar, ttl)) == (map[], false)
  {
    TargetAnyBase(root, base, parts);
    PatchOfIsValid(root, base, parts, scalar, ttl);
  }

  lemma ActionAgrees(root: Node, base: string, ttl: nat, a: CellAction)
    requires Accepted(root) && Typed(root, a) && RefHMapText.AllClean(CollectKeys(root, base))
    ensures var action, layout := StoreAction(root, base, ttl, a), CollectKeys(root, base);
            Agreed(action, base + root.suffix, ttl) && SameLayout(action, layout)
  {
    var layout := CollectKeys(root, base);
    assert layout[0] in layout;
    match a
    case BeginOp(op) =>
      if op.Put? {
        EncodeIsValidWrite(root, op.value, base);
      }
    case PatchLeaf(parts, scalar) =>
      TargetAnyBase(root, base, parts);
      PatchOfIsValid(root, base, parts, scalar, ttl);
    case _ =>
  }

  lemma {:induction false} ActionsAgree(root: Node, base: string, ttl: nat, actions: seq<CellAction>)
    requires Accepted(root) && RefHMapText.AllClean(CollectKeys(root, base))
    requires forall i | 0 <= i < |actions| :: Typed(root, actions[i])
    ensures var all := StoreActions(root, base, ttl, actions);
            && (forall i | 0 <= i < |all| :: Agreed(all[i], base + root.suffix, ttl))
            && AllSameLayout(all, CollectKeys(root, base))
  {
    if actions != [] {
      ActionsAgree(root, base, ttl, actions[..|actions| - 1]);
      ActionAgrees(root, base, ttl, actions[|actions| - 1]);
    }
  }

  lemma ScriptRefines(all: seq<Action>, c: CellState, root: Node, base: string, ttl: nat, index: nat)
    requires Accepted(root) && RefHMapText.AllClean(CollectKeys(root, base))
    requires forall i | 0 <= i < |all| :: Agreed(all[i], base + root.suffix, ttl)
    requires AllSameLayout(all, CollectKeys(root, base))
    requires Refines(Run(all), c, root, base, ttl) && index < |c.pending|
    ensures Run(all).pending[index].op.layout != []
    ensures Holding(RunScript(Run(all).now, Run(all).store, Run(all).pending[index]).0,
                    CellStep(root, ttl, c, RunOp(index)).cell, root, base, ttl)
  {
    var s, layout := Run(all), CollectKeys(root, base);
    assert layout[0] in layout;
    RunKeepsOneLayout(all, layout);
    CleanIsRead(layout);
    PassesGuard(s, layout, index);
    ScriptReplacesWholeRecord(all, layout[0], ttl, index);
    if c.pending[index].Put? {
      SetRefines(root, base, ttl, s.now, c.pending[index].value);
    }
  }

  /** Only the store and the cell change, and they stay together. */
  lemma CellChanges(s: System, c: CellState, root: Node, base: string, ttl: nat, now: int, store: Store, cell: Cell)
    requires Refines(s, c, root, base, ttl) && Holding(store, cell, root, base, ttl)
    ensures Refines(System(now, store, s.pending), CellState(now, cell, c.pending), root, base, ttl)
  {
  }

  lemma PassStepRefines(s: System, c: CellState, root: Node, base: string, ttl: nat, delta: nat)
    requires Refines(s, c, root, base, ttl)
    ensures Refines(Step(s, Tick(delta)), CellStep(root, ttl, c, Pass(delta)), root, base, ttl)
  {
    PassRefines(s.store, c.cell, root, base, ttl, s.now + delta);
    var cell := CellStep(root, ttl, c, Pass(delta)).cell;
    PassIs(s, root, ttl, c, delta);
    CellChanges(s, c, root, base, ttl, s.now + delta, Expire(s.store, s.now + delta), cell);
  }

  lemma PassIs(s: System, root: Node, ttl: nat, c: CellState, delta: nat)
    ensures Step(s, Tick(delta)) == System(s.now + delta, Expire(s.store, s.now + delta), s.pending)
    ensures CellStep(root, ttl, c, Pass(delta))
         == CellState(c.now + delta, CellStep(root, ttl, c, Pass(delta)).cell, c.pending)
  {
  }

  lemma OpsGrow(pending: seq<Pending>, ops: seq<CellOp>, root: Node, base: string, ttl: nat, p: Pending, op: CellOp)
    requires SameOps(pending, ops, root, base, ttl) && (op.Put? ==> Shaped(op.value, root))
    requires p.op == StoreOp(root, base, ttl, op)
    ensures SameOps(pending + [p], ops + [op], root, base, ttl)
  {
  }

  lemma BeginIs(s: System, op: Op)
    requires ValidAction(Begin(op))
    ensures Step(s, Begin(op)) == System(s.now, s.store, s.pending + [Prepare(s.store, op)])
    ensures Prepare(s.store, op).op == op
  {
  }

  lemma BeginStepRefines(s: System, c: CellState, root: Node, base: string, ttl: nat, op: CellOp)
    requires Refines(s, c, root, base, ttl) && (op.Put? ==> Shaped(op.value, root))
    requires ValidAction(Begin(StoreOp(root, base, ttl, op)))
    ensures Refines(Step(s, Begin(StoreOp(root, base, ttl, op))), CellStep(root, ttl, c, BeginOp(op)), root, base,
                    ttl)
  {
    var storeOp := StoreOp(root, base, ttl, op);
    BeginIs(s, storeOp);
    OpsGrow(s.pending, c.pending, root, base, ttl, Prepare(s.store, storeOp), op);
  }

  lemma PatchStepIs(s: System, p: PatchOp)
    requires ValidPatch(p)
    ensures Step(s, Patch(p)) == System(s.now, RunPatch(s.now, s.store, p).0, s.pending)
  {
  }

  lemma CellPatchIs(root: Node, ttl: nat, c: CellState, a: CellAction)
    requires a.PatchLeaf?
    ensures CellStep(root, ttl, c, a) == CellState(c.now, CellStep(root, ttl, c, a).cell, c.pending)
  {
  }

  lemma PatchStepRefines(s: System, c: CellState, root: Node, base: string, ttl: nat, parts: seq<string>,
                         scalar: RefHMapScalar.Scalar, p: PatchOp)
    requires Refines(s, c, root, base, ttl) && ValidPatch(p)
    requires Holding(RunPatch(s.now, s.store, p).0, CellStep(root, ttl, c, PatchLeaf(parts, scalar)).cell, root, base,
                     ttl)
    ensures Refines(Step(s, Patch(p)), CellStep(root, ttl, c, PatchLeaf(parts, scalar)), root, base, ttl)
  {
    PatchStepIs(s, p);
    CellPatchIs(root, ttl, c, PatchLeaf(parts, scalar));
    CellChanges(s, c, root, base, ttl, s.now, RunPatch(s.now, s.store, p).0,
                CellStep(root, ttl, c, PatchLeaf(parts, scalar)).cell);
  }

  lemma PatchHolds(s: System, c: CellState, root: Node, base: string, ttl: nat, parts: seq<string>,
                   scalar: RefHMapScalar.Scalar)
    requires Accepted(root) && RefHMapText.AllClean(CollectKeys(root, base)) && Patchable(root, parts, scalar)
    requires s.now == c.now && Holding(s.store, c.cell, root, base, ttl)
    requires PatchTarget(root, base, parts).Some? && ValidPatch(PatchOf(root, base, parts, scalar, ttl))
    ensures Holding(RunPatch(s.now, s.store, PatchOf(root, base, parts, scalar, ttl)).0,
                    CellStep(root, ttl, c, PatchLeaf(parts, scalar)).cell, root, base, ttl)
  {
    if c.cell.Full? {
      PatchRefines(s.store, c.cell.value, c.cell.expiry, root, base, ttl, s.now, parts, scalar);
    } else {
      NoPatchRefines(root, base, ttl, s.now, parts, scalar);
    }
  }

  lemma RunStepRefines(s: System, c: CellState, root: Node, base: string, ttl: nat, index: nat)
    requires Refines(s, c, root, base, ttl)
    requires index < |c.pending| ==>
               && s.pending[index].op.layout != []
               && Holding(RunScript(s.now, s.store, s.pending[index]).0, CellStep(root, ttl, c, RunOp(index)).cell,
                          root, base, ttl)
    ensures Refines(Step(s, Script(index)), CellStep(root, ttl, c, RunOp(index)), root, base, ttl)
  {
  }

  lemma StepRefines(all: seq<Action>, c: CellState, root: Node, base: string, ttl: nat, a: CellAction)
    requires Accepted(root) && RefHMapText.AllClean(CollectKeys(root, base)) && Typed(root, a)
    requires forall i | 0 <= i < |all| :: Agreed(all[i], base + root.suffix, ttl)
    requires AllSameLayout(all, CollectKeys(root, base))
    requires Refines(Run(all), c, root, base, ttl)
    ensures Refines(Step(Run(all), StoreAction(root, base, ttl, a)), CellStep(root, ttl, c, a), root, base, ttl)
  {
    match a
    case Pass(delta) => PassStepRefines(Run(all), c, root, base, ttl, delta);
    case BeginOp(op) =>
      ActionAgrees(root, base, ttl, a);
      BeginStepRefines(Run(all), c, root, base, ttl, op);
    case RunOp(index) =>
      if index < |c.pending| {
        ScriptRefines(all, c, root, base, ttl, index);
      }
      RunStepRefines(Run(all), c, root, base, ttl, index);
    case PatchLeaf(parts, scalar) =>
      TargetAnyBase(root, base, parts);
      PatchOfIsValid(root, base, parts, scalar, ttl);
      PatchHolds(Run(all), c, root, base, ttl, parts, scalar);
      PatchStepRefines(Run(all), c, root, base, ttl, parts, scalar, PatchOf(root, base, parts, scalar, ttl));
  }

  lemma {:induction false} RunRefines(root: Node, base: string, ttl: nat, actions: seq<CellAction>)
    requires Accepted(root) && RefHMapText.AllClean(CollectKeys(root, base))
    requires forall i | 0 <= i < |actions| :: Typed(root, actions[i])
    ensures Refines(Run(StoreActions(root, base, ttl, actions)), CellRun(root, ttl, actions), root, base, ttl)
  {
    if actions != [] {
      var front, a := actions[..|actions| - 1], actions[|actions| - 1];
      var before := StoreActions(root, base, ttl, front);
      RunRefines(root, base, ttl, front);
      ActionsAgree(root, base, ttl, front);
      StepRefines(before, CellRun(root, ttl, front), root, base, ttl, a);
      RunAppends(before, StoreAction(root, base, ttl, a));
    }
  }

  /**
   The record is one cell: over every interleaving of Sets, Deletes, Patches and expiries of one layout, a Get
   finds exactly the value a single cell would hold, and misses exactly when the cell is empty.
   */
  lemma RecordIsCell(root: Node, base: string, ttl: nat, actions: seq<CellAction>)
    requires Accepted(root) && RefHMapText.AllClean(CollectKeys(root, base))
    requires forall i | 0 <= i < |actions| :: Typed(root, actions[i])
    ensures var cell := CellRun(root, ttl, actions).cell;
            Get(root, FieldsOf(Run(StoreActions(root, base, ttl, actions)).store), base)
            == if cell.Full? then Found(cell.value) else Miss
  {
    RunRefines(root, base, ttl, actions);
  }
}
