/**
 A patch of one leaf (`Patch`, `patchTarget`): how a path of names finds the leaf, what the script
 writes, and what a Get reads afterwards.
 */
module RefHMapPatch {
  import opened RefHMapStore
  import opened RefHMapCodec
  import RefHMapScalar
  import opened Wrappers

  // ---------------------------------------------------------------- finding the leaf

  predicate Matches(f: Field, part: string) {
    f.name == part || f.goName == part
  }

  /** The first field with this name, in the hash or in Go. */
  function FindField(fields: seq<Field>, part: string): (r: Option<nat>)
    ensures r.Some? ==> r.value < |fields| && Matches(fields[r.value], part)
    ensures r.Some? ==> forall i | 0 <= i < r.value :: !Matches(fields[i], part)
    ensures r.None? ==> forall i | 0 <= i < |fields| :: !Matches(fields[i], part)
  {
    if fields == [] then None
    else if Matches(fields[0], part) then Some(0)
    else
      match FindField(fields[1..], part)
      case None => None
      case Some(i) =>
        assert forall j | 0 < j < i + 1 :: fields[j] == fields[1..][j - 1];
        Some(i + 1)
  }

  /** The hashes from the root to the leaf's, the reference fields between them, and the leaf. */
  datatype Target = Target(keys: seq<Key>, references: seq<string>, field: Field)

  /** Refused: an empty or unknown name, a path through a scalar, or one that ends at a struct. */
  function PatchTarget(node: Node, base: string, parts: seq<string>): (r: Option<Target>)
    ensures r.Some? ==> r.value.field.ScalarField? && |r.value.references| == |r.value.keys| - 1
                        && r.value.keys[0] == base + node.suffix
    decreases node
  {
    if parts == [] || parts[0] == "" || FindField(node.fields, parts[0]).None? then None
    else
      var f := node.fields[FindField(node.fields, parts[0]).value];
      if |parts| == 1 then
        if f.ScalarField? then Some(Target([base + node.suffix], [], f)) else None
      else if f.ScalarField? then None
      else Below(base + node.suffix, f.name, PatchTarget(f.child, base, parts[1..]))
  }

  function Below(key: Key, reference: string, t: Option<Target>): Option<Target> {
    match t
    case None => None
    case Some(t) => Some(Target([key] + t.keys, [reference] + t.references, t.field))
  }

  /** The loop that walks the path from the root. */
  method ResolvePath(root: Node, base: string, parts: seq<string>) returns (r: Option<Target>)
    ensures r == PatchTarget(root, base, parts)
  {
    var node, keys, references := root, [base + root.suffix], [];
    JoinedFirst(base + root.suffix, PatchTarget(root, base, parts));
    assert parts[0..] == parts;
    for i := 0 to |parts|
      invariant |references| == |keys| - 1 && keys[|keys| - 1] == base + node.suffix
      invariant PatchTarget(root, base, parts) == Joined(keys, references, PatchTarget(node, base, parts[i..]))
    {
      var part, rest := parts[i], parts[i..];
      assert rest[0] == part && rest[1..] == parts[i + 1..];
      var found := FindField(node.fields, part);
      if part == "" || found.None? {
        return None;
      }
      var field := node.fields[found.value];
      if i == |parts| - 1 {
        if field.StructField? {
          return None;
        }
        PathEnds(keys, references, node, base, rest);
        return Some(Target(keys, references, field));
      }
      if field.ScalarField? {
        return None;
      }
      PathGoesOn(keys, references, node, base, rest);
      references := references + [field.name];
      node := field.child;
      keys := keys + [base + node.suffix];
    }
    return None;
  }

  /** A target found from the last of `keys`, seen from the first. */
  function Joined(keys: seq<Key>, references: seq<string>, t: Option<Target>): Option<Target>
    requires keys != []
  {
    match t
    case None => None
    case Some(t) => Some(Target(keys[..|keys| - 1] + t.keys, references + t.references, t.field))
  }

  lemma JoinedFirst(key: Key, t: Option<Target>)
    ensures Joined([key], [], t) == t
  {
    if t.Some? {
      assert [key][..0] + t.value.keys == t.value.keys && [] + t.value.references == t.value.references;
    }
  }

  lemma PathEnds(keys: seq<Key>, references: seq<string>, node: Node, base: string, rest: seq<string>)
    requires keys != [] && keys[|keys| - 1] == base + node.suffix && |rest| == 1 && rest[0] != ""
    requires FindField(node.fields, rest[0]).Some? && node.fields[FindField(node.fields, rest[0]).value].ScalarField?
    ensures Joined(keys, references, PatchTarget(node, base, rest))
         == Some(Target(keys, references, node.fields[FindField(node.fields, rest[0]).value]))
  {
    assert keys[..|keys| - 1] + [base + node.suffix] == keys && references + [] == references;
  }

  lemma PathGoesOn(keys: seq<Key>, references: seq<string>, node: Node, base: string, rest: seq<string>)
    requires keys != [] && keys[|keys| - 1] == base + node.suffix && |rest| > 1 && rest[0] != ""
    requires FindField(node.fields, rest[0]).Some? && node.fields[FindField(node.fields, rest[0]).value].StructField?
    ensures var f := node.fields[FindField(node.fields, rest[0]).value];
            Joined(keys, references, PatchTarget(node, base, rest))
            == Joined(keys + [base + f.child.suffix], references + [f.name], PatchTarget(f.child, base, rest[1..]))
  {
    var f := node.fields[FindField(node.fields, rest[0]).value];
    JoinedBelow(keys, references, f.name, base + f.child.suffix, PatchTarget(f.child, base, rest[1..]));
  }

  lemma JoinedBelow(keys: seq<Key>, references: seq<string>, reference: string, key: Key, t: Option<Target>)
    requires keys != []
    ensures Joined(keys, references, Below(keys[|keys| - 1], reference, t))
         == Joined(keys + [key], references + [reference], t)
  {
    if t.Some? {
      var last := keys[|keys| - 1];
      assert keys[..|keys| - 1] + ([last] + t.value.keys) == (keys + [key])[..|keys|] + t.value.keys;
      assert references + ([reference] + t.value.references) == (references + [reference]) + t.value.references;
    }
  }

  // ---------------------------------------------------------------- the patched value

  predicate FieldShaped(v: FieldValue, f: Field) {
    match v
    case Nil => f.ptr
    case ScalarValue(s) => f.ScalarField? && RefHMapScalar.Fits(f.kind, s)
    case Nested(w) => f.StructField? && Shaped(w, f.child)
  }

  lemma {:induction false} ShapedAt(values: seq<FieldValue>, fields: seq<Field>)
    ensures FieldsShaped(values, fields)
       <==> |values| == |fields| && forall i | 0 <= i < |fields| :: FieldShaped(values[i], fields[i])
  {
    if fields != [] && |values| == |fields| {
      ShapedAt(values[1..], fields[1..]);
      assert values == [values[0]] + values[1..] && fields == [fields[0]] + fields[1..];
      if forall i | 0 <= i < |fields| :: FieldShaped(values[i], fields[i]) {
        forall i | 0 <= i < |fields[1..]| ensures FieldShaped(values[1..][i], fields[1..][i]) {
          assert values[1..][i] == values[i + 1] && fields[1..][i] == fields[i + 1];
        }
      }
    }
  }

  lemma {:induction false} ZeroShaped(node: Node)
    ensures Shaped(ZeroValue(node), node)
    decreases node
  {
    ZeroFieldsShaped(node.fields);
  }

  lemma {:induction false} ZeroFieldsShaped(fields: seq<Field>)
    ensures FieldsShaped(ZeroFields(fields), fields)
    ensures |ZeroFields(fields)| == |fields|
    ensures forall i | 0 <= i < |fields| :: ZeroFields(fields)[i] == ZeroField(fields[i])
    decreases fields
  {
    if fields != [] {
      ZeroFieldsShaped(fields[1..]);
      if fields[0].StructField? {
        ZeroShaped(fields[0].child);
      } else {
        RefHMapScalar.DecodeFits(fields[0].kind, "");
      }
      assert ZeroFields(fields)[1..] == ZeroFields(fields[1..]);
    }
  }

  /** The path leads to a scalar leaf that can hold the value. */
  predicate Patchable(node: Node, parts: seq<string>, s: RefHMapScalar.Scalar) {
    PatchTarget(node, "", parts).Some? && RefHMapScalar.Fits(PatchTarget(node, "", parts).value.field.kind, s)
  }

  lemma {:induction false} TargetAnyBase(node: Node, base: string, parts: seq<string>)
    ensures PatchTarget(node, base, parts).Some? <==> PatchTarget(node, "", parts).Some?
    ensures PatchTarget(node, base, parts).Some? ==>
              PatchTarget(node, base, parts).value.field == PatchTarget(node, "", parts).value.field
    decreases node
  {
    if |parts| > 1 && parts[0] != "" && FindField(node.fields, parts[0]).Some? {
      var f := node.fields[FindField(node.fields, parts[0]).value];
      if f.StructField? {
        TargetAnyBase(f.child, base, parts[1..]);
      }
    }
  }

  function StructAt(v: FieldValue, child: Node): Value {
    if v.Nested? then v.value else ZeroValue(child)
  }

  /** The value with the leaf replaced; nil structs on the way are created with every other field zero. */
  function SetLeaf(v: Value, node: Node, parts: seq<string>, s: RefHMapScalar.Scalar): (r: Value)
    requires Shaped(v, node) && Patchable(node, parts, s)
    ensures Shaped(r, node)
    decreases node
  {
    ShapedAt(v.fields, node.fields);
    var i := FindField(node.fields, parts[0]).value;
    var f := node.fields[i];
    if |parts| == 1 then
      var fields := v.fields[i := ScalarValue(s)];
      ShapedAt(fields, node.fields);
      Struct(fields)
    else
      ZeroShaped(f.child);
      var fields := v.fields[i := Nested(SetLeaf(StructAt(v.fields[i], f.child), f.child, parts[1..], s))];
      ShapedAt(fields, node.fields);
      Struct(fields)
  }

  /** Which fields the path goes through. */
  function Indices(node: Node, parts: seq<string>): seq<nat>
    requires PatchTarget(node, "", parts).Some?
    decreases node
  {
    var i := FindField(node.fields, parts[0]).value;
    if |parts| == 1 then [i] else [i] + Indices(node.fields[i].child, parts[1..])
  }

  /** What the leaf holds; a leaf of a nil struct reads as zero. */
  function LeafAt(v: Value, node: Node, parts: seq<string>): FieldValue
    requires Shaped(v, node) && PatchTarget(node, "", parts).Some?
    decreases node
  {
    ShapedAt(v.fields, node.fields);
    var i := FindField(node.fields, parts[0]).value;
    if |parts| == 1 then v.fields[i]
    else
      ZeroShaped(node.fields[i].child);
      LeafAt(StructAt(v.fields[i], node.fields[i].child), node.fields[i].child, parts[1..])
  }

  /** The patched leaf reads as the new value, and every other leaf as before. */
  lemma {:induction false} SetLeafReads(v: Value, node: Node, parts: seq<string>, s: RefHMapScalar.Scalar,
                                        other: seq<string>)
    requires Shaped(v, node) && Patchable(node, parts, s) && PatchTarget(node, "", other).Some?
    ensures LeafAt(SetLeaf(v, node, parts, s), node, other)
         == if Indices(node, other) == Indices(node, parts) then ScalarValue(s) else LeafAt(v, node, other)
    decreases node
  {
    ShapedAt(v.fields, node.fields);
    var i, j := FindField(node.fields, parts[0]).value, FindField(node.fields, other[0]).value;
    var f := node.fields[i];
    if i == j && |parts| > 1 {
      ZeroShaped(f.child);
      SetLeafReads(StructAt(v.fields[i], f.child), f.child, parts[1..], s, other[1..]);
      var inner, inner' := Indices(f.child, parts[1..]), Indices(f.child, other[1..]);
      assert [i] + inner == [i] + inner' <==> inner == inner' by {
        assert ([i] + inner)[1..] == inner && ([i] + inner')[1..] == inner';
      }
    } else if i != j {
      assert Indices(node, parts)[0] == i && Indices(node, other)[0] == j;
    }
  }

  // ---------------------------------------------------------------- what a Get depends on

  lemma {:induction false} DecodeFieldsAt(fields: seq<Field>, hash: map<string, string>, hashes: Hashes, base: string,
                                          values: seq<FieldValue>)
    ensures DecodeFields(fields, hash, hashes, base) == Ok(values)
       <==> |values| == |fields|
            && forall i | 0 <= i < |fields| :: DecodeField(fields[i], hash, hashes, base) == Ok(values[i])
    decreases fields
  {
    if fields != [] && values != [] {
      DecodeFieldsAt(fields[1..], hash, hashes, base, values[1..]);
      assert values == [values[0]] + values[1..] && fields == [fields[0]] + fields[1..];
      if |values| == |fields|
         && forall i | 0 <= i < |fields| :: DecodeField(fields[i], hash, hashes, base) == Ok(values[i]) {
        forall i | 0 <= i < |fields[1..]|
          ensures DecodeField(fields[1..][i], hash, hashes, base) == Ok(values[1..][i])
        {
          assert values[1..][i] == values[i + 1] && fields[1..][i] == fields[i + 1];
        }
      }
    }
  }

  /** A Get returns a value of the type. */
  lemma {:induction false} DecodeShaped(node: Node, hashes: Hashes, base: string)
    requires Decode(node, hashes, base).Ok?
    ensures Shaped(Decode(node, hashes, base).value, node)
    decreases node
  {
    var hash, v := HashAt(hashes, base + node.suffix), Decode(node, hashes, base).value;
    DecodeFieldsAt(node.fields, hash, hashes, base, v.fields);
    ShapedAt(v.fields, node.fields);
    ZeroFieldsShaped(node.fields);
    ShapedAt(ZeroFields(node.fields), node.fields);
    forall i | 0 <= i < |node.fields| ensures FieldShaped(v.fields[i], node.fields[i]) {
      var f := node.fields[i];
      assert DecodeField(f, hash, hashes, base) == Ok(v.fields[i]);
      if f.ScalarField? && f.name in hash {
        RefHMapScalar.DecodeFits(f.kind, hash[f.name]);
      } else if Referenced(f, hash) {
        DecodeShaped(f.child, hashes, base);
      } else {
        assert ZeroFields(node.fields)[i] == ZeroField(f);
      }
    }
  }

  ghost predicate SameOn(keys: seq<Key>, h: Hashes, h': Hashes) {
    forall i | 0 <= i < |keys| :: HashAt(h, keys[i]) == HashAt(h', keys[i])
  }

  lemma SameOnParts(left: seq<Key>, right: seq<Key>, h: Hashes, h': Hashes)
    requires SameOn(left + right, h, h')
    ensures SameOn(left, h, h') && SameOn(right, h, h')
  {
    assert forall i | 0 <= i < |left| :: (left + right)[i] == left[i];
    assert forall i | 0 <= i < |right| :: (left + right)[|left| + i] == right[i];
  }

  /** Decoding reads the hashes of the layout only. */
  lemma {:induction false} DecodeFrame(node: Node, h: Hashes, h': Hashes, base: string)
    requires SameOn(CollectKeys(node, base), h, h')
    ensures Decode(node, h', base) == Decode(node, h, base)
    decreases node
  {
    SameOnParts([base + node.suffix], CollectFieldKeys(node.fields, base), h, h');
    assert HashAt(h, [base + node.suffix][0]) == HashAt(h', [base + node.suffix][0]);
    DecodeFieldsFrame(node.fields, HashAt(h, base + node.suffix), h, h', base);
  }

  lemma {:induction false} DecodeFieldsFrame(fields: seq<Field>, hash: map<string, string>, h: Hashes, h': Hashes,
                                             base: string)
    requires SameOn(CollectFieldKeys(fields, base), h, h')
    ensures DecodeFields(fields, hash, h', base) == DecodeFields(fields, hash, h, base)
    decreases fields
  {
    if fields != [] {
      var here := if fields[0].StructField? then CollectKeys(fields[0].child, base) else [];
      SameOnParts(here, CollectFieldKeys(fields[1..], base), h, h');
      DecodeFieldsFrame(fields[1..], hash, h, h', base);
      if fields[0].StructField? {
        DecodeFrame(fields[0].child, h, h', base);
        OwnKeySame(fields[0].child, h, h', base);
      }
    }
  }

  lemma OwnKeySame(node: Node, h: Hashes, h': Hashes, base: string)
    requires SameOn(CollectKeys(node, base), h, h')
    ensures HashAt(h, base + node.suffix) == HashAt(h', base + node.suffix)
  {
    assert CollectKeys(node, base)[0] == base + node.suffix;
  }

  // ---------------------------------------------------------------- records without stale hashes

  ghost predicate Absent(node: Node, hashes: Hashes, base: string) {
    forall i | 0 <= i < |CollectKeys(node, base)| :: HashAt(hashes, CollectKeys(node, base)[i]) == map[]
  }

  /** Below a reference that is not there, no hash is left. */
  ghost predicate Fresh(node: Node, hashes: Hashes, base: string)
    decreases node
  {
    forall i | 0 <= i < |node.fields| :: FreshField(node.fields[i], HashAt(hashes, base + node.suffix), hashes, base)
  }

  ghost predicate FreshField(f: Field, hash: map<string, string>, hashes: Hashes, base: string)
    decreases f
  {
    f.StructField? ==> if Referenced(f, hash) then Fresh(f.child, hashes, base) else Absent(f.child, hashes, base)
  }

  lemma {:induction false} ChildKeysIn(fields: seq<Field>, base: string, i: nat)
    requires i < |fields| && fields[i].StructField?
    ensures forall key | key in CollectKeys(fields[i].child, base) :: key in CollectFieldKeys(fields, base)
  {
    if i > 0 {
      ChildKeysIn(fields[1..], base, i - 1);
    }
  }

  lemma {:induction false} ChildKeysDistinct(fields: seq<Field>, base: string, i: nat)
    requires i < |fields| && fields[i].StructField? && Distinct(CollectFieldKeys(fields, base))
    ensures Distinct(CollectKeys(fields[i].child, base))
  {
    var here := if fields[0].StructField? then CollectKeys(fields[0].child, base) else [];
    DistinctConcat(here, CollectFieldKeys(fields[1..], base));
    if i > 0 {
      ChildKeysDistinct(fields[1..], base, i - 1);
    }
  }

  lemma {:induction false} ChildKeysDisjoint(fields: seq<Field>, base: string, i: nat, j: nat)
    requires i < j < |fields| && fields[i].StructField? && fields[j].StructField?
    requires Distinct(CollectFieldKeys(fields, base))
    ensures forall key | key in CollectKeys(fields[i].child, base) :: key !in CollectKeys(fields[j].child, base)
  {
    var here := if fields[0].StructField? then CollectKeys(fields[0].child, base) else [];
    DistinctConcat(here, CollectFieldKeys(fields[1..], base));
    if i > 0 {
      ChildKeysDisjoint(fields[1..], base, i - 1, j - 1);
    } else {
      ChildKeysIn(fields[1..], base, j - 1);
    }
  }

  /** The keys of a child are its own: neither the node's nor another child's. */
  lemma ChildKeysApart(node: Node, base: string, i: nat)
    requires i < |node.fields| && node.fields[i].StructField? && Distinct(CollectKeys(node, base))
    ensures var keys := CollectKeys(node.fields[i].child, base);
            && Distinct(keys) && base + node.suffix !in keys
            && (forall key | key in keys :: key in CollectKeys(node, base))
            && forall j, key | 0 <= j < |node.fields| && j != i && node.fields[j].StructField? && key in keys ::
                 key !in CollectKeys(node.fields[j].child, base)
  {
    DistinctConcat([base + node.suffix], CollectFieldKeys(node.fields, base));
    ChildKeysDistinct(node.fields, base, i);
    ChildKeysIn(node.fields, base, i);
    forall j, key | 0 <= j < |node.fields| && j != i && node.fields[j].StructField?
                    && key in CollectKeys(node.fields[i].child, base)
      ensures key !in CollectKeys(node.fields[j].child, base)
    {
      if i < j {
        ChildKeysDisjoint(node.fields, base, i, j);
      } else {
        ChildKeysDisjoint(node.fields, base, j, i);
      }
    }
  }

  lemma SameOnChild(fields: seq<Field>, base: string, i: nat, h: Hashes, h': Hashes)
    requires i < |fields| && fields[i].StructField? && SameOn(CollectFieldKeys(fields, base), h, h')
    ensures SameOn(CollectKeys(fields[i].child, base), h, h')
  {
    var keys := CollectKeys(fields[i].child, base);
    ChildKeysIn(fields, base, i);
    forall k | 0 <= k < |keys| ensures HashAt(h, keys[k]) == HashAt(h', keys[k]) {
      assert keys[k] in CollectFieldKeys(fields, base);
    }
  }

  lemma {:induction false} FreshFrame(node: Node, h: Hashes, h': Hashes, base: string)
    requires SameOn(CollectKeys(node, base), h, h') && Fresh(node, h, base)
    ensures Fresh(node, h', base)
    decreases node
  {
    var key := base + node.suffix;
    SameOnParts([key], CollectFieldKeys(node.fields, base), h, h');
    OwnKeySame(node, h, h', base);
    forall i | 0 <= i < |node.fields| ensures FreshField(node.fields[i], HashAt(h', key), h', base) {
      var f := node.fields[i];
      assert FreshField(f, HashAt(h, key), h, base);
      if f.StructField? {
        SameOnChild(node.fields, base, i, h, h');
        if Referenced(f, HashAt(h, key)) {
          FreshFrame(f.child, h, h', base);
        }
      }
    }
  }

  /** The field reads the same in two states that agree on it and on the hashes below it. */
  lemma FieldFrame(f: Field, hash: map<string, string>, hash': map<string, string>, h: Hashes, h': Hashes, base: string)
    requires f.name in hash <==> f.name in hash'
    requires f.name in hash ==> hash'[f.name] == hash[f.name]
    requires f.StructField? ==> SameOn(CollectKeys(f.child, base), h, h')
    requires FreshField(f, hash, h, base)
    ensures DecodeField(f, hash', h', base) == DecodeField(f, hash, h, base)
    ensures FreshField(f, hash', h', base)
  {
    if f.StructField? {
      DecodeFrame(f.child, h, h', base);
      OwnKeySame(f.child, h, h', base);
      if Referenced(f, hash) {
        FreshFrame(f.child, h, h', base);
      }
    }
  }

  /** Without any hash a struct reads as zero, and nothing stale is below it. */
  lemma AbsentIsZero(node: Node, hashes: Hashes, base: string)
    requires Absent(node, hashes, base)
    ensures Decode(node, hashes, base) == Ok(ZeroValue(node)) && Fresh(node, hashes, base)
  {
    var key, keys := base + node.suffix, CollectKeys(node, base);
    assert HashAt(hashes, keys[0]) == map[];
    ZeroFieldsShaped(node.fields);
    DecodeFieldsAt(node.fields, map[], hashes, base, ZeroFields(node.fields));
    forall i | 0 <= i < |node.fields| ensures FreshField(node.fields[i], map[], hashes, base) {
      if node.fields[i].StructField? {
        var below := CollectKeys(node.fields[i].child, base);
        ChildKeysIn(node.fields, base, i);
        forall k | 0 <= k < |below| ensures HashAt(hashes, below[k]) == map[] {
          assert below[k] in below && keys == [key] + CollectFieldKeys(node.fields, base);
          assert below[k] in keys;
        }
      }
    }
  }

  // ---------------------------------------------------------------- the writes of a patch

  function Put(hashes: Hashes, key: Key, name: string, raw: string): Hashes {
    hashes[key := HashAt(hashes, key)[name := raw]]
  }

  /** Every struct of the path is referenced by its parent, and the leaf holds the text. */
  function Patched(node: Node, hashes: Hashes, base: string, parts: seq<string>, raw: string): Hashes
    requires PatchTarget(node, "", parts).Some?
    decreases node
  {
    var f := node.fields[FindField(node.fields, parts[0]).value];
    if |parts| == 1 then Put(hashes, base + node.suffix, f.name, raw)
    else Patched(f.child, Put(hashes, base + node.suffix, f.name, base + f.child.suffix), base, parts[1..], raw)
  }

  lemma {:induction false} PatchedOutside(node: Node, hashes: Hashes, base: string, parts: seq<string>, raw: string,
                                          key: Key)
    requires PatchTarget(node, "", parts).Some? && key !in CollectKeys(node, base)
    ensures HashAt(Patched(node, hashes, base, parts, raw), key) == HashAt(hashes, key)
    decreases node
  {
    assert key != CollectKeys(node, base)[0];
    var i := FindField(node.fields, parts[0]).value;
    if |parts| > 1 {
      ChildKeysIn(node.fields, base, i);
      var f := node.fields[i];
      var referenced := Put(hashes, base + node.suffix, f.name, base + f.child.suffix);
      PatchedOutside(f.child, referenced, base, parts[1..], raw, key);
    }
  }

  lemma DistinctNames(fields: seq<Field>, i: nat, j: nat)
    requires Distinct(Names(fields)) && i < |fields| && j < |fields| && i != j
    ensures fields[i].name != fields[j].name
  {
    NamesAt(fields);
    if i < j {
      assert Names(fields)[i] != Names(fields)[j];
    } else {
      assert Names(fields)[j] != Names(fields)[i];
    }
  }

  lemma {:induction false} NamesAt(fields: seq<Field>)
    ensures |Names(fields)| == |fields| && forall i | 0 <= i < |fields| :: Names(fields)[i] == fields[i].name
  {
    if fields != [] {
      NamesAt(fields[1..]);
    }
  }

  lemma {:induction false} WellNamedChild(fields: seq<Field>, i: nat)
    requires FieldsWellNamed(fields) && i < |fields| && fields[i].StructField?
    ensures WellNamed(fields[i].child)
  {
    if i > 0 {
      WellNamedChild(fields[1..], i - 1);
    }
  }

  /** Changing one field of a hash, and hashes below that field only, changes one field of the value. */
  lemma OneFieldChanges(node: Node, h: Hashes, h': Hashes, base: string, i: nat, raw: string, v: Value, w: FieldValue)
    requires WellNamed(node) && i < |node.fields| && Decode(node, h, base) == Ok(v) && Fresh(node, h, base)
    requires HashAt(h', base + node.suffix) == HashAt(h, base + node.suffix)[node.fields[i].name := raw]
    requires forall j | 0 <= j < |node.fields| && j != i && node.fields[j].StructField? ::
               SameOn(CollectKeys(node.fields[j].child, base), h, h')
    requires DecodeField(node.fields[i], HashAt(h', base + node.suffix), h', base) == Ok(w)
    requires FreshField(node.fields[i], HashAt(h', base + node.suffix), h', base)
    ensures |v.fields| == |node.fields| && Decode(node, h', base) == Ok(Struct(v.fields[i := w]))
    ensures Fresh(node, h', base)
  {
    var hash, hash' := HashAt(h, base + node.suffix), HashAt(h', base + node.suffix);
    DecodeFieldsAt(node.fields, hash, h, base, v.fields);
    forall j | 0 <= j < |node.fields|
      ensures DecodeField(node.fields[j], hash', h', base) == Ok(v.fields[i := w][j])
      ensures FreshField(node.fields[j], hash', h', base)
    {
      if j != i {
        DistinctNames(node.fields, i, j);
        assert FreshField(node.fields[j], hash, h, base);
        FieldFrame(node.fields[j], hash, hash', h, h', base);
      }
    }
    DecodeFieldsAt(node.fields, hash', h', base, v.fields[i := w]);
  }

  /**
   The leaf's text written, and every struct on the way referenced, the node reads as the earlier value with
   exactly that leaf replaced and the nil structs on the way created.
   */
  lemma {:induction false} PatchedReads(node: Node, h: Hashes, base: string, parts: seq<string>,
                                        s: RefHMapScalar.Scalar, v: Value)
    requires WellNamed(node) && Distinct(CollectKeys(node, base)) && Patchable(node, parts, s)
    requires Decode(node, h, base) == Ok(v) && Fresh(node, h, base)
    ensures var h' := Patched(node, h, base, parts, RefHMapScalar.Encode(s));
            && Shaped(v, node) && Decode(node, h', base) == Ok(SetLeaf(v, node, parts, s))
            && Fresh(node, h', base) && HashAt(h', base + node.suffix) != map[]
    decreases node
  {
    DecodeShaped(node, h, base);
    if |parts| == 1 {
      LeafReads(node, h, base, parts, s, v);
    } else {
      var i, raw := FindField(node.fields, parts[0]).value, RefHMapScalar.Encode(s);
      var f, key := node.fields[i], base + node.suffix;
      var h1 := Put(h, key, f.name, base + f.child.suffix);
      var w := ChildBefore(node, h, h1, base, i, v);
      ChildKeysApart(node, base, i);
      WellNamedChild(node.fields, i);
      PatchedReads(f.child, h1, base, parts[1..], s, w);
      ChildReads(node, h, base, parts, raw, v, SetLeaf(w, f.child, parts[1..], s));
    }
  }

  lemma LeafReads(node: Node, h: Hashes, base: string, parts: seq<string>, s: RefHMapScalar.Scalar, v: Value)
    requires WellNamed(node) && Distinct(CollectKeys(node, base)) && Patchable(node, parts, s) && |parts| == 1
    requires Decode(node, h, base) == Ok(v) && Fresh(node, h, base) && Shaped(v, node)
    ensures var h' := Patched(node, h, base, parts, RefHMapScalar.Encode(s));
            && Decode(node, h', base) == Ok(SetLeaf(v, node, parts, s))
            && Fresh(node, h', base) && HashAt(h', base + node.suffix) != map[]
  {
    var i, raw := FindField(node.fields, parts[0]).value, RefHMapScalar.Encode(s);
    var f, key := node.fields[i], base + node.suffix;
    var h' := Put(h, key, f.name, raw);
    assert f.name in HashAt(h', key);
    OthersKept(node, h, h', base, i);
    RefHMapScalar.ScalarRoundTrip(f.kind, s);
    OneFieldChanges(node, h, h', base, i, raw, v, ScalarValue(s));
  }

  /** A change outside the hashes of the other children keeps them. */
  lemma OthersKept(node: Node, h: Hashes, h': Hashes, base: string, i: nat)
    requires Distinct(CollectKeys(node, base)) && i < |node.fields|
    requires forall key | key != base + node.suffix
                          && (node.fields[i].StructField? ==> key !in CollectKeys(node.fields[i].child, base)) ::
               HashAt(h', key) == HashAt(h, key)
    ensures forall j | 0 <= j < |node.fields| && j != i && node.fields[j].StructField? ::
              SameOn(CollectKeys(node.fields[j].child, base), h, h')
  {
    forall j | 0 <= j < |node.fields| && j != i && node.fields[j].StructField?
      ensures SameOn(CollectKeys(node.fields[j].child, base), h, h')
    {
      ChildKeysApart(node, base, j);
      var keys := CollectKeys(node.fields[j].child, base);
      forall k | 0 <= k < |keys| ensures HashAt(h, keys[k]) == HashAt(h', keys[k]) {
        assert keys[k] in keys && keys[k] != base + node.suffix;
      }
    }
  }

  /** Before the leaf is written: the child as it was, or all zero if it was not referenced. */
  lemma ChildBefore(node: Node, h: Hashes, h1: Hashes, base: string, i: nat, v: Value) returns (w: Value)
    requires Distinct(CollectKeys(node, base)) && i < |node.fields| && node.fields[i].StructField?
    requires Decode(node, h, base) == Ok(v) && Fresh(node, h, base)
    requires forall key | key != base + node.suffix :: HashAt(h1, key) == HashAt(h, key)
    ensures |v.fields| == |node.fields| && w == StructAt(v.fields[i], node.fields[i].child)
    ensures Decode(node.fields[i].child, h1, base) == Ok(w) && Fresh(node.fields[i].child, h1, base)
  {
    var hash, f := HashAt(h, base + node.suffix), node.fields[i];
    DecodeFieldsAt(node.fields, hash, h, base, v.fields);
    assert DecodeField(f, hash, h, base) == Ok(v.fields[i]) && FreshField(f, hash, h, base);
    ChildKeysApart(node, base, i);
    assert SameOn(CollectKeys(f.child, base), h, h1);
    w := StructAt(v.fields[i], f.child);
    if !Referenced(f, hash) {
      AbsentIsZero(f.child, h, base);
    }
    DecodeFrame(f.child, h, h1, base);
    FreshFrame(f.child, h, h1, base);
  }

  lemma ChildReads(node: Node, h: Hashes, base: string, parts: seq<string>, raw: string, v: Value, w: Value)
    requires WellNamed(node) && Distinct(CollectKeys(node, base)) && PatchTarget(node, "", parts).Some? && |parts| > 1
    requires Decode(node, h, base) == Ok(v) && Fresh(node, h, base)
    requires var f := node.fields[FindField(node.fields, parts[0]).value];
             var h' := Patched(node, h, base, parts, raw);
             && Decode(f.child, h', base) == Ok(w) && Fresh(f.child, h', base)
             && HashAt(h', base + f.child.suffix) != map[]
    ensures var h', i := Patched(node, h, base, parts, raw), FindField(node.fields, parts[0]).value;
            && |v.fields| == |node.fields| && Decode(node, h', base) == Ok(Struct(v.fields[i := Nested(w)]))
            && Fresh(node, h', base) && HashAt(h', base + node.suffix) != map[]
  {
    var i, h' := FindField(node.fields, parts[0]).value, Patched(node, h, base, parts, raw);
    var f, key := node.fields[i], base + node.suffix;
    var h1 := Put(h, key, f.name, base + f.child.suffix);
    ChildKeysApart(node, base, i);
    PatchedOutside(f.child, h1, base, parts[1..], raw, key);
    assert f.name in HashAt(h', key);
    WellNamedChild(node.fields, i);
    assert base + f.child.suffix != "";
    forall other | other != key && other !in CollectKeys(f.child, base) ensures HashAt(h', other) == HashAt(h, other) {
      PatchedOutside(f.child, h1, base, parts[1..], raw, other);
    }
    OthersKept(node, h, h', base, i);
    OneFieldChanges(node, h, h', base, i, base + f.child.suffix, v, Nested(w));
  }

  // ---------------------------------------------------------------- the script

  function PatchOf(root: Node, base: string, parts: seq<string>, s: RefHMapScalar.Scalar, ttl: nat): PatchOp
    requires PatchTarget(root, base, parts).Some?
  {
    var t := PatchTarget(root, base, parts).value;
    PatchOp(CollectKeys(root, base), t.keys, t.references, t.field.name, RefHMapScalar.Encode(s), ttl)
  }

  lemma {:induction false} TargetKeys(node: Node, base: string, parts: seq<string>)
    requires PatchTarget(node, base, parts).Some?
    ensures forall key | key in PatchTarget(node, base, parts).value.keys :: key in CollectKeys(node, base)
    decreases node
  {
    if |parts| > 1 {
      var i := FindField(node.fields, parts[0]).value;
      TargetKeys(node.fields[i].child, base, parts[1..]);
      ChildKeysIn(node.fields, base, i);
    }
  }

  lemma PatchOfIsValid(root: Node, base: string, parts: seq<string>, s: RefHMapScalar.Scalar, ttl: nat)
    requires PatchTarget(root, base, parts).Some?
    ensures ValidPatch(PatchOf(root, base, parts, s, ttl))
  {
    TargetKeys(root, base, parts);
  }

  lemma HSetPuts(store: Store, key: Key, name: string, raw: string)
    ensures FieldsOf(HSet(store, key, map[name := raw])) == Put(FieldsOf(store), key, name, raw)
  {
    if key in store {
      assert store[key].fields + map[name := raw] == store[key].fields[name := raw];
    }
  }

  /** The references are set from the root down. */
  lemma {:induction false} SetReferencesFirst(store: Store, keys: seq<Key>, references: seq<string>)
    requires |references| == |keys| - 1 && references != []
    ensures SetReferences(store, keys, references)
         == SetReferences(HSet(store, keys[0], map[references[0] := keys[1]]), keys[1..], references[1..])
    decreases |references|
  {
    var last := |references| - 1;
    if last > 0 {
      SetReferencesFirst(store, keys[..|keys| - 1], references[..last]);
      assert keys[..|keys| - 1][1..] == keys[1..][..|keys| - 2];
      assert references[..last][1..] == references[1..][..last - 1];
    } else {
      assert references[..last] == [] && references[1..] == [];
    }
  }

  /** The script's reference and leaf writes are those of `Patched`. */
  lemma {:induction false} ScriptPatches(node: Node, store: Store, base: string, parts: seq<string>, raw: string)
    requires PatchTarget(node, base, parts).Some? && PatchTarget(node, "", parts).Some?
    ensures var t := PatchTarget(node, base, parts).value;
            var referenced := SetReferences(store, t.keys, t.references);
            FieldsOf(HSet(referenced, t.keys[|t.keys| - 1], map[t.field.name := raw]))
            == Patched(node, FieldsOf(store), base, parts, raw)
    decreases node
  {
    var t := PatchTarget(node, base, parts).value;
    var i := FindField(node.fields, parts[0]).value;
    var f, key := node.fields[i], base + node.suffix;
    if |parts| == 1 {
      HSetPuts(store, key, f.name, raw);
    } else {
      var below := PatchTarget(f.child, base, parts[1..]).value;
      var child := base + f.child.suffix;
      assert t.keys == [key] + below.keys && t.references == [f.name] + below.references;
      SetReferencesFirst(store, t.keys, t.references);
      assert t.keys[1..] == below.keys && t.references[1..] == below.references;
      HSetPuts(store, key, f.name, child);
      ScriptPatches(f.child, HSet(store, key, map[f.name := child]), base, parts[1..], raw);
    }
  }

  /** Every hash after an accepted patch: the writes along the path, the registry in the root, and nothing else. */
  lemma PatchWrites(now: int, store: Store, root: Node, base: string, parts: seq<string>, s: RefHMapScalar.Scalar,
                    ttl: nat)
    requires PatchTarget(root, base, parts).Some? && base + root.suffix in store
    ensures ValidPatch(PatchOf(root, base, parts, s, ttl)) && PatchTarget(root, "", parts).Some?
    ensures var p := PatchOf(root, base, parts, s, ttl);
            var written := Patched(root, FieldsOf(store), base, parts, RefHMapScalar.Encode(s));
            && RunPatch(now, store, p).1
            && FieldsOf(RunPatch(now, store, p).0)
               == Put(written, base + root.suffix, REGISTRY, MergedRegistry(store, p))
  {
    PatchOfIsValid(root, base, parts, s, ttl);
    TargetAnyBase(root, base, parts);
    var p := PatchOf(root, base, parts, s, ttl);
    ScriptPatches(root, store, base, parts, p.value);
    RunPatchFields(now, store, p);
  }

  lemma RunPatchFields(now: int, store: Store, p: PatchOp)
    requires ValidPatch(p) && p.layout[0] in store
    ensures var leaf := HSet(SetReferences(store, p.path, p.references), p.path[|p.path| - 1], map[p.field := p.value]);
            && RunPatch(now, store, p).1
            && FieldsOf(RunPatch(now, store, p).0)
               == Put(FieldsOf(leaf), p.layout[0], REGISTRY, MergedRegistry(store, p))
  {
    var leaf := HSet(SetReferences(store, p.path, p.references), p.path[|p.path| - 1], map[p.field := p.value]);
    HSetPuts(leaf, p.layout[0], REGISTRY, MergedRegistry(store, p));
    RefreshKeepsFields(HSet(leaf, p.layout[0], map[REGISTRY := MergedRegistry(store, p)]), Unique(p.path + p.layout),
                       now, p.ttl);
  }

  lemma RefreshKeepsFields(store: Store, keys: seq<Key>, now: int, ttl: nat)
    ensures FieldsOf(Refresh(store, keys, now, ttl)) == FieldsOf(store)
  {
  }

  /** The registry field is no field of the root, so it changes nothing a Get reads. */
  lemma RegistryUnread(root: Node, h: Hashes, base: string, registry: string)
    requires Accepted(root) && Fresh(root, h, base)
    ensures var h' := Put(h, base + root.suffix, REGISTRY, registry);
            Decode(root, h', base) == Decode(root, h, base) && Fresh(root, h', base)
  {
    var key, h' := base + root.suffix, Put(h, base + root.suffix, REGISTRY, registry);
    CollectKeysDistinct(root, base);
    NamesAt(root.fields);
    forall i | 0 <= i < |root.fields|
      ensures DecodeField(root.fields[i], HashAt(h', key), h', base)
           == DecodeField(root.fields[i], HashAt(h, key), h, base)
      ensures FreshField(root.fields[i], HashAt(h', key), h', base)
    {
      var f := root.fields[i];
      assert f.name == Names(root.fields)[i];
      assert FreshField(f, HashAt(h, key), h, base);
      if f.StructField? {
        ChildKeysApart(root, base, i);
      }
      FieldFrame(f, HashAt(h, key), HashAt(h', key), h, h', base);
    }
    SameFieldsDecode(root.fields, HashAt(h, key), HashAt(h', key), h, h', base);
  }

  lemma {:induction false} SameFieldsDecode(fields: seq<Field>, hash: map<string, string>, hash': map<string, string>,
                                            h: Hashes, h': Hashes, base: string)
    requires forall i | 0 <= i < |fields| ::
               DecodeField(fields[i], hash', h', base) == DecodeField(fields[i], hash, h, base)
    ensures DecodeFields(fields, hash', h', base) == DecodeFields(fields, hash, h, base)
  {
    if fields != [] {
      forall i | 0 <= i < |fields[1..]|
        ensures DecodeField(fields[1..][i], hash', h', base) == DecodeField(fields[1..][i], hash, h, base)
      {
        assert fields[1..][i] == fields[i + 1];
      }
      SameFieldsDecode(fields[1..], hash, hash', h, h', base);
    }
  }

  /**
   A Get after an accepted patch returns the value the Get before it returned, with exactly the patched leaf
   replaced and the nil structs on its path created.
   */
  lemma PatchThenGet(now: int, store: Store, root: Node, base: string, parts: seq<string>, s: RefHMapScalar.Scalar,
                     ttl: nat, v: Value)
    requires Accepted(root) && Patchable(root, parts, s) && Fresh(root, FieldsOf(store), base)
    requires Get(root, FieldsOf(store), base) == Found(v)
    ensures Shaped(v, root) && PatchTarget(root, base, parts).Some? && ValidPatch(PatchOf(root, base, parts, s, ttl))
    ensures var (store', applied) := RunPatch(now, store, PatchOf(root, base, parts, s, ttl));
            && applied && Get(root, FieldsOf(store'), base) == Found(SetLeaf(v, root, parts, s))
            && Fresh(root, FieldsOf(store'), base)
  {
    var h, raw := FieldsOf(store), RefHMapScalar.Encode(s);
    TargetAnyBase(root, base, parts);
    CollectKeysDistinct(root, base);
    PatchedReads(root, h, base, parts, s, v);
    PatchWrites(now, store, root, base, parts, s, ttl);
    var registry := MergedRegistry(store, PatchOf(root, base, parts, s, ttl));
    var written := Patched(root, h, base, parts, raw);
    RegistryUnread(root, written, base, registry);
    assert REGISTRY in HashAt(Put(written, base + root.suffix, REGISTRY, registry), base + root.suffix);
  }
}
