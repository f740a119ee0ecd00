/**
 The layout of a struct type as a tree of hashes, and the codec that spreads a value over those
 hashes and reads it back (`buildRefHMapNode`, `encodeRefHMapNode`, `decodeRefHMapNode`).
 */
module RefHMapCodec {
  import opened RefHMapStore
  import RefHMapScalar
  import opened Wrappers

  datatype Result<+T, +E> = Ok(value: T) | Err(error: E)

  // ---------------------------------------------------------------- layouts

  /** One hash of the record; `suffix` follows the key of the entity. */
  datatype Node = Node(suffix: string, fields: seq<Field>)

  datatype Field =
    | ScalarField(name: string, goName: string, ptr: bool, kind: RefHMapScalar.Kind)
    | StructField(name: string, goName: string, ptr: bool, child: Node)

  /** A level with a non-pointer field is never an empty hash. */
  predicate AlwaysWritten(node: Node) {
    exists f | f in node.fields :: !f.ptr
  }

  /** The hash keys of the layout, the root first. */
  function CollectKeys(node: Node, base: string): seq<Key>
    decreases node
  {
    [base + node.suffix] + CollectFieldKeys(node.fields, base)
  }

  function CollectFieldKeys(fields: seq<Field>, base: string): seq<Key>
    decreases fields
  {
    if fields == [] then []
    else (if fields[0].StructField? then CollectKeys(fields[0].child, base) else [])
         + CollectFieldKeys(fields[1..], base)
  }

  /** Go struct types: the exported fields of each named type. */
  datatype TypeField = TypeField(name: string, goName: string, shape: FieldShape)

  datatype FieldShape =
    | ScalarShape(ptr: bool, kind: RefHMapScalar.Kind)
    | StructShape(ptr: bool, typ: string)
    | OtherShape

  datatype LayoutError = MaxDepth | Cycle | Unsupported

  function PathSuffix(path: seq<string>): string {
    if path == [] then ":root" else JoinPath(path)
  }

  function JoinPath(path: seq<string>): string {
    if path == [] then "" else ":" + path[0] + JoinPath(path[1..])
  }

  predicate AllowedName(name: string, path: seq<string>) {
    ':' !in name && '\n' !in name && '\r' !in name && !(path == [] && name == REGISTRY)
  }

  /** Builds the tree of a type, refusing cycles, depth, and names that would collide. */
  function Build(types: map<string, seq<TypeField>>, typ: string, path: seq<string>, maxDepth: nat, depth: nat,
                 stack: set<string>)
    : Result<Node, LayoutError>
    requires depth <= maxDepth + 1
    decreases maxDepth + 1 - depth, 2, 0
  {
    if depth > maxDepth then Err(MaxDepth)
    else if typ in stack then Err(Cycle)
    else if typ !in types then Err(Unsupported)
    else
      match BuildFields(types, types[typ], path, maxDepth, depth, stack + {typ}, {})
      case Err(e) => Err(e)
      case Ok(fields) => Ok(Node(PathSuffix(path), fields))
  }

  function BuildFields(types: map<string, seq<TypeField>>, decls: seq<TypeField>, path: seq<string>, maxDepth: nat,
                       depth: nat, stack: set<string>, seen: set<string>): Result<seq<Field>, LayoutError>
    requires depth <= maxDepth
    decreases maxDepth + 1 - depth, 1, |decls|
  {
    if decls == [] then Ok([])
    else
      var name := decls[0].name;
      if name in seen || !AllowedName(name, path) then Err(Unsupported)
      else
        match BuildField(types, decls[0], path, maxDepth, depth, stack)
        case Err(e) => Err(e)
        case Ok(f) =>
          match BuildFields(types, decls[1..], path, maxDepth, depth, stack, seen + {name})
          case Err(e) => Err(e)
          case Ok(rest) => Ok([f] + rest)
  }

  function BuildField(types: map<string, seq<TypeField>>, decl: TypeField, path: seq<string>, maxDepth: nat, depth: nat,
                      stack: set<string>): Result<Field, LayoutError>
    requires depth <= maxDepth
    decreases maxDepth + 1 - depth, 0, 0
  {
    match decl.shape
    case ScalarShape(ptr, kind) => Ok(ScalarField(decl.name, decl.goName, ptr, kind))
    case OtherShape => Err(Unsupported)
    case StructShape(ptr, typ) =>
      match Build(types, typ, path + [decl.name], maxDepth, depth + 1, stack)
      case Err(e) => Err(e)
      case Ok(child) => Ok(StructField(decl.name, decl.goName, ptr, child))
  }

  predicate Distinct<T(==)>(s: seq<T>) {
    forall i, j | 0 <= i < j < |s| :: s[i] != s[j]
  }

  /** The layout of a store: the tree, refused when two hashes would share a key. */
  function LayoutOf(types: map<string, seq<TypeField>>, typ: string, maxDepth: nat): Result<Node, LayoutError> {
    match Build(types, typ, [], maxDepth, 0, {})
    case Err(e) => Err(e)
    case Ok(root) => if Distinct(CollectKeys(root, "")) then Ok(root) else Err(Unsupported)
  }

  function Names(fields: seq<Field>): seq<string> {
    if fields == [] then [] else [fields[0].name] + Names(fields[1..])
  }

  /** Field names are distinct at every level, and every hash has a suffix. */
  ghost predicate WellNamed(node: Node)
    decreases node
  {
    && node.suffix != "" && node.suffix[0] == ':'
    && Distinct(Names(node.fields)) && FieldsWellNamed(node.fields)
  }

  ghost predicate FieldsWellNamed(fields: seq<Field>)
    decreases fields
  {
    fields == [] || ((fields[0].StructField? ==> WellNamed(fields[0].child)) && FieldsWellNamed(fields[1..]))
  }

  /** What an accepted layout guarantees. */
  ghost predicate Accepted(root: Node) {
    && root.suffix == ":root" && WellNamed(root) && REGISTRY !in Names(root.fields)
    && Distinct(CollectKeys(root, ""))
  }

  lemma {:induction false} BuildWellNamed(types: map<string, seq<TypeField>>, typ: string, path: seq<string>,
                                          maxDepth: nat, depth: nat, stack: set<string>)
    requires depth <= maxDepth + 1 && Build(types, typ, path, maxDepth, depth, stack).Ok?
    ensures var node := Build(types, typ, path, maxDepth, depth, stack).value;
            && node.suffix == PathSuffix(path) && WellNamed(node) && (path == [] ==> REGISTRY !in Names(node.fields))
    decreases maxDepth + 1 - depth, 1, 0
  {
    BuildFieldsWellNamed(types, types[typ], path, maxDepth, depth, stack + {typ}, {});
  }

  lemma {:induction false} BuildFieldsWellNamed(types: map<string, seq<TypeField>>, decls: seq<TypeField>,
                                                path: seq<string>, maxDepth: nat, depth: nat,
                                                stack: set<string>, seen: set<string>)
    requires depth <= maxDepth && BuildFields(types, decls, path, maxDepth, depth, stack, seen).Ok?
    ensures var fields := BuildFields(types, decls, path, maxDepth, depth, stack, seen).value;
            && Distinct(Names(fields)) && FieldsWellNamed(fields)
            && (forall i | 0 <= i < |Names(fields)| :: Names(fields)[i] !in seen)
            && (path == [] ==> REGISTRY !in Names(fields))
    decreases maxDepth + 1 - depth, 0, |decls|
  {
    if decls != [] {
      BuildFieldsWellNamed(types, decls[1..], path, maxDepth, depth, stack, seen + {decls[0].name});
      if decls[0].shape.StructShape? {
        BuildWellNamed(types, decls[0].shape.typ, path + [decls[0].name], maxDepth, depth + 1, stack);
      }
      var fields := BuildFields(types, decls, path, maxDepth, depth, stack, seen).value;
      assert fields[1..] == BuildFields(types, decls[1..], path, maxDepth, depth, stack, seen + {decls[0].name}).value;
    }
  }

  /**
   The node is the layout of the type at this place: field by field, with allowed and distinct names, within the
   depth, and with no type inside itself.
   */
  ghost predicate Mirrors(types: map<string, seq<TypeField>>, typ: string, node: Node, path: seq<string>, levels: int,
                          stack: set<string>)
    decreases node
  {
    && levels >= 0 && typ !in stack && typ in types && node.suffix == PathSuffix(path)
    && FieldsMirror(types, types[typ], node.fields, path, levels, stack + {typ}, {})
  }

  ghost predicate FieldsMirror(types: map<string, seq<TypeField>>, decls: seq<TypeField>, fields: seq<Field>,
                               path: seq<string>, levels: int, stack: set<string>, seen: set<string>)
    decreases fields
  {
    && |fields| == |decls|
    && forall i | 0 <= i < |fields| ::
         && decls[i].name !in seen && (forall j | 0 <= j < i :: decls[j].name != decls[i].name)
         && AllowedName(decls[i].name, path)
         && FieldMirrors(types, decls[i], fields[i], path, levels, stack)
  }

  ghost predicate FieldMirrors(types: map<string, seq<TypeField>>, decl: TypeField, f: Field, path: seq<string>,
                               levels: int, stack: set<string>)
    decreases f
  {
    match decl.shape
    case ScalarShape(ptr, kind) => f == ScalarField(decl.name, decl.goName, ptr, kind)
    case StructShape(ptr, typ) =>
      && f.StructField? && f.name == decl.name && f.goName == decl.goName && f.ptr == ptr
      && Mirrors(types, typ, f.child, path + [decl.name], levels - 1, stack)
    case OtherShape => false
  }

  /** Building succeeds exactly on the types that have a layout, and gives that layout. */
  lemma {:induction false} BuildExactly(types: map<string, seq<TypeField>>, typ: string, path: seq<string>,
                                        maxDepth: nat, depth: nat, stack: set<string>, node: Node)
    requires depth <= maxDepth + 1
    ensures Build(types, typ, path, maxDepth, depth, stack) == Ok(node)
       <==> Mirrors(types, typ, node, path, maxDepth - depth, stack)
    decreases maxDepth + 1 - depth, 2, 0
  {
    if depth <= maxDepth && typ !in stack && typ in types {
      BuildFieldsExactly(types, types[typ], path, maxDepth, depth, stack + {typ}, {}, node.fields);
    }
  }

  lemma {:induction false} BuildFieldsExactly(types: map<string, seq<TypeField>>, decls: seq<TypeField>,
                                              path: seq<string>, maxDepth: nat, depth: nat, stack: set<string>,
                                              seen: set<string>, fields: seq<Field>)
    requires depth <= maxDepth
    ensures BuildFields(types, decls, path, maxDepth, depth, stack, seen) == Ok(fields)
       <==> FieldsMirror(types, decls, fields, path, maxDepth - depth, stack, seen)
    decreases maxDepth + 1 - depth, 1, |decls|
  {
    if decls != [] && fields != [] {
      var name := decls[0].name;
      assert fields == [fields[0]] + fields[1..];
      FieldsMirrorTail(types, decls, fields, path, maxDepth - depth, stack, seen);
      BuildFieldsExactly(types, decls[1..], path, maxDepth, depth, stack, seen + {name}, fields[1..]);
      BuildFieldExactly(types, decls[0], path, maxDepth, depth, stack, fields[0]);
    }
  }

  lemma {:induction false} BuildFieldExactly(types: map<string, seq<TypeField>>, decl: TypeField, path: seq<string>,
                                             maxDepth: nat, depth: nat, stack: set<string>, f: Field)
    requires depth <= maxDepth
    ensures BuildField(types, decl, path, maxDepth, depth, stack) == Ok(f)
       <==> FieldMirrors(types, decl, f, path, maxDepth - depth, stack)
    decreases maxDepth + 1 - depth, 0, 0
  {
    if decl.shape.StructShape? && f.StructField? {
      BuildExactly(types, decl.shape.typ, path + [decl.name], maxDepth, depth + 1, stack, f.child);
    }
  }

  lemma FieldsMirrorTail(types: map<string, seq<TypeField>>, decls: seq<TypeField>, fields: seq<Field>,
                         path: seq<string>, levels: int, stack: set<string>, seen: set<string>)
    requires decls != [] && fields != []
    ensures FieldsMirror(types, decls, fields, path, levels, stack, seen)
       <==> decls[0].name !in seen && AllowedName(decls[0].name, path)
            && FieldMirrors(types, decls[0], fields[0], path, levels, stack)
            && FieldsMirror(types, decls[1..], fields[1..], path, levels, stack, seen + {decls[0].name})
  {
    var seen' := seen + {decls[0].name};
    if FieldsMirror(types, decls, fields, path, levels, stack, seen) {
      forall i | 0 <= i < |fields[1..]|
        ensures decls[1..][i].name !in seen' && AllowedName(decls[1..][i].name, path)
        ensures forall j | 0 <= j < i :: decls[1..][j].name != decls[1..][i].name
        ensures FieldMirrors(types, decls[1..][i], fields[1..][i], path, levels, stack)
      {
        assert fields[i + 1] == fields[1..][i] && decls[i + 1] == decls[1..][i];
      }
    }
    if decls[0].name !in seen && AllowedName(decls[0].name, path)
       && FieldMirrors(types, decls[0], fields[0], path, levels, stack)
       && FieldsMirror(types, decls[1..], fields[1..], path, levels, stack, seen') {
      forall i | 0 <= i < |fields|
        ensures decls[i].name !in seen && AllowedName(decls[i].name, path)
        ensures forall j | 0 <= j < i :: decls[j].name != decls[i].name
        ensures FieldMirrors(types, decls[i], fields[i], path, levels, stack)
      {
        if i > 0 {
          assert fields[i] == fields[1..][i - 1] && decls[i] == decls[1..][i - 1];
          assert forall j | 0 < j < i :: decls[j] == decls[1..][j - 1];
        }
      }
    }
  }

  lemma LayoutAccepted(types: map<string, seq<TypeField>>, typ: string, maxDepth: nat)
    requires LayoutOf(types, typ, maxDepth).Ok?
    ensures Accepted(LayoutOf(types, typ, maxDepth).value)
  {
    BuildWellNamed(types, typ, [], maxDepth, 0, {});
  }

  // ---------------------------------------------------------------- values

  datatype Value = Struct(fields: seq<FieldValue>)

  datatype FieldValue = Nil | ScalarValue(scalar: RefHMapScalar.Scalar) | Nested(value: Value)

  /** The value is one of the type the layout was built for. */
  predicate Shaped(v: Value, node: Node)
    decreases node
  {
    FieldsShaped(v.fields, node.fields)
  }

  predicate FieldsShaped(values: seq<FieldValue>, fields: seq<Field>)
    decreases fields
  {
    |values| == |fields| &&
    (fields == [] ||
     (&& FieldsShaped(values[1..], fields[1..])
      && match values[0]
         case Nil => fields[0].ptr
         case ScalarValue(s) => fields[0].ScalarField? && RefHMapScalar.Fits(fields[0].kind, s)
         case Nested(v) => fields[0].StructField? && Shaped(v, fields[0].child)))
  }

  // ---------------------------------------------------------------- encoding

  /** The fields of one hash: scalar texts, and the keys of the child hashes that exist. */
  function Pairs(values: seq<FieldValue>, fields: seq<Field>, base: string): map<string, string>
    requires FieldsShaped(values, fields)
  {
    if fields == [] then map[]
    else
      var rest := Pairs(values[1..], fields[1..], base);
      match values[0]
      case Nil => rest
      case ScalarValue(s) => rest[fields[0].name := RefHMapScalar.Encode(s)]
      case Nested(_) => rest[fields[0].name := base + fields[0].child.suffix]
  }

  /** The hashes of a value, children before their parent. */
  function Encode(v: Value, node: Node, base: string): seq<Write>
    requires Shaped(v, node)
    decreases node
  {
    EncodeFields(v.fields, node.fields, base) + [Write(base + node.suffix, Pairs(v.fields, node.fields, base))]
  }

  function EncodeFields(values: seq<FieldValue>, fields: seq<Field>, base: string): seq<Write>
    requires FieldsShaped(values, fields)
    decreases fields
  {
    if fields == [] then []
    else (if values[0].Nested? then Encode(values[0].value, fields[0].child, base) else [])
         + EncodeFields(values[1..], fields[1..], base)
  }

  // ---------------------------------------------------------------- decoding

  type Hashes = map<Key, map<string, string>>

  function HashAt(hashes: Hashes, key: Key): map<string, string> {
    if key in hashes then hashes[key] else map[]
  }

  /** A referenced hash that cannot be empty is gone, or a scalar does not parse. */
  datatype DecodeError = Partial | Corrupt

  function ZeroValue(node: Node): Value
    decreases node
  {
    Struct(ZeroFields(node.fields))
  }

  function ZeroFields(fields: seq<Field>): seq<FieldValue>
    decreases fields
  {
    if fields == [] then [] else [ZeroField(fields[0])] + ZeroFields(fields[1..])
  }

  function ZeroField(f: Field): FieldValue
    decreases f
  {
    if f.ptr then Nil
    else match f
      case ScalarField(_, _, _, kind) => ScalarValue(RefHMapScalar.Zero(kind))
      case StructField(_, _, _, child) => Nested(ZeroValue(child))
  }

  function Decode(node: Node, hashes: Hashes, base: string): Result<Value, DecodeError>
    decreases node
  {
    match DecodeFields(node.fields, HashAt(hashes, base + node.suffix), hashes, base)
    case Ok(values) => Ok(Struct(values))
    case Err(e) => Err(e)
  }

  function DecodeFields(fields: seq<Field>, hash: map<string, string>, hashes: Hashes, base: string)
    : Result<seq<FieldValue>, DecodeError>
    decreases fields
  {
    if fields == [] then Ok([])
    else
      match DecodeField(fields[0], hash, hashes, base)
      case Err(e) => Err(e)
      case Ok(first) =>
        match DecodeFields(fields[1..], hash, hashes, base)
        case Err(e) => Err(e)
        case Ok(rest) => Ok([first] + rest)
  }

  /** A reference is present: the field names a child hash. */
  predicate Referenced(f: Field, hash: map<string, string>) {
    f.StructField? && f.name in hash && hash[f.name] != ""
  }

  function DecodeField(f: Field, hash: map<string, string>, hashes: Hashes, base: string)
    : Result<FieldValue, DecodeError>
    decreases f
  {
    match f
    case ScalarField(name, _, _, kind) =>
      if name !in hash then Ok(ZeroField(f))
      else
        (match RefHMapScalar.Decode(kind, hash[name])
         case None => Err(Corrupt)
         case Some(s) => Ok(ScalarValue(s)))
    case StructField(name, _, _, child) =>
      if !Referenced(f, hash) then Ok(ZeroField(f))
      else if AlwaysWritten(child) && HashAt(hashes, base + child.suffix) == map[] then Err(Partial)
      else
        match Decode(child, hashes, base)
        case Err(e) => Err(e)
        case Ok(v) => Ok(Nested(v))
  }

  datatype GetResult = Found(value: Value) | Miss | Failure

  function Get(root: Node, hashes: Hashes, base: string): GetResult {
    if HashAt(hashes, base + root.suffix) == map[] then Miss
    else
      match Decode(root, hashes, base)
      case Ok(v) => Found(v)
      case Err(Partial) => Miss
      case Err(Corrupt) => Failure
  }

  // ---------------------------------------------------------------- partial records

  /** Following the references reaches a hash that cannot be empty and is absent. */
  ghost predicate Broken(node: Node, hashes: Hashes, base: string)
    decreases node
  {
    FieldsBroken(node.fields, HashAt(hashes, base + node.suffix), hashes, base)
  }

  ghost predicate FieldsBroken(fields: seq<Field>, hash: map<string, string>, hashes: Hashes, base: string)
    decreases fields
  {
    fields != [] &&
    (|| FieldsBroken(fields[1..], hash, hashes, base)
     || (Referenced(fields[0], hash) &&
         var child := fields[0].child;
         (AlwaysWritten(child) && HashAt(hashes, base + child.suffix) == map[]) || Broken(child, hashes, base)))
  }

  lemma {:induction false} DecodeDetectsBroken(node: Node, hashes: Hashes, base: string)
    ensures Broken(node, hashes, base) ==> Decode(node, hashes, base).Err?
    ensures Decode(node, hashes, base) == Err(Partial) ==> Broken(node, hashes, base)
    decreases node
  {
    DecodeFieldsDetectBroken(node.fields, HashAt(hashes, base + node.suffix), hashes, base);
  }

  lemma {:induction false} DecodeFieldsDetectBroken(fields: seq<Field>, hash: map<string, string>, hashes: Hashes,
                                                    base: string)
    ensures FieldsBroken(fields, hash, hashes, base) ==> DecodeFields(fields, hash, hashes, base).Err?
    ensures DecodeFields(fields, hash, hashes, base) == Err(Partial) ==> FieldsBroken(fields, hash, hashes, base)
    decreases fields
  {
    if fields != [] {
      DecodeFieldsDetectBroken(fields[1..], hash, hashes, base);
      if fields[0].StructField? {
        DecodeDetectsBroken(fields[0].child, hashes, base);
      }
      assert DecodeField(fields[0], hash, hashes, base) == Err(Partial) ==> Referenced(fields[0], hash);
    }
  }

  /** A broken record is never found; unless a scalar is corrupt, it is exactly a miss. */
  lemma PartialRecordIsMiss(root: Node, hashes: Hashes, base: string)
    requires HashAt(hashes, base + root.suffix) != map[]
    ensures Broken(root, hashes, base) ==> !Get(root, hashes, base).Found?
    ensures !Get(root, hashes, base).Failure? ==> (Get(root, hashes, base) == Miss <==> Broken(root, hashes, base))
  {
    DecodeDetectsBroken(root, hashes, base);
  }

  // ---------------------------------------------------------------- round trip

  /** The hashes hold the value: what is present, what is absent, and the children. */
  ghost predicate Stored(v: Value, node: Node, hashes: Hashes, base: string)
    requires Shaped(v, node)
    decreases node
  {
    FieldsStored(v.fields, node.fields, HashAt(hashes, base + node.suffix), hashes, base)
  }

  ghost predicate FieldsStored(values: seq<FieldValue>, fields: seq<Field>, hash: map<string, string>,
                               hashes: Hashes, base: string)
    requires FieldsShaped(values, fields)
    decreases fields
  {
    fields == [] ||
    (&& FieldsStored(values[1..], fields[1..], hash, hashes, base)
     && match values[0]
        case Nil => fields[0].name !in hash
        case ScalarValue(s) => fields[0].name in hash && hash[fields[0].name] == RefHMapScalar.Encode(s)
        case Nested(v) =>
          var child := fields[0].child;
          && fields[0].name in hash && hash[fields[0].name] == base + child.suffix
          && (AlwaysWritten(child) ==> HashAt(hashes, base + child.suffix) != map[])
          && Stored(v, child, hashes, base))
  }

  lemma {:induction false} DecodeStored(v: Value, node: Node, hashes: Hashes, base: string)
    requires Shaped(v, node) && WellNamed(node) && Stored(v, node, hashes, base)
    ensures Decode(node, hashes, base) == Ok(v)
    decreases node
  {
    DecodeFieldsStored(v.fields, node.fields, HashAt(hashes, base + node.suffix), hashes, base);
  }

  lemma {:induction false} DecodeFieldsStored(values: seq<FieldValue>, fields: seq<Field>, hash: map<string, string>,
                                              hashes: Hashes, base: string)
    requires FieldsShaped(values, fields) && FieldsWellNamed(fields) && FieldsStored(values, fields, hash, hashes, base)
    ensures DecodeFields(fields, hash, hashes, base) == Ok(values)
    decreases fields
  {
    if fields != [] {
      DecodeFieldsStored(values[1..], fields[1..], hash, hashes, base);
      assert values == [values[0]] + values[1..];
      match values[0]
      case Nil => assert DecodeField(fields[0], hash, hashes, base) == Ok(Nil);
      case ScalarValue(s) => RefHMapScalar.ScalarRoundTrip(fields[0].kind, s);
      case Nested(v) => DecodeStored(v, fields[0].child, hashes, base);
    }
  }

  /** Every written hash is there, with exactly its pairs. */
  ghost predicate Holds(hashes: Hashes, writes: seq<Write>) {
    forall i | 0 <= i < |writes| :: HashAt(hashes, writes[i].key) == writes[i].values
  }

  /** On the names of the level, the hash and the pairs agree. */
  ghost predicate AgreeOn(names: seq<string>, hash: map<string, string>, pairs: map<string, string>) {
    forall i | 0 <= i < |names| ::
      (names[i] in hash <==> names[i] in pairs) && (names[i] in hash ==> hash[names[i]] == pairs[names[i]])
  }

  lemma {:induction false} PairsNames(values: seq<FieldValue>, fields: seq<Field>, base: string)
    requires FieldsShaped(values, fields)
    ensures forall name | name in Pairs(values, fields, base) :: name in Names(fields)
    ensures (exists f | f in fields :: !f.ptr) ==> Pairs(values, fields, base) != map[]
  {
    if fields != [] {
      PairsNames(values[1..], fields[1..], base);
      assert fields == [fields[0]] + fields[1..];
      if !values[0].Nil? {
        assert fields[0].name in Pairs(values, fields, base);
      }
    }
  }

  lemma {:induction false} HeldIsStored(v: Value, node: Node, hashes: Hashes, base: string)
    requires Shaped(v, node) && WellNamed(node)
    requires Holds(hashes, EncodeFields(v.fields, node.fields, base))
    requires AgreeOn(Names(node.fields), HashAt(hashes, base + node.suffix), Pairs(v.fields, node.fields, base))
    ensures Stored(v, node, hashes, base)
    decreases node, 0
  {
    HeldFieldsStored(v.fields, node.fields, HashAt(hashes, base + node.suffix), hashes, base);
  }

  lemma {:induction false} HeldFieldsStored(values: seq<FieldValue>, fields: seq<Field>, hash: map<string, string>,
                                            hashes: Hashes, base: string)
    requires FieldsShaped(values, fields) && Distinct(Names(fields)) && FieldsWellNamed(fields)
    requires Holds(hashes, EncodeFields(values, fields, base))
    requires AgreeOn(Names(fields), hash, Pairs(values, fields, base))
    ensures FieldsStored(values, fields, hash, hashes, base)
    decreases fields
  {
    if fields != [] {
      var names, rest := Names(fields), EncodeFields(values[1..], fields[1..], base);
      assert names[0] == fields[0].name && names[1..] == Names(fields[1..]);
      var first := if values[0].Nested? then Encode(values[0].value, fields[0].child, base) else [];
      HoldsParts(hashes, first, rest);
      PairsNames(values[1..], fields[1..], base);
      assert AgreeOn(Names(fields[1..]), hash, Pairs(values[1..], fields[1..], base)) by {
        forall i | 0 <= i < |names[1..]|
          ensures names[1..][i] in hash <==> names[1..][i] in Pairs(values[1..], fields[1..], base)
          ensures names[1..][i] in hash ==> hash[names[1..][i]] == Pairs(values[1..], fields[1..], base)[names[1..][i]]
        {
          assert names[i + 1] == names[1..][i] && names[0] != names[i + 1];
        }
      }
      HeldFieldsStored(values[1..], fields[1..], hash, hashes, base);
      if values[0].Nested? {
        HeldChild(values[0].value, fields[0].child, hashes, base);
      }
    }
  }

  lemma {:induction false} HeldChild(v: Value, child: Node, hashes: Hashes, base: string)
    requires Shaped(v, child) && WellNamed(child) && Holds(hashes, Encode(v, child, base))
    ensures Stored(v, child, hashes, base)
    ensures AlwaysWritten(child) ==> HashAt(hashes, base + child.suffix) != map[]
    decreases child, 1
  {
    var own := Write(base + child.suffix, Pairs(v.fields, child.fields, base));
    HoldsParts(hashes, EncodeFields(v.fields, child.fields, base), [own]);
    assert HashAt(hashes, [own][0].key) == [own][0].values;
    PairsNames(v.fields, child.fields, base);
    HeldIsStored(v, child, hashes, base);
  }

  lemma HoldsParts(hashes: Hashes, left: seq<Write>, right: seq<Write>)
    ensures Holds(hashes, left + right) <==> Holds(hashes, left) && Holds(hashes, right)
  {
    if Holds(hashes, left + right) {
      assert forall i | 0 <= i < |left| :: (left + right)[i] == left[i];
      assert forall i | 0 <= i < |right| :: (left + right)[|left| + i] == right[i];
    }
  }

  // ---------------------------------------------------------------- round trip through the store

  function WriteKeys(writes: seq<Write>): seq<Key> {
    if writes == [] then [] else [writes[0].key] + WriteKeys(writes[1..])
  }

  lemma {:induction false} WriteKeysAt(writes: seq<Write>)
    ensures |WriteKeys(writes)| == |writes| && forall i | 0 <= i < |writes| :: WriteKeys(writes)[i] == writes[i].key
  {
    if writes != [] {
      WriteKeysAt(writes[1..]);
    }
  }

  lemma WriteKeysConcat(left: seq<Write>, right: seq<Write>)
    ensures WriteKeys(left + right) == WriteKeys(left) + WriteKeys(right)
  {
    WriteKeysAt(left);
    WriteKeysAt(right);
    WriteKeysAt(left + right);
  }

  lemma DistinctConcat<T>(left: seq<T>, right: seq<T>)
    ensures Distinct(left + right) <==> Distinct(left) && Distinct(right) && forall x | x in left :: x !in right
  {
    var all := left + right;
    if Distinct(all) {
      assert forall i | 0 <= i < |left| :: all[i] == left[i];
      assert forall i | 0 <= i < |right| :: all[|left| + i] == right[i];
    } else {
      var i, j :| 0 <= i < j < |all| && all[i] == all[j];
      assert i < |left| ==> all[i] in left;
      assert |left| <= j ==> all[j] in right;
      assert |left| <= i ==> right[i - |left|] == right[j - |left|];
    }
  }

  /** A value's hashes are hashes of the layout, each written once. */
  lemma {:induction false} EncodeKeys(v: Value, node: Node, base: string)
    requires Shaped(v, node) && Distinct(CollectKeys(node, base))
    ensures var keys := WriteKeys(Encode(v, node, base));
            Distinct(keys) && forall key | key in keys :: key in CollectKeys(node, base)
    decreases node
  {
    var below := EncodeFields(v.fields, node.fields, base);
    var own := Write(base + node.suffix, Pairs(v.fields, node.fields, base));
    DistinctConcat([base + node.suffix], CollectFieldKeys(node.fields, base));
    EncodeFieldsKeys(v.fields, node.fields, base);
    WriteKeysConcat(below, [own]);
    assert WriteKeys([own]) == [own.key];
    DistinctConcat(WriteKeys(below), [own.key]);
  }

  lemma {:induction false} EncodeFieldsKeys(values: seq<FieldValue>, fields: seq<Field>, base: string)
    requires FieldsShaped(values, fields) && Distinct(CollectFieldKeys(fields, base))
    ensures var keys := WriteKeys(EncodeFields(values, fields, base));
            Distinct(keys) && forall key | key in keys :: key in CollectFieldKeys(fields, base)
    decreases fields
  {
    if fields != [] {
      var first := if values[0].Nested? then Encode(values[0].value, fields[0].child, base) else [];
      var rest := EncodeFields(values[1..], fields[1..], base);
      var here := if fields[0].StructField? then CollectKeys(fields[0].child, base) else [];
      DistinctConcat(here, CollectFieldKeys(fields[1..], base));
      if values[0].Nested? {
        EncodeKeys(values[0].value, fields[0].child, base);
      }
      EncodeFieldsKeys(values[1..], fields[1..], base);
      WriteKeysConcat(first, rest);
      DistinctConcat(WriteKeys(first), WriteKeys(rest));
    }
  }

  /** The entity key in front of every suffix keeps the keys distinct. */
  lemma {:induction false} CollectKeysAt(node: Node, base: string)
    ensures var keys, suffixes := CollectKeys(node, base), CollectKeys(node, "");
            |keys| == |suffixes| && forall i | 0 <= i < |keys| :: keys[i] == base + suffixes[i]
    decreases node
  {
    CollectFieldKeysAt(node.fields, base);
    assert "" + node.suffix == node.suffix;
  }

  lemma {:induction false} CollectFieldKeysAt(fields: seq<Field>, base: string)
    ensures var keys, suffixes := CollectFieldKeys(fields, base), CollectFieldKeys(fields, "");
            |keys| == |suffixes| && forall i | 0 <= i < |keys| :: keys[i] == base + suffixes[i]
    decreases fields
  {
    if fields != [] {
      CollectFieldKeysAt(fields[1..], base);
      if fields[0].StructField? {
        CollectKeysAt(fields[0].child, base);
      }
    }
  }

  lemma CollectKeysDistinct(node: Node, base: string)
    requires Distinct(CollectKeys(node, ""))
    ensures Distinct(CollectKeys(node, base))
  {
    CollectKeysAt(node, base);
    var keys, suffixes := CollectKeys(node, base), CollectKeys(node, "");
    forall i, j | 0 <= i < j < |keys| ensures keys[i] != keys[j] {
      assert keys[i][|base|..] == suffixes[i] && keys[j][|base|..] == suffixes[j];
    }
  }

  lemma {:induction false} SuffixesStart(node: Node, i: nat)
    requires WellNamed(node) && i < |CollectKeys(node, "")|
    ensures CollectKeys(node, "")[i] != "" && CollectKeys(node, "")[i][0] == ':'
    decreases node
  {
    assert "" + node.suffix == node.suffix;
    if i > 0 {
      FieldSuffixesStart(node.fields, i - 1);
    }
  }

  lemma {:induction false} FieldSuffixesStart(fields: seq<Field>, i: nat)
    requires FieldsWellNamed(fields) && i < |CollectFieldKeys(fields, "")|
    ensures CollectFieldKeys(fields, "")[i] != "" && CollectFieldKeys(fields, "")[i][0] == ':'
    decreases fields
  {
    var first := if fields[0].StructField? then CollectKeys(fields[0].child, "") else [];
    if i < |first| {
      SuffixesStart(fields[0].child, i);
    } else {
      FieldSuffixesStart(fields[1..], i - |first|);
    }
  }

  /** An entity key that leaves clean suffixes clean: no newline, no white space in front. */
  predicate CleanBase(base: string) {
    '\n' !in base && (base == "" || !RefHMapText.Space(RefHMapText.Go, base[0]))
  }

  lemma CleanKeyExactly(base: string, suffix: string)
    requires suffix != "" && suffix[0] == ':'
    ensures RefHMapText.Clean(base + suffix) <==> CleanBase(base) && RefHMapText.Clean(suffix)
  {
    var key := base + suffix;
    assert key[|key| - 1] == suffix[|suffix| - 1];
    assert key[0] == if base == "" then suffix[0] else base[0];
    assert forall c :: c in key <==> c in base || c in suffix;
  }

  /** The hash keys of a record are clean exactly when the entity key is and the suffixes of the layout are. */
  lemma KeysCleanExactly(root: Node, base: string)
    requires WellNamed(root)
    ensures RefHMapText.AllClean(CollectKeys(root, base))
       <==> CleanBase(base) && RefHMapText.AllClean(CollectKeys(root, ""))
  {
    var keys, suffixes := CollectKeys(root, base), CollectKeys(root, "");
    CollectKeysAt(root, base);
    forall i | 0 <= i < |keys|
      ensures RefHMapText.Clean(keys[i]) <==> CleanBase(base) && RefHMapText.Clean(suffixes[i])
    {
      SuffixesStart(root, i);
      CleanKeyExactly(base, suffixes[i]);
    }
    assert keys[0] in keys && suffixes[0] in suffixes;
    if RefHMapText.AllClean(keys) {
      forall i | 0 <= i < |suffixes| ensures CleanBase(base) && RefHMapText.Clean(suffixes[i]) {
        assert keys[i] in keys;
      }
    }
  }

  function FieldsOf(store: Store): Hashes {
    map key | key in store :: store[key].fields
  }

  lemma {:induction false} WriteAllHolds(writes: seq<Write>)
    requires Distinct(WriteKeys(writes))
    ensures Holds(FieldsOf(WriteAll(map[], writes)), writes)
    ensures forall key | key in WriteAll(map[], writes) :: key in WriteKeys(writes)
  {
    if writes != [] {
      var front, last := writes[..|writes| - 1], writes[|writes| - 1];
      assert writes == front + [last];
      WriteKeysConcat(front, [last]);
      WriteKeysAt(front);
      assert WriteKeys([last]) == [last.key];
      DistinctConcat(WriteKeys(front), [last.key]);
      WriteAllHolds(front);
    }
  }

  /** The registry joins the root hash, the last one written; the other hashes are as encoded. */
  lemma {:induction false} WithRegistryLast(layout: Layout, front: seq<Write>, last: Write)
    requires layout != [] && last.key == layout[0] && forall i | 0 <= i < |front| :: front[i].key != layout[0]
    ensures WithRegistry(layout, front + [last])
         == front + [Write(layout[0], last.values[REGISTRY := RefHMapText.Join(layout)])]
  {
    var all := front + [last];
    if front != [] {
      assert all[1..] == front[1..] + [last];
      WithRegistryLast(layout, front[1..], last);
    }
  }

  /** The encoded record is a valid argument of the Set script. */
  lemma EncodeIsValidWrite(root: Node, v: Value, base: string)
    requires Accepted(root) && Shaped(v, root)
    ensures var layout := CollectKeys(root, base);
            forall w | w in Encode(v, root, base) :: ValidWrite(layout, w)
  {
    var layout, writes := CollectKeys(root, base), Encode(v, root, base);
    CollectKeysDistinct(root, base);
    EncodeKeys(v, root, base);
    WriteKeysAt(writes);
    PairsNames(v.fields, root.fields, base);
    forall i | 0 <= i < |writes| ensures ValidWrite(layout, writes[i]) {
      assert WriteKeys(writes)[i] in WriteKeys(writes);
      if i < |writes| - 1 {
        assert WriteKeys(writes)[i] != WriteKeys(writes)[|writes| - 1];
      }
    }
  }

  /**
   Whatever a Set of an accepted layout stores, a Get reads back, nil pointers and empty
   all-pointer children included.
   */
  lemma SetThenGet(root: Node, v: Value, base: string, now: int, ttl: nat)
    requires Accepted(root) && Shaped(v, root)
    ensures var layout := CollectKeys(root, base);
            var store := Refresh(WriteAll(map[], WithRegistry(layout, Encode(v, root, base))), layout, now, ttl);
            Get(root, FieldsOf(store), base) == Found(v)
  {
    var layout := CollectKeys(root, base);
    var below := EncodeFields(v.fields, root.fields, base);
    var own := Write(layout[0], Pairs(v.fields, root.fields, base));
    var listed := Write(layout[0], own.values[REGISTRY := RefHMapText.Join(layout)]);
    SetWrites(root, v, base, listed);
    WriteAllHolds(below + [listed]);
    var hashes := FieldsOf(Refresh(WriteAll(map[], below + [listed]), layout, now, ttl));
    assert hashes == FieldsOf(WriteAll(map[], below + [listed]));
    HoldsParts(hashes, below, [listed]);
    assert HashAt(hashes, [listed][0].key) == listed.values by { assert REGISTRY in listed.values; }
    assert AgreeOn(Names(root.fields), listed.values, own.values);
    HeldIsStored(v, root, hashes, base);
    DecodeStored(v, root, hashes, base);
  }

  /** What the Set script writes: the encoded hashes, the registry added to the root, each key once. */
  lemma SetWrites(root: Node, v: Value, base: string, listed: Write)
    requires Accepted(root) && Shaped(v, root)
    requires var layout := CollectKeys(root, base);
             listed == Write(layout[0], Pairs(v.fields, root.fields, base)[REGISTRY := RefHMapText.Join(layout)])
    ensures var layout, all := CollectKeys(root, base), EncodeFields(v.fields, root.fields, base) + [listed];
            WithRegistry(layout, Encode(v, root, base)) == all && Distinct(WriteKeys(all))
  {
    var layout, below := CollectKeys(root, base), EncodeFields(v.fields, root.fields, base);
    var own := Write(layout[0], Pairs(v.fields, root.fields, base));
    CollectKeysDistinct(root, base);
    EncodeKeys(v, root, base);
    WriteKeysConcat(below, [own]);
    WriteKeysConcat(below, [listed]);
    assert WriteKeys([own]) == [own.key] == WriteKeys([listed]);
    DistinctConcat(WriteKeys(below), [own.key]);
    WriteKeysAt(below);
    assert forall i | 0 <= i < |below| :: WriteKeys(below)[i] in WriteKeys(below);
    WithRegistryLast(layout, below, own);
  }

  /** In every run a Set that passes the guard is what a Get right after it reads, whatever the record held before. */
  lemma PassedSetIsRead(actions: seq<Action>, root: Node, v: Value, base: string, ttl: nat, index: nat)
    requires Accepted(root) && Shaped(v, root)
    requires forall i | 0 <= i < |actions| :: Agreed(actions[i], base + root.suffix, ttl)
    requires index < |Run(actions).pending|
    requires Run(actions).pending[index].op == SetOp(CollectKeys(root, base), Encode(v, root, base), ttl)
    ensures var s := Run(actions);
            var (store, passed) := RunScript(s.now, s.store, s.pending[index]);
            passed ==> Get(root, FieldsOf(store), base) == Found(v)
  {
    ScriptReplacesWholeRecord(actions, base + root.suffix, ttl, index);
    SetThenGet(root, v, base, Run(actions).now, ttl);
  }
}
