/**
 * Field-to-column lookup in a parquet file's schema: a depth-first walk records, for
 * every leaf (primitive) node, its index among its parent's children; the desired
 * fields are then looked up in that map, in order.
 */
module ParquetOps {
  import opened Wrappers
  import opened Maps

  /** A parquet schema tree; only the names matter to the lookup. */
  datatype SchemaNode =
    | Primitive(name: string)
    | Group(name: string, fields: seq<SchemaNode>)

  /** A parquet source: the file to read and the fields wanted from it, in order. */
  datatype Parquet = Parquet(filename: string, desiredFields: seq<string>)

  datatype ParquetError = FieldNotFound(field: string)

  /** `Parquet::new`: stores its arguments; there is no validation, so it cannot fail. */
  function New(filename: string, desiredFields: seq<string>): (r: Result<Parquet, ParquetError>)
    ensures r.Success?
    ensures r.value.filename == filename && r.value.desiredFields == desiredFields
  {
    Success(Parquet(filename, desiredFields))
  }

  /**
   * The map insertions the walk makes, in order, for a node numbered `colNum`: a leaf
   * inserts its own name; a group inserts nothing itself and then walks its children,
   * each numbered by its position among them.
   */
  function Entries(node: SchemaNode, colNum: nat): seq<(string, nat)>
    decreases node, 1
  {
    match node
    case Primitive(name) => [(name, colNum)]
    case Group(_, _) => ChildEntries(node, 0)
  }

  /** The insertions made by the children of a group from the `k`-th on. */
  function ChildEntries(parent: SchemaNode, k: nat): seq<(string, nat)>
    requires parent.Group? && k <= |parent.fields|
    decreases parent, 0, |parent.fields| - k
  {
    if k == |parent.fields| then []
    else Entries(parent.fields[k], k) + ChildEntries(parent, k + 1)
  }

  /** The field map `get_desired_cols` builds: the root walked as column 0 into an empty map. */
  function FieldMap(schema: SchemaNode): map<string, nat>
  {
    InsertAll(map[], Entries(schema, 0))
  }

  /** Whether some leaf of the tree carries this name. */
  predicate HasLeaf(node: SchemaNode, name: string)
  {
    match node
    case Primitive(n) => n == name
    case Group(_, fields) => exists i :: 0 <= i < |fields| && HasLeaf(fields[i], name)
  }

  /** Only leaves make entries: every name the walk inserts is a leaf's name. */
  lemma {:induction false} EntriesAreLeaves(node: SchemaNode, colNum: nat, e: (string, nat))
    requires e in Entries(node, colNum)
    ensures HasLeaf(node, e.0)
    decreases node, 1
  {
    match node
    case Primitive(_) =>
    case Group(_, _) => ChildEntriesAreLeaves(node, 0, e);
  }

  lemma {:induction false} ChildEntriesAreLeaves(parent: SchemaNode, k: nat, e: (string, nat))
    requires parent.Group? && k <= |parent.fields|
    requires e in ChildEntries(parent, k)
    ensures HasLeaf(parent, e.0)
    decreases parent, 0, |parent.fields| - k
  {
    if k < |parent.fields| {
      if e in Entries(parent.fields[k], k) {
        EntriesAreLeaves(parent.fields[k], k, e);
      } else {
        ChildEntriesAreLeaves(parent, k + 1, e);
      }
    }
  }

  /** Every leaf makes an entry. */
  lemma {:induction false} LeavesHaveEntries(node: SchemaNode, colNum: nat, name: string)
    requires HasLeaf(node, name)
    ensures exists e :: e in Entries(node, colNum) && e.0 == name
    decreases node, 1
  {
    match node
    case Primitive(_) =>
      assert (name, colNum) in Entries(node, colNum);
    case Group(_, fields) =>
      var i :| 0 <= i < |fields| && HasLeaf(fields[i], name);
      ChildLeavesHaveEntries(node, 0, i, name);
  }

  lemma {:induction false} ChildLeavesHaveEntries(parent: SchemaNode, k: nat, i: nat, name: string)
    requires parent.Group? && k <= i < |parent.fields|
    requires HasLeaf(parent.fields[i], name)
    ensures exists e :: e in ChildEntries(parent, k) && e.0 == name
    decreases parent, 0, |parent.fields| - k
  {
    if k == i {
      LeavesHaveEntries(parent.fields[k], k, name);
      var e :| e in Entries(parent.fields[k], k) && e.0 == name;
      assert e in ChildEntries(parent, k);
    } else {
      ChildLeavesHaveEntries(parent, k + 1, i, name);
      var e :| e in ChildEntries(parent, k + 1) && e.0 == name;
      assert e in ChildEntries(parent, k);
    }
  }

  /**
   * A name is in the field map iff some leaf carries it; a group's name, the root's
   * among them, never gets an entry of its own.
   */
  lemma FieldMapKeys(schema: SchemaNode, name: string)
    ensures name in FieldMap(schema) <==> HasLeaf(schema, name)
  {
    InsertAllKeys(map[], Entries(schema, 0), name);
    if name in FieldMap(schema) {
      var e :| e in Entries(schema, 0) && e.0 == name;
      EntriesAreLeaves(schema, 0, e);
    }
    if HasLeaf(schema, name) {
      LeavesHaveEntries(schema, 0, name);
    }
  }

  /** Some group of the tree, `node` itself included, has `Primitive(name)` as its child number `v`. */
  predicate ChildLeafAt(node: SchemaNode, name: string, v: nat)
    decreases node
  {
    match node
    case Primitive(_) => false
    case Group(_, fields) =>
      || (v < |fields| && fields[v] == Primitive(name))
      || exists i :: 0 <= i < |fields| && ChildLeafAt(fields[i], name, v)
  }

  /**
   * Every entry the walk makes pairs a leaf's name with that leaf's position among its
   * parent's children; only a lone leaf walked on its own carries the number it was given.
   */
  lemma {:induction false} EntryPositions(node: SchemaNode, colNum: nat, e: (string, nat))
    requires e in Entries(node, colNum)
    ensures (node == Primitive(e.0) && e.1 == colNum) || ChildLeafAt(node, e.0, e.1)
    decreases node, 1
  {
    match node
    case Primitive(_) =>
    case Group(_, _) => ChildEntryPositions(node, 0, e);
  }

  lemma {:induction false} ChildEntryPositions(parent: SchemaNode, k: nat, e: (string, nat))
    requires parent.Group? && k <= |parent.fields|
    requires e in ChildEntries(parent, k)
    ensures ChildLeafAt(parent, e.0, e.1)
    decreases parent, 0, |parent.fields| - k
  {
    if k < |parent.fields| {
      if e in Entries(parent.fields[k], k) {
        EntryPositions(parent.fields[k], k, e);
      } else {
        ChildEntryPositions(parent, k + 1, e);
      }
    }
  }

  /**
   * For any schema tree, the number a name gets is a position within a parent: the name's
   * leaf is that child of some group (or the schema is that one leaf, numbered 0); and it
   * is the number of the last leaf of that name in the depth-first, left-to-right walk.
   */
  lemma FieldMapValues(schema: SchemaNode, name: string)
    requires name in FieldMap(schema)
    ensures || (schema == Primitive(name) && FieldMap(schema)[name] == 0)
            || ChildLeafAt(schema, name, FieldMap(schema)[name])
    ensures exists i :: && 0 <= i < |Entries(schema, 0)|
                        && Entries(schema, 0)[i] == (name, FieldMap(schema)[name])
                        && forall j :: i < j < |Entries(schema, 0)| ==> Entries(schema, 0)[j].0 != name
  {
    var es := Entries(schema, 0);
    InsertAllKeys(map[], es, name);
    InsertAllLastEntry(map[], es, name);
    var i :| && 0 <= i < |es| && es[i].0 == name
             && FieldMap(schema)[name] == es[i].1
             && forall j :: i < j < |es| ==> es[j].0 != name;
    EntryPositions(schema, 0, es[i]);
  }

  /**
   * In a group whose children are all leaves, the entries are the leaf names with their
   * positions.
   */
  lemma {:induction false} FlatChildEntries(parent: SchemaNode, k: nat)
    requires parent.Group? && k <= |parent.fields|
    requires forall i :: 0 <= i < |parent.fields| ==> parent.fields[i].Primitive?
    ensures |ChildEntries(parent, k)| == |parent.fields| - k
    ensures forall j :: 0 <= j < |parent.fields| - k ==>
      ChildEntries(parent, k)[j] == (parent.fields[k + j].name, k + j)
    decreases |parent.fields| - k
  {
    if k < |parent.fields| {
      FlatChildEntries(parent, k + 1);
    }
  }

  /**
   * For a flat schema with distinct leaf names, the field map sends each leaf's name to
   * its position.
   */
  lemma FlatSchemaPositions(root: string, fields: seq<SchemaNode>, i: nat)
    requires forall j :: 0 <= j < |fields| ==> fields[j].Primitive?
    requires forall j, l :: 0 <= j < l < |fields| ==> fields[j].name != fields[l].name
    requires i < |fields|
    ensures fields[i].name in FieldMap(Group(root, fields))
    ensures FieldMap(Group(root, fields))[fields[i].name] == i
  {
    var schema := Group(root, fields);
    var es := Entries(schema, 0);
    FlatChildEntries(schema, 0);
    assert es == es[..i] + [(fields[i].name, i)] + es[i + 1..];
    forall e | e in es[i + 1..] ensures e.0 != fields[i].name {
      var j :| 0 <= j < |es[i + 1..]| && es[i + 1..][j] == e;
      assert e == es[i + 1 + j];
    }
    InsertAllLastWins(map[], es[..i], fields[i].name, i, es[i + 1..]);
  }

  /**
   * The walk as the program performs it, into a map it updates and hands back: a leaf
   * records its number, a group walks each child with the child's position.
   */
  method MapFieldsToCols(fieldMap: map<string, nat>, schema: SchemaNode, depth: nat, colNum: nat)
    returns (r: map<string, nat>)
    ensures r == InsertAll(fieldMap, Entries(schema, colNum))
    decreases schema
  {
    r := fieldMap;
    match schema {
      case Primitive(name) =>
        r := r[name := colNum];
        assert [(name, colNum)][1..] == [];
      case Group(_, fields) =>
        var k := 0;
        while k < |fields|
          invariant 0 <= k <= |fields|
          invariant InsertAll(r, ChildEntries(schema, k)) == InsertAll(fieldMap, Entries(schema, colNum))
        {
          var before := r;
          r := MapFieldsToCols(r, fields[k], depth + 1, k);
          InsertAllAppend(before, Entries(fields[k], k), ChildEntries(schema, k + 1));
          k := k + 1;
        }
    }
  }

  /** Looks the desired fields up in order; the first one absent fails the whole lookup. */
  function DesiredCols(fieldMap: map<string, nat>, desired: seq<string>): Result<seq<nat>, ParquetError>
  {
    if desired == [] then Success([])
    else if desired[0] !in fieldMap then Failure(FieldNotFound(desired[0]))
    else Prefixed([fieldMap[desired[0]]], DesiredCols(fieldMap, desired[1..]))
  }

  function Prefixed(cols: seq<nat>, r: Result<seq<nat>, ParquetError>): Result<seq<nat>, ParquetError>
  {
    match r
    case Success(rest) => Success(cols + rest)
    case Failure(e) => Failure(e)
  }

  lemma PrefixedEmpty(r: Result<seq<nat>, ParquetError>)
    ensures Prefixed([], r) == r
  {
    if r.Success? {
      assert [] + r.value == r.value;
    }
  }

  lemma PrefixedAppend(cols: seq<nat>, x: nat, r: Result<seq<nat>, ParquetError>)
    ensures Prefixed(cols, Prefixed([x], r)) == Prefixed(cols + [x], r)
  {
    if r.Success? {
      assert cols + ([x] + r.value) == cols + [x] + r.value;
    }
  }

  /**
   * The lookup succeeds iff every desired field is in the map, and then gives, position
   * by position, the field's column number, repeats included; otherwise it names the
   * first desired field that is missing and returns nothing else.
   */
  lemma {:induction false} DesiredColsSpec(fieldMap: map<string, nat>, desired: seq<string>)
    ensures DesiredCols(fieldMap, desired).Success? <==> forall i :: 0 <= i < |desired| ==> desired[i] in fieldMap
    ensures DesiredCols(fieldMap, desired).Success? ==>
      |DesiredCols(fieldMap, desired).value| == |desired|
      && forall i :: 0 <= i < |desired| ==> DesiredCols(fieldMap, desired).value[i] == fieldMap[desired[i]]
    ensures DesiredCols(fieldMap, desired).Failure? ==>
      exists k :: 0 <= k < |desired| && desired[k] !in fieldMap
        && (forall i :: 0 <= i < k ==> desired[i] in fieldMap)
        && DesiredCols(fieldMap, desired).error == FieldNotFound(desired[k])
    decreases |desired|
  {
    if desired != [] {
      DesiredColsSpec(fieldMap, desired[1..]);
      if desired[0] in fieldMap && DesiredCols(fieldMap, desired[1..]).Failure? {
        var k :| 0 <= k < |desired[1..]| && desired[1..][k] !in fieldMap
          && (forall i :: 0 <= i < k ==> desired[1..][i] in fieldMap)
          && DesiredCols(fieldMap, desired[1..]).error == FieldNotFound(desired[1..][k]);
        assert desired[k + 1] !in fieldMap;
        assert forall i :: 1 <= i < k + 1 ==> desired[i] == desired[1..][i - 1];
      }
      if desired[0] in fieldMap && DesiredCols(fieldMap, desired[1..]).Success? {
        assert forall i :: 1 <= i < |desired| ==> desired[i] == desired[1..][i - 1];
      }
    }
  }

  /**
   * `get_desired_cols`: builds the field map from the schema the file's metadata holds,
   * then looks each desired field up in order, pushing its column number.
   */
  method GetDesiredCols(pq: Parquet, schema: SchemaNode) returns (r: Result<seq<nat>, ParquetError>)
    ensures r == DesiredCols(FieldMap(schema), pq.desiredFields)
  {
    var fieldMap := MapFieldsToCols(map[], schema, 0, 0);
    var desired := pq.desiredFields;
    var desiredCols: seq<nat> := [];
    var i := 0;
    assert desired[0..] == desired;
    PrefixedEmpty(DesiredCols(fieldMap, desired));
    while i < |desired|
      invariant 0 <= i <= |desired|
      invariant DesiredCols(fieldMap, desired) == Prefixed(desiredCols, DesiredCols(fieldMap, desired[i..]))
    {
      assert desired[i..][1..] == desired[i + 1..];
      if desired[i] !in fieldMap {
        return Failure(FieldNotFound(desired[i]));
      }
      PrefixedAppend(desiredCols, fieldMap[desired[i]], DesiredCols(fieldMap, desired[i + 1..]));
      desiredCols := desiredCols + [fieldMap[desired[i]]];
      i := i + 1;
    }
    assert desired[i..] == [];
    assert desiredCols + [] == desiredCols;
    return Success(desiredCols);
  }

  /** The schema of the iris sample file: five leaves under the root message. */
  const IrisSchema := Group("duckdb_schema", [
    Primitive("sepal.length"), Primitive("sepal.width"), Primitive("petal.length"),
    Primitive("petal.width"), Primitive("variety")])

  lemma IrisFieldMap()
    ensures "variety" in FieldMap(IrisSchema) && FieldMap(IrisSchema)["variety"] == 4
    ensures "sepal.length" in FieldMap(IrisSchema) && FieldMap(IrisSchema)["sepal.length"] == 0
    ensures "does.not.exist" !in FieldMap(IrisSchema)
  {
    IrisIsFlat();
    FlatSchemaPositions("duckdb_schema", IrisSchema.fields, 4);
    FlatSchemaPositions("duckdb_schema", IrisSchema.fields, 0);
    IrisLeaves("does.not.exist");
  }

  lemma IrisIsFlat()
    ensures forall j :: 0 <= j < |IrisSchema.fields| ==> IrisSchema.fields[j].Primitive?
    ensures forall j, l :: 0 <= j < l < |IrisSchema.fields| ==> IrisSchema.fields[j].name != IrisSchema.fields[l].name
  {
  }

  /** The root message's name is not a field, and neither is any name other than the five leaves'. */
  lemma IrisLeaves(name: string)
    requires name !in {"sepal.length", "sepal.width", "petal.length", "petal.width", "variety"}
    ensures name !in FieldMap(IrisSchema)
  {
    FieldMapKeys(IrisSchema, name);
  }

  /** Selecting variety and sepal.length from iris gives columns 4 and 0; a repeat repeats. */
  lemma IrisDesiredCols()
    ensures DesiredCols(FieldMap(IrisSchema), ["variety", "sepal.length"]) == Success([4, 0])
    ensures DesiredCols(FieldMap(IrisSchema), ["variety", "sepal.length", "variety"]) == Success([4, 0, 4])
    ensures DesiredCols(FieldMap(IrisSchema), ["variety", "sepal.length", "does.not.exist"]) == Failure(FieldNotFound("does.not.exist"))
  {
    IrisFieldMap();
    var m := FieldMap(IrisSchema);
    assert ["variety", "sepal.length"][1..] == ["sepal.length"];
    assert ["sepal.length"][1..] == [];
    assert ["variety", "sepal.length", "variety"][1..] == ["sepal.length", "variety"];
    assert ["sepal.length", "variety"][1..] == ["variety"];
    assert ["variety"][1..] == [];
    assert ["variety", "sepal.length", "does.not.exist"][1..] == ["sepal.length", "does.not.exist"];
    assert ["sepal.length", "does.not.exist"][1..] == ["does.not.exist"];
    assert DesiredCols(m, []) == Success([]);
    assert [0] + [] == [0] && [4] + [] == [4];
    assert [0] + [4] == [0, 4] && [4] + [0] == [4, 0] && [4] + [0, 4] == [4, 0, 4];
    assert DesiredCols(m, ["sepal.length"]) == Success([0]);
    assert DesiredCols(m, ["variety"]) == Success([4]);
    assert DesiredCols(m, ["sepal.length", "variety"]) == Success([0, 4]);
    assert DesiredCols(m, ["variety", "sepal.length"]) == Success([4, 0]);
  }

  /**
   * A leaf's number is its position within its own parent, not among all leaves; and
   * of two leaves with one name, the one the walk reaches last decides.
   */
  lemma NestedNumberingIsLocal()
    ensures FieldMap(Group("root", [Primitive("a"), Group("g", [Primitive("b"), Primitive("a")])])) == map["a" := 1, "b" := 0]
  {
    var schema := Group("root", [Primitive("a"), Group("g", [Primitive("b"), Primitive("a")])]);
    var g := schema.fields[1];
    assert ChildEntries(g, 2) == [];
    assert ChildEntries(g, 1) == [("a", 1)];
    assert ChildEntries(g, 0) == [("b", 0), ("a", 1)];
    assert ChildEntries(schema, 2) == [];
    assert ChildEntries(schema, 1) == [("b", 0), ("a", 1)];
    assert Entries(schema, 0) == [("a", 0), ("b", 0), ("a", 1)];
    InsertAllAppend(map[], [("a", 0)], [("b", 0), ("a", 1)]);
    InsertAllAppend(map["a" := 0], [("b", 0)], [("a", 1)]);
    assert [("a", 0)][1..] == [] && [("b", 0)][1..] == [] && [("a", 1)][1..] == [];
    assert InsertAll(map[], [("a", 0)]) == map["a" := 0];
    assert InsertAll(map["a" := 0], [("b", 0)]) == map["a" := 0, "b" := 0];
    assert InsertAll(map["a" := 0, "b" := 0], [("a", 1)]) == map["a" := 1, "b" := 0];
  }
}
