/** Column extraction from struct values (util/reflect.go), over an explicit field
    tree instead of runtime reflection. A struct is a `Record` whose fields carry their
    raw tag and their value. */
module Reflect {
  import opened Common
  import Strs
  import Values

  /** The two parallel lists ExtractTags returns: one tag and one value per column. */
  datatype Extracted = Extracted(tags: seq<string>, vals: seq<Value>)

  /** Columns of one part followed by the columns of the next. */
  function Cat(x: Extracted, y: Extracted): Extracted
  {
    Extracted(x.tags + y.tags, x.vals + y.vals)
  }

  /** reflect.StructTag.Get: the value of the first pair with that key, or "" when none. */
  function TagGet(tag: seq<TagPair>, key: string): (r: string)
    ensures (forall i :: 0 <= i < |tag| ==> tag[i].key != key) ==> r == ""
  {
    if tag == [] then "" else if tag[0].key == key then tag[0].value else TagGet(tag[1..], key)
  }

  /** The test ExtractTags uses to descend into a field: a struct-kind field with no
      tag at all, unless its type name is a substring of "Time". Besides time.Time
      itself this also keeps as one column any struct type named "", "T", "Ti", "ime", ... */
  predicate IsFlattened(f: Field)
  {
    && Values.IsStructKind(f.value)
    && !Strs.IsSubstring(Values.TypeName(f.value), "Time")
    && f.tag == []
  }

  /** The columns of a list of fields, in declaration order, nested untagged
      structs spliced in where they stand. */
  function ExtractFields(fields: seq<Field>, tagName: string): (e: Extracted)
    ensures |e.tags| == |e.vals|
    decreases fields
  {
    if fields == [] then Extracted([], [])
    else
      var f := fields[0];
      var head :=
        if IsFlattened(f) && f.value.Record? then ExtractFields(f.value.fields, tagName)
        else Extracted([TagGet(f.tag, tagName)], [f.value]);
      Cat(head, ExtractFields(fields[1..], tagName))
  }

  /** ExtractTags: panics unless the input is a struct; otherwise one tag (possibly
      "") and one value per column, as many tags as values. */
  function ExtractTags(input: Value, tagName: string): (r: Outcome<Extracted>)
    ensures r.Panics? <==> !input.Record?
    ensures r.Returns? ==> |r.value.tags| == |r.value.vals|
  {
    if input.Record? then Returns(ExtractFields(input.fields, tagName))
    else Panics("input not a struct")
  }

  /** ExtractDBTags is ExtractTags with the `db` tag. */
  function ExtractDBTags(input: Value): (r: Outcome<Extracted>)
    ensures r.Panics? <==> !input.Record?
    ensures r.Returns? ==> r.value == ExtractFields(input.fields, "db") && |r.value.tags| == |r.value.vals|
  {
    ExtractTags(input, "db")
  }

  /** A flattened field is always a struct value that is not a time.Time. */
  lemma FlattenedIsRecord(f: Field)
    requires IsFlattened(f)
    ensures f.value.Record?
  {
  }

  /** Extraction distributes over concatenated field lists: columns keep the
      declaration order. */
  lemma {:induction false} ExtractFieldsAppend(a: seq<Field>, b: seq<Field>, tagName: string)
    ensures ExtractFields(a + b, tagName) == Cat(ExtractFields(a, tagName), ExtractFields(b, tagName))
    decreases |a|
  {
    if a == [] {
      assert a + b == b;
    } else {
      var f := a[0];
      assert (a + b)[0] == f;
      assert (a + b)[1..] == a[1..] + b;
      var head :=
        if IsFlattened(f) && f.value.Record? then ExtractFields(f.value.fields, tagName)
        else Extracted([TagGet(f.tag, tagName)], [f.value]);
      ExtractFieldsAppend(a[1..], b, tagName);
      var restA := ExtractFields(a[1..], tagName);
      var eb := ExtractFields(b, tagName);
      assert ExtractFields(a + b, tagName) == Cat(head, Cat(restA, eb));
      assert ExtractFields(a, tagName) == Cat(head, restA);
      CatAssoc(head, restA, eb);
    }
  }

  lemma CatAssoc(x: Extracted, y: Extracted, z: Extracted)
    ensures Cat(x, Cat(y, z)) == Cat(Cat(x, y), z)
  {
    assert x.tags + (y.tags + z.tags) == (x.tags + y.tags) + z.tags;
    assert x.vals + (y.vals + z.vals) == (x.vals + y.vals) + z.vals;
  }

  /** A field that is not flattened contributes exactly one column: its tag value
      under `tagName` and the field value itself. */
  lemma LeafFieldColumn(f: Field, tagName: string)
    requires !IsFlattened(f)
    ensures ExtractFields([f], tagName) == Extracted([TagGet(f.tag, tagName)], [f.value])
  {
    assert [f][1..] == [];
  }

  /** A nested struct without a tag is spliced in place of the field. */
  lemma FlattenedFieldColumns(f: Field, tagName: string)
    requires IsFlattened(f)
    ensures f.value.Record?
    ensures ExtractFields([f], tagName) == ExtractFields(f.value.fields, tagName)
  {
    FlattenedIsRecord(f);
    assert [f][1..] == [];
  }

  /** An untagged field of an anonymous struct type is one column, not flattened,
      because "" is a substring of "Time". */
  lemma AnonymousStructIsLeaf(fields: seq<Field>, tagName: string)
    ensures !IsFlattened(Field([], Record("", fields)))
  {
    assert Strs.HasPrefix("Time", "");
  }

  /** The values do not depend on the tag name, so column and value lists taken
      with two different tags have the same length. */
  lemma {:induction false} ValsIndependentOfTag(fields: seq<Field>, t1: string, t2: string)
    ensures ExtractFields(fields, t1).vals == ExtractFields(fields, t2).vals
    ensures |ExtractFields(fields, t1).tags| == |ExtractFields(fields, t2).vals|
    decreases fields
  {
    if fields != [] {
      var f := fields[0];
      if IsFlattened(f) && f.value.Record? {
        ValsIndependentOfTag(f.value.fields, t1, t2);
      }
      ValsIndependentOfTag(fields[1..], t1, t2);
    }
  }

  // ------------------------------------------------------------------ StructTags

  /** StructTags: nil for a non-struct; otherwise, field by field, nothing for a field
      whose tag value is "", the recursive tags of except[name] when the tag value is a
      key of `except`, and the tag value itself otherwise. */
  function StructTags(s: Value, tagName: string, except: map<string, Value>): (r: seq<string>)
    ensures !s.Record? ==> r == []
    ensures forall i :: 0 <= i < |r| ==> r[i] != ""
    decreases |except|, 1, 0
  {
    if s.Record? then FieldTags(s.fields, tagName, except) else []
  }

  /** The tags StructTags collects from a field list. None is "", and when no tag
      value is excepted they are the non-empty tag values in order. */
  function FieldTags(fields: seq<Field>, tagName: string, except: map<string, Value>): (r: seq<string>)
    ensures forall i :: 0 <= i < |r| ==> r[i] != ""
    ensures (forall i :: 0 <= i < |fields| ==> TagGet(fields[i].tag, tagName) !in except) ==> r == NonEmptyTags(fields, tagName)
    decreases |except|, 0, |fields|
  {
    if fields == [] then []
    else
      var name := TagGet(fields[0].tag, tagName);
      var head :=
        if name == "" then []
        else if name in except then StructTags(except[name], tagName, map[])
        else [name];
      head + FieldTags(fields[1..], tagName, except)
  }

  /** The tag values of the fields that have a non-empty one, in order. */
  function NonEmptyTags(fields: seq<Field>, tagName: string): (r: seq<string>)
    ensures forall i :: 0 <= i < |r| ==> r[i] != ""
  {
    if fields == [] then []
    else
      var name := TagGet(fields[0].tag, tagName);
      (if name == "" then [] else [name]) + NonEmptyTags(fields[1..], tagName)
  }

  /** With nothing excepted, StructTags lists the non-empty tag values in order, so
      no "" ever appears; a "-" tag value is kept like any other. */
  lemma {:induction false} StructTagsNoExcept(fields: seq<Field>, tagName: string)
    ensures FieldTags(fields, tagName, map[]) == NonEmptyTags(fields, tagName)
  {
    if fields != [] {
      StructTagsNoExcept(fields[1..], tagName);
    }
  }

  /** A field whose tag value is excepted is replaced by the tags of the substitute. */
  lemma ExceptedFieldTags(f: Field, tagName: string, except: map<string, Value>)
    requires TagGet(f.tag, tagName) != "" && TagGet(f.tag, tagName) in except
    ensures FieldTags([f], tagName, except) == StructTags(except[TagGet(f.tag, tagName)], tagName, map[])
  {
    assert [f][1..] == [];
  }

  // -------------------------------------------------------------- StructDataType

  /** The type label of one field: "_" and the element type for a slice, the type name otherwise, lower-cased. */
  function DataTypeOf(v: Value): string
  {
    if v.List? then "_" + Strs.LowerStr(v.elemType) else Strs.LowerStr(Values.TypeName(v))
  }

  /** StructDataType: nil for a non-struct, one lower-case type label per field
      otherwise, a slice field's label starting with "_". */
  function StructDataType(s: Value): (r: seq<string>)
    ensures !s.Record? ==> r == []
    ensures s.Record? ==> |r| == |s.fields|
    ensures forall i, k :: 0 <= i < |r| && 0 <= k < |r[i]| ==> !Strs.IsUpper(r[i][k])
    ensures s.Record? ==> forall i :: 0 <= i < |r| && s.fields[i].value.List? ==> |r[i]| > 0 && r[i][0] == '_'
    ensures s.Record? ==> forall i :: 0 <= i < |r| ==>
      r[i] == (if s.fields[i].value.List? then "_" + Strs.LowerStr(s.fields[i].value.elemType)
               else Strs.LowerStr(Values.TypeName(s.fields[i].value)))
  {
    if s.Record? then seq(|s.fields|, i requires 0 <= i < |s.fields| => DataTypeOf(s.fields[i].value)) else []
  }

  /** The struct of the package's own reflection test: name, age, time, an int
      slice, a time slice and an untagged-by-json string give the labels the test
      lists. */
  lemma StructDataTypeExample(now: Value)
    requires now.Time?
    ensures StructDataType(Record("structA", [
              Field([TagPair("json", "name")], Text("john")),
              Field([TagPair("json", "age")], Int(3)),
              Field([TagPair("json", "time")], now),
              Field([TagPair("json", "int_array")], List("int", [])),
              Field([TagPair("json", "time_array")], List("Time", [])),
              Field([TagPair("json", "-")], Text("xx"))]))
            == ["string", "int", "time", "_int", "_time", "string"]
  {
    DataTypeLabels(now);
  }

  /** The labels of the example's field values. */
  lemma DataTypeLabels(now: Value)
    requires now.Time?
    ensures DataTypeOf(Text("john")) == "string" && DataTypeOf(Int(3)) == "int" && DataTypeOf(now) == "time"
    ensures DataTypeOf(List("int", [])) == "_int" && DataTypeOf(List("Time", [])) == "_time"
  {
    assert Strs.LowerStr("string") == "string";
    assert Strs.LowerStr("int") == "int";
    assert Strs.LowerStr("Time") == "time";
    assert DataTypeOf(Text("john")) == "string";
    assert DataTypeOf(Int(3)) == "int";
    assert DataTypeOf(now) == "time";
    assert DataTypeOf(List("int", [])) == "_int";
    assert DataTypeOf(List("Time", [])) == "_time";
  }
}
