/**
 * The type system: field definitions, the values a field may hold, and the checks that
 * guard every write (types/types.go and the built-in kinds beside it).
 *
 * Checks that return an error in the source are predicates here: an error is `false`.
 */
module Types {
  import opened Common

  // ---------------------------------------------------------------- values

  /** A decoded JSON value, plus the []int64 that reads hand back for a reference list. */
  datatype Value =
    | Null
    | Bool(b: bool)
    | Int(i: int)
    | Float(r: real)
    | Str(s: string)
    | Ids(ids: seq<int>)
    | List(items: seq<Value>)
    | Obj(entries: map<string, Value>)

  type Fields = map<string, Value>

  // ---------------------------------------------------------------- definitions

  /** The registered kinds, and the two structural kinds Array and Object. */
  datatype Kind =
    | Text | Textarea | Richtext | Number | Boolean | Select | Timestamp
    | Image | Gallery | File | Slug | Ref | RefList
    | Array | Object

  predicate IsRefKind(k: Kind) { k == Ref || k == RefList }

  datatype FieldDef = FieldDef(
    name: string,
    kind: Kind,
    to: string,
    options: seq<string>,
    item: Option<FieldDef>,
    fields: seq<FieldDef>,
    required: bool,
    default: Option<Value>,
    immutable: bool,
    symmetric: bool,
    transitive: bool,
    equivalence: bool)

  datatype TypeDef = TypeDef(
    name: string,
    fields: seq<FieldDef>,
    searchable: Option<seq<string>>,
    addressable: Option<string>,
    treeParent: Option<string>)

  type Schema = map<string, TypeDef>

  function FieldByName(fs: seq<FieldDef>, name: string): (r: Option<FieldDef>)
    ensures r.Some? ==> r.value in fs && r.value.name == name
    ensures r.None? ==> forall f :: f in fs ==> f.name != name
  {
    if fs == [] then None
    else if fs[0].name == name then Some(fs[0])
    else FieldByName(fs[1..], name)
  }

  predicate DistinctNames(fs: seq<FieldDef>) {
    forall i, j :: 0 <= i < j < |fs| ==> fs[i].name != fs[j].name
  }

  lemma FieldByNameFinds(fs: seq<FieldDef>, f: FieldDef)
    requires DistinctNames(fs) && f in fs
    ensures FieldByName(fs, f.name) == Some(f)
  {
    var i :| 0 <= i < |fs| && fs[i] == f;
    var g := FieldByName(fs, f.name).value;
    var j :| 0 <= j < |fs| && fs[j] == g;
  }

  /** The field a type declares under a name. */
  function FieldOn(schema: Schema, typ: string, name: string): (r: Option<FieldDef>)
    ensures r.Some? ==> typ in schema && r.value in schema[typ].fields && r.value.name == name
  {
    if typ in schema then FieldByName(schema[typ].fields, name) else None
  }

  predicate Undirected(f: FieldDef) { f.symmetric || f.equivalence }

  predicate IsTreeParent(td: TypeDef, name: string) { td.treeParent == Some(name) }

  /** Fields whose edges must never close a cycle. */
  predicate Hierarchical(td: TypeDef, f: FieldDef) { f.transitive || IsTreeParent(td, f.name) }

  // ---------------------------------------------------------------- loading

  predicate PlainScalar(f: FieldDef) {
    f.to == "" && !f.symmetric && !f.transitive && !f.equivalence
  }

  predicate ValidRefField(schema: Schema, typ: string, f: FieldDef) {
    && f.to != "" && f.to in schema
    && !(f.symmetric && f.transitive) && !(f.symmetric && f.equivalence) && !(f.transitive && f.equivalence)
    && (f.symmetric || f.transitive || f.equivalence ==> f.to == typ)
  }

  const MAX_COMPOSITE_DEPTH := 4

  /** Array and object structure; references are not allowed at any nested level. */
  predicate ValidComposite(f: FieldDef, depth: nat)
    decreases f
  {
    && depth <= MAX_COMPOSITE_DEPTH
    && PlainScalar(f)
    && match f.kind
       case Array => f.item.Some? && f.fields == [] && ValidComposite(f.item.value, depth + 1)
       case Object =>
         && f.fields != [] && f.item.None? && DistinctNames(f.fields)
         && forall i :: 0 <= i < |f.fields| ==> ValidComposite(f.fields[i], depth + 1)
       case Ref => false
       case RefList => false
       case Select => f.options != [] && Distinct(f.options)
       case _ => true
  }

  predicate ValidTypeDef(schema: Schema, typ: string, td: TypeDef) {
    && td.name == typ
    && DistinctNames(td.fields)
    && (forall f :: f in td.fields ==>
       if IsRefKind(f.kind) then ValidRefField(schema, typ, f) else ValidComposite(f, 0))
    && (td.treeParent.Some? ==>
          var p := FieldByName(td.fields, td.treeParent.value);
          p.Some? && p.value.kind == Ref && p.value.to == typ)
  }

  /** What loading a schema guarantees. */
  predicate ValidSchema(schema: Schema) {
    forall typ :: typ in schema ==> ValidTypeDef(schema, typ, schema[typ])
  }

  /** No two types declare reference fields that share both name and target type. */
  predicate NoNameClash(schema: Schema) {
    forall s, t, f, g ::
      (&& s in schema && t in schema && f in schema[s].fields && g in schema[t].fields
       && IsRefKind(f.kind) && IsRefKind(g.kind) && f.name == g.name && f.to == g.to)
      ==> s == t
  }

  /** An undirected reference leads to its own type. */
  lemma UndirectedStaysHome(schema: Schema, typ: string, f: FieldDef)
    requires ValidSchema(schema) && typ in schema && f in schema[typ].fields && IsRefKind(f.kind) && Undirected(f)
    ensures f.to == typ
  {
    assert ValidTypeDef(schema, typ, schema[typ]);
  }

  // ---------------------------------------------------------------- kinds

  predicate IsSpace(c: char) {
    || '\t' <= c <= '\r' || c == ' ' || c == '\U{85}' || c == '\U{A0}' || c == '\U{1680}'
    || '\U{2000}' <= c <= '\U{200A}' || c == '\U{2028}' || c == '\U{2029}'
    || c == '\U{202F}' || c == '\U{205F}' || c == '\U{3000}'
  }

  predicate Blank(s: string) { forall i :: 0 <= i < |s| ==> IsSpace(s[i]) }

  predicate IsLetter(c: char) { 'a' <= c <= 'z' || 'A' <= c <= 'Z' }
  predicate IsDigit(c: char) { '0' <= c <= '9' }

  /** A letter first; then letters, digits, '_' and '-' with no two dashes in a row. */
  predicate ValidSlug(s: string) {
    && s != "" && IsLetter(s[0])
    && (forall i :: 1 <= i < |s| ==> IsLetter(s[i]) || IsDigit(s[i]) || s[i] == '_' || s[i] == '-')
    && (forall i :: 1 <= i < |s| - 1 ==> !(s[i] == '-' && s[i + 1] == '-'))
  }

  function Digits2(s: string, i: nat): int
    requires i + 2 <= |s|
  {
    10 * (s[i] as int - '0' as int) + (s[i + 1] as int - '0' as int)
  }

  function DaysIn(year: int, month: int): int {
    if month == 2 then (if year % 4 == 0 && (year % 100 != 0 || year % 400 == 0) then 29 else 28)
    else if month in {4, 6, 9, 11} then 30 else 31
  }

  /** The one accepted spelling of an instant: 2006-01-02T15:04:05Z. */
  predicate CanonicalTime(s: string) {
    && |s| == 20 && s[4] == '-' && s[7] == '-' && s[10] == 'T' && s[13] == ':' && s[16] == ':' && s[19] == 'Z'
    && (forall i :: 0 <= i < 20 && i !in {4, 7, 10, 13, 16, 19} ==> IsDigit(s[i]))
    && 1 <= Digits2(s, 5) <= 12
    && 1 <= Digits2(s, 8) <= DaysIn(100 * Digits2(s, 0) + Digits2(s, 2), Digits2(s, 5))
    && Digits2(s, 11) < 24 && Digits2(s, 14) < 60 && Digits2(s, 17) < 60
  }

  /** The single place where a value becomes a node id. */
  function ToID(v: Value): Option<int> {
    match v
    case Int(i) => Some(i)
    case Float(r) => if r.Floor as real == r then Some(r.Floor) else None
    case _ => None
  }

  /** Both spellings of a list of ids: decoded JSON and the read projection. */
  function AsItems(v: Value): Option<seq<Value>> {
    match v
    case List(items) => Some(items)
    case Ids(ids) => Some(MapSeq(ids, i => Int(i)))
    case _ => None
  }

  /** Validate of each registered kind. */
  predicate KindAccepts(f: FieldDef, v: Value) {
    match f.kind
    case Number => v.Int? || v.Float?
    case Boolean => v.Bool?
    case Select => v.Str? && v.s in f.options
    case Timestamp => v.Str? && CanonicalTime(v.s)
    case Gallery => v.List? && forall i :: 0 <= i < |v.items| ==> v.items[i].Str?
    case Slug => v.Str? && (v.s == "" || ValidSlug(v.s))
    case Ref => ToID(v).Some?
    case RefList => AsItems(v).Some? && forall i :: 0 <= i < |AsItems(v).value| ==> ToID(AsItems(v).value[i]).Some?
    case _ => v.Str?
  }

  /** isEmpty: what the required check counts as missing. */
  predicate IsEmpty(k: Kind, v: Value) {
    match k
    case Array => !v.List? || v.items == []
    case Gallery => !v.List? || v.items == []
    case Object => !v.Obj? || v.entries == map[]
    case Number => !v.Int? && !v.Float?
    case Boolean => !v.Bool?
    case Timestamp => !v.Str? || v.s == ""
    case Ref => ToID(v).None?
    case RefList => AsItems(v).None? || AsItems(v).value == []
    case _ => !v.Str? || Blank(v.s)
  }

  // ---------------------------------------------------------------- checks on values

  predicate ValidateValue(f: FieldDef, v: Value)
    decreases v
  {
    match f.kind
    case Array =>
      && v.List? && f.item.Some?
      && forall i :: 0 <= i < |v.items| ==> ValidateValue(f.item.value.(required := false), v.items[i])
    case Object =>
      && v.Obj?
      && (forall k :: k in v.entries ==>
            FieldByName(f.fields, k).Some? && ValidateValue(FieldByName(f.fields, k).value, v.entries[k]))
      && (forall sub :: sub in f.fields && sub.required ==>
            sub.name in v.entries && !IsEmpty(sub.kind, v.entries[sub.name]))
    case _ => KindAccepts(f, v)
  }

  predicate ValidateFields(td: TypeDef, fields: Fields) {
    && (forall k :: k in fields ==>
          FieldByName(td.fields, k).Some? && ValidateValue(FieldByName(td.fields, k).value, fields[k]))
    && (forall f :: f in td.fields && f.required ==> f.name in fields && !IsEmpty(f.kind, fields[f.name]))
  }

  predicate ValidatePatchFields(td: TypeDef, patch: Fields) {
    forall k :: k in patch ==>
      && FieldByName(td.fields, k).Some?
      && var f := FieldByName(td.fields, k).value;
         && !f.immutable
         && (if patch[k] == Null then !f.required
             else ValidateValue(f, patch[k]) && (f.required ==> !IsEmpty(f.kind, patch[k])))
  }

  /** ApplyDefaults: declared defaults for the fields a create leaves out. */
  function ApplyDefaults(fs: seq<FieldDef>, fields: Fields): Fields {
    if fs == [] then fields
    else
      var f := fs[0];
      ApplyDefaults(fs[1..], if f.name !in fields && f.default.Some? then fields[f.name := f.default.value] else fields)
  }

  // ---------------------------------------------------------------- references and scalars

  predicate IsRefName(td: TypeDef, name: string) {
    var f := FieldByName(td.fields, name);
    f.Some? && IsRefKind(f.value.kind)
  }

  /** splitRefs: the part of the fields stored in the node row. */
  function ScalarPart(td: TypeDef, fields: Fields): Fields {
    map k | k in fields && !IsRefName(td, k) :: fields[k]
  }

  /** splitRefs: the part of the fields stored as edges. */
  function RefPart(td: TypeDef, fields: Fields): Fields {
    map k | k in fields && IsRefName(td, k) :: fields[k]
  }

  /** ValidateFields, restricted to what a node row can hold. */
  predicate ValidScalars(td: TypeDef, fields: Fields) {
    && (forall k :: k in fields ==>
          && FieldByName(td.fields, k).Some?
          && !IsRefKind(FieldByName(td.fields, k).value.kind)
          && ValidateValue(FieldByName(td.fields, k).value, fields[k]))
    && (forall f :: f in td.fields && f.required && !IsRefKind(f.kind) ==>
          f.name in fields && !IsEmpty(f.kind, fields[f.name]))
  }

  lemma SplitKeepsScalarsValid(td: TypeDef, fields: Fields)
    requires DistinctNames(td.fields) && ValidateFields(td, fields)
    ensures ValidScalars(td, ScalarPart(td, fields))
  {
    forall f | f in td.fields && f.required && !IsRefKind(f.kind)
      ensures f.name in ScalarPart(td, fields)
    {
      FieldByNameFinds(td.fields, f);
    }
  }

  // ---------------------------------------------------------------- merge patch

  /** Section 2 of RFC 7396. */
  function MergePatch(target: Value, patch: Value): Value
    decreases patch
  {
    if patch.Obj? then
      var t := if target.Obj? then target.entries else map[];
      Obj(map k | k in t.Keys + patch.entries.Keys && !(k in patch.entries && patch.entries[k] == Null) ::
            if k in patch.entries then MergePatch(if k in t then t[k] else Null, patch.entries[k]) else t[k])
    else patch
  }

  function MergeFields(stored: Fields, patch: Fields): Fields {
    MergePatch(Obj(stored), Obj(patch)).entries
  }

  /** No value of a field is null, at any depth the merge can reach. */
  lemma ValidIsNotNull(f: FieldDef, v: Value)
    requires ValidateValue(f, v)
    ensures v != Null
  {
  }

  lemma MergedEntries(stored: Value, patch: Value)
    requires patch.Obj? && forall k :: k in patch.entries ==> patch.entries[k] != Null
    ensures
      var t := if stored.Obj? then stored.entries else map[];
      var m := MergePatch(stored, patch).entries;
      && m.Keys == t.Keys + patch.entries.Keys
      && (forall k :: k in patch.entries ==> m[k] == MergePatch(if k in t then t[k] else Null, patch.entries[k]))
      && (forall k :: k in t && k !in patch.entries ==> m[k] == t[k])
  {
  }

  /** Merging one accepted value into another is accepted again, at every depth of nesting. */
  lemma {:induction false} MergeKeepsValue(f: FieldDef, depth: nat, stored: Value, patch: Value)
    requires ValidComposite(f, depth)
    requires stored == Null || ValidateValue(f, stored)
    requires ValidateValue(f, patch)
    ensures ValidateValue(f, MergePatch(stored, patch))
    ensures !IsEmpty(f.kind, patch) ==> !IsEmpty(f.kind, MergePatch(stored, patch))
    decreases patch
  {
    hide IsEmpty, KindAccepts, IsSpace, Blank;
    if f.kind == Object {
      var t := if stored.Obj? then stored.entries else map[];
      var m := MergePatch(stored, patch).entries;
      forall k | k in patch.entries ensures patch.entries[k] != Null {
        ValidIsNotNull(FieldByName(f.fields, k).value, patch.entries[k]);
      }
      MergedEntries(stored, patch);
      forall k | k in patch.entries ensures k in m && MergedEntry(f, k, patch.entries[k], m[k]) {
        var sub := FieldByName(f.fields, k).value;
        MergeKeepsValue(sub, depth + 1, if k in t then t[k] else Null, patch.entries[k]);
      }
      MergedObject(f, t, patch.entries, m);
    } else {
      OnlyObjectsMerge(f, stored, patch);
    }
  }

  /** A value of any other kind takes the place of the one before. */
  lemma OnlyObjectsMerge(f: FieldDef, stored: Value, patch: Value)
    requires f.kind != Object && ValidateValue(f, patch)
    ensures MergePatch(stored, patch) == patch
  {
  }

  /** An entry of a merged object is accepted, and empty only when the patch's entry was. */
  predicate MergedEntry(f: FieldDef, k: string, patched: Value, merged: Value) {
    && FieldByName(f.fields, k).Some?
    && ValidateValue(FieldByName(f.fields, k).value, merged)
    && (!IsEmpty(FieldByName(f.fields, k).value.kind, patched) ==>
       !IsEmpty(FieldByName(f.fields, k).value.kind, merged))
  }

  lemma MergedObject(f: FieldDef, t: Fields, p: Fields, m: Fields)
    requires f.kind == Object && DistinctNames(f.fields)
    requires ValidateValue(f, Obj(p)) && m.Keys == t.Keys + p.Keys
    requires forall k :: k in p ==> MergedEntry(f, k, p[k], m[k])
    requires forall k :: k in t && k !in p ==>
      m[k] == t[k] && FieldByName(f.fields, k).Some? && ValidateValue(FieldByName(f.fields, k).value, t[k])
    ensures ValidateValue(f, Obj(m)) && (!IsEmpty(f.kind, Obj(p)) ==> !IsEmpty(f.kind, Obj(m)))
  {
    forall sub | sub in f.fields && sub.required ensures sub.name in m && !IsEmpty(sub.kind, m[sub.name]) {
      FieldByNameFinds(f.fields, sub);
    }
    if m == map[] {
      assert p.Keys <= m.Keys;
    }
  }

  /** One field of the merged row: as stored, dropped, or merged with a value that passed. */
  lemma MergedAt(stored: Fields, p: Fields, k: string)
    ensures k !in p ==> (k in MergeFields(stored, p) <==> k in stored)
    ensures k !in p && k in stored ==> MergeFields(stored, p)[k] == stored[k]
    ensures k in p ==> (k in MergeFields(stored, p) <==> p[k] != Null)
    ensures k in p && p[k] != Null ==>
      MergeFields(stored, p)[k] == MergePatch(if k in stored then stored[k] else Null, p[k])
  {
  }

  lemma MergedField(schema: Schema, typ: string, stored: Fields, patch: Fields, k: string)
    requires ValidSchema(schema) && typ in schema
    requires ValidScalars(schema[typ], stored) && ValidatePatchFields(schema[typ], patch)
    ensures
      var (td, m) := (schema[typ], MergeFields(stored, ScalarPart(schema[typ], patch)));
      var f := FieldByName(td.fields, k);
      && (k in m ==> f.Some? && !IsRefKind(f.value.kind) && ValidateValue(f.value, m[k]))
      && (f.Some? && f.value.required && !IsRefKind(f.value.kind) ==> k in m && !IsEmpty(f.value.kind, m[k]))
  {
    var td := schema[typ];
    var p := ScalarPart(td, patch);
    MergedAt(stored, p, k);
    hide ValidateValue, IsEmpty, MergePatch, MergeFields;
    if k in p && p[k] != Null {
      MergeKeepsValue(FieldByName(td.fields, k).value, 0, if k in stored then stored[k] else Null, p[k]);
    }
  }

  lemma MergedRequired(schema: Schema, typ: string, stored: Fields, patch: Fields, f: FieldDef)
    requires ValidSchema(schema) && typ in schema && f in schema[typ].fields && f.required && !IsRefKind(f.kind)
    requires ValidScalars(schema[typ], stored) && ValidatePatchFields(schema[typ], patch)
    ensures
      var m := MergeFields(stored, ScalarPart(schema[typ], patch));
      f.name in m && !IsEmpty(f.kind, m[f.name])
  {
    hide ValidateValue, IsEmpty, MergePatch, MergeFields, ScalarPart, ValidScalars, ValidatePatchFields;
    FieldByNameFinds(schema[typ].fields, f);
    MergedField(schema, typ, stored, patch, f.name);
  }

  lemma AreValidScalars(td: TypeDef, m: Fields)
    requires forall k :: k in m ==>
      var f := FieldByName(td.fields, k);
      f.Some? && !IsRefKind(f.value.kind) && ValidateValue(f.value, m[k])
    requires forall f :: f in td.fields && f.required && !IsRefKind(f.kind) ==>
      f.name in m && !IsEmpty(f.kind, m[f.name])
    ensures ValidScalars(td, m)
  {
    hide ValidateValue, IsEmpty, FieldByName;
  }

  /** A patch that passes its check leaves a row that passes its check. */
  lemma MergeKeepsScalars(schema: Schema, typ: string, stored: Fields, patch: Fields)
    requires ValidSchema(schema) && typ in schema
    requires ValidScalars(schema[typ], stored)
    requires ValidatePatchFields(schema[typ], patch)
    ensures ValidScalars(schema[typ], MergeFields(stored, ScalarPart(schema[typ], patch)))
  {
    hide *;
    var td := schema[typ];
    var m := MergeFields(stored, ScalarPart(td, patch));
    forall k | k in m
      ensures FieldByName(td.fields, k).Some? && !IsRefKind(FieldByName(td.fields, k).value.kind)
      ensures ValidateValue(FieldByName(td.fields, k).value, m[k])
    {
      MergedField(schema, typ, stored, patch, k);
    }
    forall f | f in td.fields && f.required && !IsRefKind(f.kind)
      ensures f.name in m && !IsEmpty(f.kind, m[f.name])
    {
      MergedRequired(schema, typ, stored, patch, f);
    }
    AreValidScalars(td, m);
  }

  /** An accepted value merged into itself is itself. */
  lemma {:induction false} MergeSelf(f: FieldDef, v: Value)
    requires ValidateValue(f, v)
    ensures MergePatch(v, v) == v
    decreases v
  {
    if v.Obj? && f.kind == Object {
      forall k | k in v.entries ensures v.entries[k] != Null && MergePatch(v.entries[k], v.entries[k]) == v.entries[k] {
        ValidIsNotNull(FieldByName(f.fields, k).value, v.entries[k]);
        MergeSelf(FieldByName(f.fields, k).value, v.entries[k]);
      }
      assert MergePatch(v, v).entries == v.entries;
    }
  }

  lemma MergeOwnScalars(td: TypeDef, fields: Fields)
    requires ValidScalars(td, fields)
    ensures MergeFields(fields, fields) == fields
  {
    forall k | k in fields ensures fields[k] != Null && MergePatch(fields[k], fields[k]) == fields[k] {
      ValidIsNotNull(FieldByName(td.fields, k).value, fields[k]);
      MergeSelf(FieldByName(td.fields, k).value, fields[k]);
    }
  }
}
