/**
 * The class table a reflection project content builds from an assembly's
 * exported types, and the replacement of the System.Void class.
 */
module ClassTable {
  import Strings

  /** An exported type as the reflection layer reports it. */
  datatype ExportedType = ExportedType(fullName: string, typeParameterCount: nat)

  /** Classes are looked up by name and number of type parameters. */
  datatype ClassKey = ClassKey(name: string, typeParameterCount: nat)

  /** A class entry: one built from an exported type, or the canonical void class. */
  datatype ClassEntry = ReflectionClass(source: ExportedType) | VoidClass

  type ClassMap = map<ClassKey, ClassEntry>

  const VoidName: string := "System.Void"
  const VoidKey: ClassKey := ClassKey(VoidName, 0)

  function KeyOf(t: ExportedType): ClassKey {
    ClassKey(t.fullName, t.typeParameterCount)
  }

  /** Nested types are reported with a '+' between outer and inner name. */
  predicate IsNested(t: ExportedType) {
    Strings.IndexOf(t.fullName, '+') >= 0
  }

  /** `table` after adding, in order, a class for every non-nested type of `types`. */
  function AddExportedTypes(table: ClassMap, types: seq<ExportedType>): (r: ClassMap)
    ensures table.Keys <= r.Keys
    ensures forall k :: k in r && k !in table ==> r[k].ReflectionClass? && '+' !in k.name
    decreases |types|
  {
    if types == [] then table
    else
      var t := types[|types| - 1];
      var before := AddExportedTypes(table, types[..|types| - 1]);
      if IsNested(t) then before else before[KeyOf(t) := ReflectionClass(t)]
  }

  /** The table with the System.Void class, if present, replaced by the void class. */
  function ReplaceVoidClass(table: ClassMap): (r: ClassMap)
    ensures r.Keys == table.Keys
    ensures VoidKey in r ==> r[VoidKey] == VoidClass
  {
    if VoidKey in table then table[VoidKey := VoidClass] else table
  }

  /**
   * Adding exported types adds exactly the keys of the non-nested ones, and
   * every new entry is a class built from a non-nested type carrying that key.
   */
  lemma {:induction false} AddExportedTypesKeys(table: ClassMap, types: seq<ExportedType>)
    ensures forall k :: k in AddExportedTypes(table, types) <==>
      k in table || exists i :: 0 <= i < |types| && !IsNested(types[i]) && KeyOf(types[i]) == k
    ensures forall k :: k in AddExportedTypes(table, types) && k !in table ==>
      var e := AddExportedTypes(table, types)[k];
      e.ReflectionClass? && e.source in types && !IsNested(e.source) && KeyOf(e.source) == k
    decreases |types|
  {
    if types != [] {
      var prefix := types[..|types| - 1];
      AddExportedTypesKeys(table, prefix);
      assert forall i :: 0 <= i < |prefix| ==> prefix[i] == types[i];
      assert forall x :: x in prefix ==> x in types;
    }
  }

  /** Every non-nested exported type ends up with a class under its own key. */
  lemma {:induction false} EveryTopLevelTypeAdded(table: ClassMap, types: seq<ExportedType>, t: ExportedType)
    requires t in types && !IsNested(t)
    ensures KeyOf(t) in AddExportedTypes(table, types)
  {
    AddExportedTypesKeys(table, types);
    var i :| 0 <= i < |types| && types[i] == t;
  }

  /** Built from scratch, the table holds no class whose name contains '+'. */
  lemma NoNestedClasses(types: seq<ExportedType>)
    ensures forall k :: k in AddExportedTypes(map[], types) ==> '+' !in k.name
  {
    AddExportedTypesKeys(map[], types);
  }

  /** Replacing System.Void changes only its entry, and only when it is present. */
  lemma ReplaceVoidClassEffect(table: ClassMap)
    ensures ReplaceVoidClass(table).Keys == table.Keys
    ensures VoidKey in table ==> ReplaceVoidClass(table)[VoidKey] == VoidClass
    ensures VoidKey !in table ==> ReplaceVoidClass(table) == table
    ensures forall k :: k in table && k != VoidKey ==> ReplaceVoidClass(table)[k] == table[k]
  {
  }

  /** Replacing System.Void a second time changes nothing. */
  lemma ReplaceVoidClassIdempotent(table: ClassMap)
    ensures ReplaceVoidClass(ReplaceVoidClass(table)) == ReplaceVoidClass(table)
  {
  }
}
