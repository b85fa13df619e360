# ReflectionProjectContent: a Dafny model

This project models `ReflectionProjectContent` from SharpDevelop's type system
(`ICSharpCode.SharpDevelop.Dom`). It is the project content (symbol space) built
from a compiled assembly. The model covers four things:

- **Construction.** The short assembly name is derived from the full name, and
  the file's last write time is stored. Then each exported type that is not
  nested becomes a class in the class table, a `System.Void` class is replaced
  by the canonical void class, the assembly attributes are added, and the
  compilation unit is frozen as the last step.
- **Reference resolution (`InitializeReferences`).** This is a small state
  machine with three parts: the `initialized` flag, the nullable list of
  missing names, and the list of referenced contents. The first call queries
  the registry for every declared reference. Later calls retry only the
  missing names, remove the ones that now resolve in place, and reset an
  emptied list to null. The references-changed event is raised only when the
  call appended a content.
- **Freshness (`IsUpToDate`).** The stored write time is compared with the
  current one. A failed probe counts as up to date.
- **Error paths.** A missing registry is excluded by a precondition.
  Attributes added to a frozen unit make the addition fail.

Modules:

- `DomTypes` (dom_types.dfy): shared value types: assembly names, content
  handles, attributes, times and write-time probes.
- `Strings` (strings.dfy): `IndexOf` and the short assembly name.
- `ClassTable` (class_table.dfy): the class table built from exported types, and
  the `System.Void` replacement, as functions with lemmas.
- `ReferenceResolution` (reference_resolution.dfy): one call of
  `InitializeReferences` as a pure function `Resolve` on a `References` value,
  with lemmas for partition, order, monotonicity, idempotence and the event.
- `ProjectContent` (project_content.dfy): the registry, the compilation unit and
  the `ReflectionProjectContent` class. Its methods update fields in place with
  loops, and each is proved against the functions above.

## Model

| member | source | states |
|---|---|---|
| Strings.IndexOf | ICSharpCode.SharpDevelop.Dom/Src/ProjectContent/ReflectionProjectContent.cs:114 | the result is -1 exactly when the character does not occur; otherwise it is the index of the first occurrence |
| Strings.ShortAssemblyName | ICSharpCode.SharpDevelop.Dom/Src/ProjectContent/ReflectionProjectContent.cs:114 | the assembly name is the prefix of the full name that has no comma and is followed by a comma or ends the full name: the part before the first ',' or the whole name |
| Strings.ShortNameOfDisplayName | ICSharpCode.SharpDevelop.Dom/Src/ProjectContent/ReflectionProjectContent.cs:114 | for a full name "Simple,details" whose simple name has no comma, the short name is exactly the simple name |
| ProjectContent.ReflectionProjectContent.constructor | ICSharpCode.SharpDevelop.Dom/Src/ProjectContent/ReflectionProjectContent.cs:103-123 | needs a non-null registry; stores the names, location and references; derives the short name; stores the probed write time (the default time if the probe failed); starts uninitialized, with a null missing list, no contents, no classes and an unfrozen, empty unit |
| ProjectContent.ReflectionProjectContent.FromAssembly | ICSharpCode.SharpDevelop.Dom/Src/ProjectContent/ReflectionProjectContent.cs:79-91 | the class table equals the table of non-nested exported types with System.Void replaced; the unit holds exactly the assembly's attributes and is frozen; references are untouched |
| ProjectContent.ReflectionProjectContent.FromLoadedAssembly | ICSharpCode.SharpDevelop.Dom/Src/ProjectContent/ReflectionProjectContent.cs:74-77 | the same guarantees as FromAssembly: names, short name, references, registry, stored write time, class table, frozen unit with the assembly's attributes, and the initial reference state, with the location taken from the assembly |
| ClassTable.AddExportedTypes | ICSharpCode.SharpDevelop.Dom/Src/ProjectContent/ReflectionProjectContent.cs:82-87 | the table after the foreach loop: existing keys stay, and every added entry is a reflection class whose name has no '+' |
| ProjectContent.ReflectionProjectContent.AddClassToNamespaceList | ICSharpCode.SharpDevelop.Dom/Src/ProjectContent/ReflectionProjectContent.cs:85 | the table gains the class under its key, replacing any class with that key, and is otherwise unchanged |
| ProjectContent.ReflectionProjectContent.RemoveClass | ICSharpCode.SharpDevelop.Dom/Src/ProjectContent/ReflectionProjectContent.cs:156 | the class under the key is removed and every other entry is unchanged |
| ClassTable.AddExportedTypesKeys | ICSharpCode.SharpDevelop.Dom/Src/ProjectContent/ReflectionProjectContent.cs:82-87 | a key is in the table exactly when it was already there or belongs to a non-nested exported type; every new entry is a reflection class built from such a type with that key |
| ClassTable.EveryTopLevelTypeAdded | ICSharpCode.SharpDevelop.Dom/Src/ProjectContent/ReflectionProjectContent.cs:82-87 | every exported type without '+' in its name gets a class under its key |
| ClassTable.NoNestedClasses | ICSharpCode.SharpDevelop.Dom/Src/ProjectContent/ReflectionProjectContent.cs:84 | a table built from scratch has no class whose name contains '+' |
| ClassTable.ReplaceVoidClass | ICSharpCode.SharpDevelop.Dom/Src/ProjectContent/ReflectionProjectContent.cs:151-159 | System.Void replacement on a table: the set of keys is unchanged, and an entry under ("System.Void", 0) is afterwards the void class |
| ProjectContent.ReflectionProjectContent.InitializeSpecialClasses | ICSharpCode.SharpDevelop.Dom/Src/ProjectContent/ReflectionProjectContent.cs:151-159 | the new class table is the old one with any System.Void class replaced by the void class |
| ClassTable.ReplaceVoidClassEffect | ICSharpCode.SharpDevelop.Dom/Src/ProjectContent/ReflectionProjectContent.cs:151-159 | the replacement keeps the set of keys; a present System.Void entry becomes the void class; other entries are unchanged; with no System.Void class the table is unchanged |
| ClassTable.ReplaceVoidClassIdempotent | ICSharpCode.SharpDevelop.Dom/Src/ProjectContent/ReflectionProjectContent.cs:151-159 | replacing a second time changes nothing |
| ProjectContent.ReflectionProjectContent.AddAssemblyAttributes | ICSharpCode.SharpDevelop.Dom/Src/ProjectContent/ReflectionProjectContent.cs:98-101 | attributes are appended to the unit; on a frozen unit a non-empty addition fails and leaves the attributes unchanged |
| ProjectContent.CompilationUnit.Freeze | ICSharpCode.SharpDevelop.Dom/Src/ProjectContent/ReflectionProjectContent.cs:90 | freezing is one-way and keeps the attributes |
| ProjectContent.ReflectionProjectContent.IsUpToDate | ICSharpCode.SharpDevelop.Dom/Src/ProjectContent/ReflectionProjectContent.cs:61-72 | true when the write-time probe fails; otherwise true exactly when the current time equals the stored one |
| ReferenceResolution.Resolve | ICSharpCode.SharpDevelop.Dom/Src/ProjectContent/ReflectionProjectContent.cs:164-201 | one call of InitializeReferences as a value: afterwards the content is initialized, the old contents are a prefix of the new ones, and an initialized content with a null missing list is left unchanged with no event |
| ProjectContent.ReflectionProjectContent.InitializeReferences | ICSharpCode.SharpDevelop.Dom/Src/ProjectContent/ReflectionProjectContent.cs:164-201 | keeps the reference-state invariant; the new state and the raised event equal those of one `Resolve` step against the registry's current contents |
| ProjectContent.ReflectionProjectContent.RetryMissingNames | ICSharpCode.SharpDevelop.Dom/Src/ProjectContent/ReflectionProjectContent.cs:167-182 | the missing list becomes its still-unresolved names (null if none); the contents found are appended in list order; the change flag is set exactly when one was found |
| ProjectContent.ReflectionProjectContent.QueryDeclaredNames | ICSharpCode.SharpDevelop.Dom/Src/ProjectContent/ReflectionProjectContent.cs:183-198 | marks the content initialized; the missing list becomes the unresolved declared names in order (null if none); the found contents are appended in declaration order; the change flag is set exactly when one was found |
| ReferenceResolution.QueryOneMore | ICSharpCode.SharpDevelop.Dom/Src/ProjectContent/ReflectionProjectContent.cs:185-196 | querying one more name either extends the found contents by its registry content or extends the missing names by it |
| ReferenceResolution.RetryOneMore | ICSharpCode.SharpDevelop.Dom/Src/ProjectContent/ReflectionProjectContent.cs:169-177 | at loop step j the retried name sits at index i; removing it when it resolves (`RemoveAt(i--)`) leaves the missing names of the first j+1 names, then the rest |
| ReferenceResolution.StillMissingMembers | ICSharpCode.SharpDevelop.Dom/Src/ProjectContent/ReflectionProjectContent.cs:169-177 | a name is still missing exactly when it was queried and the registry does not have it |
| ReferenceResolution.PartitionSizes | ICSharpCode.SharpDevelop.Dom/Src/ProjectContent/ReflectionProjectContent.cs:185-196 | each queried name yields either one content or one missing entry; nothing is found exactly when no queried name is in the registry |
| ReferenceResolution.FoundFromRegistry | ICSharpCode.SharpDevelop.Dom/Src/ProjectContent/ReflectionProjectContent.cs:170-174 | every appended content is the registry's content for some queried name |
| ReferenceResolution.FoundIncludesResolvable | ICSharpCode.SharpDevelop.Dom/Src/ProjectContent/ReflectionProjectContent.cs:185-191 | every queried name the registry can find has its content appended |
| ReferenceResolution.StillMissingIsSubsequence | ICSharpCode.SharpDevelop.Dom/Src/ProjectContent/ReflectionProjectContent.cs:169-177 | the still-missing names are the queried names with some deleted and the rest in their order |
| ReferenceResolution.NothingResolvable | ICSharpCode.SharpDevelop.Dom/Src/ProjectContent/ReflectionProjectContent.cs:169-177 | when no queried name is in the registry, all of them stay missing and nothing is found |
| ReferenceResolution.FirstCallPartitions | ICSharpCode.SharpDevelop.Dom/Src/ProjectContent/ReflectionProjectContent.cs:183-197 | the first call marks the content initialized; found contents are appended in declaration order; the missing list is the unresolved names in order; each declared name resolves exactly when it is not missing; the list stays null exactly when every name resolved |
| ReferenceResolution.LaterCallRetriesMissing | ICSharpCode.SharpDevelop.Dom/Src/ProjectContent/ReflectionProjectContent.cs:167-181 | a later call queries only the missing names; it removes exactly those that resolve; the rest keep their relative order; an emptied list becomes null |
| ReferenceResolution.RaisedExactlyWhenAppended | ICSharpCode.SharpDevelop.Dom/Src/ProjectContent/ReflectionProjectContent.cs:166-200 | contents only grow by appending; the event is raised exactly when the call appended at least one content |
| ReferenceResolution.ResolvePreservesValid | ICSharpCode.SharpDevelop.Dom/Src/ProjectContent/ReflectionProjectContent.cs:164-201 | every call keeps the invariant: the missing list is never empty but non-null, is null before the first call, and holds only declared names |
| ReferenceResolution.RepeatWithoutNewAssemblies | ICSharpCode.SharpDevelop.Dom/Src/ProjectContent/ReflectionProjectContent.cs:164-201 | a repeat call where none of the missing assemblies has become available changes no state and raises no event |
| ReferenceResolution.ResolveIdempotent | ICSharpCode.SharpDevelop.Dom/Src/ProjectContent/ReflectionProjectContent.cs:164-201 | with the same registry, a second call is a no-op without an event |
| ReferenceResolution.RunIsMonotonic | ICSharpCode.SharpDevelop.Dom/Src/ProjectContent/ReflectionProjectContent.cs:164-201 | over any sequence of calls and registry snapshots, contents only grow by appending; once the content is initialized, a name that has left the missing list never returns |

## Left out

- XML documentation lookup and loading (ReflectionProjectContent.cs:125-148): file-system probing, plus `XmlDoc` and persistence code. `XmlDoc` and the persistence layer are not part of this model.
- `File.GetLastWriteTimeUtc` and `LoggingService.Warn`: the probe is a `WriteTimeProbe` parameter (a time in ticks, or a failure), and logging is dropped. `DateTime` is its tick count. Its `Kind` is ignored, as the source's `==` also ignores it.
- Reflection: `GetExportedTypes`, `GetReferencedAssemblies`, `CustomAttributeData` and `ReflectionClass.AddAttributes`. The assembly is an `Assembly` value holding the exported types (full name and type-parameter count), the referenced names, and the already converted attribute records.
- `ReflectionClass` and the `DefaultProjectContent` base class are not part of this model. A class is keyed by the exported type's full name and its type-parameter count, and any name normalisation `ReflectionClass` performs is not modelled. Adding a class under an existing key replaces it (`AddClassToNamespaceList`), and the base class's merging of partial classes is not modelled. `GetClassInternal` is an exact key lookup, with no language-dependent name comparison.
- The `lock (ReferencedContents)` blocks: the model is sequential. The registry does not change during a call.
- The registry (`ProjectContentRegistry`) is a class with a map from assembly name to content handle. `GetExistingProjectContent` is a lookup in that map. A newly available assembly is a changed map on a later call.
- The `OnReferencedContentsChanged` event is the `raised` result of `InitializeReferences`. Event handlers are not modelled.
- ProjectContent.ReflectionProjectContent.RetryMissingNames: retries on a local copy of the missing list and writes it back once, instead of removing entries from the field one by one. Sequentially the result is the same.
- Null arguments: Dafny strings cannot be null, so the checks on `assemblyFullName` and `assemblyLocation` are enforced by the types. The check on `registry` is a precondition. A null `referencedAssemblies` array is not modelled.
- The property getters (lines 22-52), `GetAssemblyAttributes` and `ToString` (lines 203-206) only return or format stored fields, and are not modelled.
