/**
 * A project content built from a compiled assembly: its construction, the
 * replacement of System.Void, the lazy resolution of referenced assemblies
 * and the freshness check against the assembly file.
 */
module ProjectContent {
  import opened DomTypes
  import Strings
  import opened ClassTable
  import RR = ReferenceResolution

  /** The process-wide cache of loaded project contents, by assembly name. */
  class ProjectContentRegistry {
    var loaded: map<AssemblyName, ProjectContentHandle>

    constructor (loaded: map<AssemblyName, ProjectContentHandle>)
      ensures this.loaded == loaded
    {
      this.loaded := loaded;
    }
  }

  /** The compilation unit owning the assembly attributes; read-only once frozen. */
  class CompilationUnit {
    var attributes: seq<AssemblyAttribute>
    var frozen: bool

    constructor ()
      ensures attributes == [] && !frozen
    {
      attributes := [];
      frozen := false;
    }

    /** Freezing is one-way and keeps the attributes. */
    method Freeze()
      modifies this
      ensures frozen && attributes == old(attributes)
    {
      frozen := true;
    }
  }

  /** What the reflection layer reports about an assembly. */
  datatype Assembly = Assembly(
    fullName: string,
    location: string,
    referencedAssemblies: seq<AssemblyName>,
    exportedTypes: seq<ExportedType>,
    attributes: seq<AssemblyAttribute>)

  /** The write time stored at construction: the probed time, or the default time on failure. */
  function StoredWriteTime(probe: WriteTimeProbe): Time {
    if probe.WriteTime? then probe.ticks else MinTime
  }

  class ReflectionProjectContent {
    const assemblyFullName: string
    const assemblyName: string
    const assemblyLocation: string
    const referencedAssemblyNames: seq<AssemblyName>
    const registry: ProjectContentRegistry
    const assemblyCompilationUnit: CompilationUnit
    const assemblyFileLastWriteTime: Time

    var classes: ClassMap
    var initialized: bool
    var missingNames: Option<seq<AssemblyName>>
    var referencedContents: seq<ProjectContentHandle>

    /** The reference state as a value. */
    function References(): RR.References
      reads this
    {
      RR.References(initialized, missingNames, referencedContents)
    }

    ghost predicate Valid()
      reads this
    {
      RR.Valid(referencedAssemblyNames, References())
    }

    /**
     * The main constructor: a non-null registry, the short name derived from
     * the full name, the write time probed once, no classes and no references.
     */
    constructor (assemblyFullName: string, assemblyLocation: string,
                 referencedAssemblies: seq<AssemblyName>, registry: ProjectContentRegistry?,
                 probe: WriteTimeProbe)
      requires registry != null
      ensures Valid()
      ensures this.assemblyFullName == assemblyFullName && this.assemblyLocation == assemblyLocation
      ensures assemblyName == Strings.ShortAssemblyName(assemblyFullName)
      ensures referencedAssemblyNames == referencedAssemblies && this.registry == registry
      ensures assemblyFileLastWriteTime == StoredWriteTime(probe)
      ensures probe.WriteTime? ==> IsUpToDate(probe)
      ensures probe.ProbeFailed? ==> forall t :: IsUpToDate(WriteTime(t)) <==> t == MinTime
      ensures fresh(assemblyCompilationUnit)
      ensures assemblyCompilationUnit.attributes == [] && !assemblyCompilationUnit.frozen
      ensures classes == map[]
      ensures References() == RR.References(false, None, [])
    {
      this.registry := registry;
      this.assemblyFullName := assemblyFullName;
      assemblyName := Strings.ShortAssemblyName(assemblyFullName);
      referencedAssemblyNames := referencedAssemblies;
      this.assemblyLocation := assemblyLocation;
      assemblyCompilationUnit := new CompilationUnit();
      assemblyFileLastWriteTime := StoredWriteTime(probe);
      classes := map[];
      initialized := false;
      missingNames := None;
      referencedContents := [];
    }

    /**
     * The reflection constructor: the main constructor, then a class for every
     * non-nested exported type, the System.Void replacement, the assembly
     * attributes, and freezing the compilation unit as the last step.
     */
    static method FromAssembly(assembly: Assembly, assemblyLocation: string,
                               registry: ProjectContentRegistry?, probe: WriteTimeProbe)
      returns (pc: ReflectionProjectContent)
      requires registry != null
      ensures fresh(pc) && fresh(pc.assemblyCompilationUnit) && pc.Valid()
      ensures pc.assemblyFullName == assembly.fullName && pc.assemblyLocation == assemblyLocation
      ensures pc.assemblyName == Strings.ShortAssemblyName(assembly.fullName)
      ensures pc.referencedAssemblyNames == assembly.referencedAssemblies && pc.registry == registry
      ensures pc.assemblyFileLastWriteTime == StoredWriteTime(probe)
      ensures pc.classes == ReplaceVoidClass(AddExportedTypes(map[], assembly.exportedTypes))
      ensures pc.assemblyCompilationUnit.attributes == assembly.attributes
      ensures pc.assemblyCompilationUnit.frozen
      ensures pc.References() == RR.References(false, None, [])
    {
      pc := new ReflectionProjectContent(assembly.fullName, assemblyLocation,
                                         assembly.referencedAssemblies, registry, probe);
      var types := assembly.exportedTypes;
      for k := 0 to |types|
        invariant pc.classes == AddExportedTypes(map[], types[..k])
        invariant pc.References() == RR.References(false, None, [])
        invariant pc.assemblyCompilationUnit.attributes == [] && !pc.assemblyCompilationUnit.frozen
      {
        var t := types[k];
        assert types[..k + 1][..k] == types[..k];
        if !IsNested(t) {
          pc.AddClassToNamespaceList(KeyOf(t), ReflectionClass(t));
        }
      }
      assert types[..|types|] == types;
      pc.InitializeSpecialClasses();
      var added := pc.AddAssemblyAttributes(assembly.attributes);
      pc.assemblyCompilationUnit.Freeze();
    }

    /** The reflection constructor that takes the location from the assembly. */
    static method FromLoadedAssembly(assembly: Assembly, registry: ProjectContentRegistry?, probe: WriteTimeProbe)
      returns (pc: ReflectionProjectContent)
      requires registry != null
      ensures fresh(pc) && fresh(pc.assemblyCompilationUnit) && pc.Valid()
      ensures pc.assemblyFullName == assembly.fullName && pc.assemblyLocation == assembly.location
      ensures pc.assemblyName == Strings.ShortAssemblyName(assembly.fullName)
      ensures pc.referencedAssemblyNames == assembly.referencedAssemblies && pc.registry == registry
      ensures pc.assemblyFileLastWriteTime == StoredWriteTime(probe)
      ensures pc.classes == ReplaceVoidClass(AddExportedTypes(map[], assembly.exportedTypes))
      ensures pc.assemblyCompilationUnit.attributes == assembly.attributes
      ensures pc.assemblyCompilationUnit.frozen
      ensures pc.References() == RR.References(false, None, [])
    {
      pc := FromAssembly(assembly, assembly.location, registry, probe);
    }

    /** Adds a class to the table, replacing any class with the same key. */
    method AddClassToNamespaceList(key: ClassKey, entry: ClassEntry)
      modifies this`classes
      ensures classes == old(classes)[key := entry]
    {
      classes := classes[key := entry];
    }

    /** Removes the class with the given key, if any. */
    method RemoveClass(key: ClassKey)
      modifies this`classes
      ensures classes == old(classes) - {key}
    {
      classes := classes - {key};
    }

    /** Replaces the class representing System.Void, if there is one, with the void class. */
    method InitializeSpecialClasses()
      modifies this`classes
      ensures classes == ReplaceVoidClass(old(classes))
    {
      if VoidKey in classes {
        RemoveClass(VoidKey);
        AddClassToNamespaceList(VoidKey, VoidClass);
      }
    }

    /**
     * Adds assembly attributes to the compilation unit. A frozen unit's list is
     * read-only: the first addition fails and nothing is added.
     */
    method AddAssemblyAttributes(attributes: seq<AssemblyAttribute>) returns (ok: bool)
      modifies assemblyCompilationUnit
      ensures ok <==> !(old(assemblyCompilationUnit.frozen) && attributes != [])
      ensures assemblyCompilationUnit.frozen == old(assemblyCompilationUnit.frozen)
      ensures assemblyCompilationUnit.attributes ==
        if ok then old(assemblyCompilationUnit.attributes) + attributes
        else old(assemblyCompilationUnit.attributes)
    {
      ok := true;
      if attributes != [] {
        if assemblyCompilationUnit.frozen {
          ok := false;
        } else {
          assemblyCompilationUnit.attributes := assemblyCompilationUnit.attributes + attributes;
        }
      }
    }

    /**
     * Whether the content still represents the assembly file: true when the
     * current write time cannot be read, otherwise exactly when it equals the
     * stored one.
     */
    function IsUpToDate(probe: WriteTimeProbe): (r: bool)
      reads this
      ensures probe.ProbeFailed? ==> r
      ensures probe.WriteTime? ==> (r <==> probe.ticks == assemblyFileLastWriteTime)
    {
      match probe
      case ProbeFailed => true
      case WriteTime(ticks) => assemblyFileLastWriteTime == ticks
    }

    /**
     * Resolves referenced assemblies against the registry: the first call
     * queries every declared name, later calls retry the missing ones. Returns
     * whether the references-changed event was raised.
     */
    method InitializeReferences() returns (raised: bool)
      requires Valid()
      modifies this`initialized, this`missingNames, this`referencedContents
      ensures Valid()
      ensures RR.Outcome(References(), raised) ==
        RR.Resolve(referencedAssemblyNames, old(References()), registry.loaded)
    {
      RR.ResolvePreservesValid(referencedAssemblyNames, References(), registry.loaded);
      var changed := false;
      if initialized {
        if missingNames.Some? {
          changed := RetryMissingNames();
        }
      } else {
        changed := QueryDeclaredNames();
      }
      raised := changed;
    }

    /** A later call: retries each missing name, removing the ones that now resolve. */
    method RetryMissingNames() returns (changed: bool)
      requires missingNames.Some?
      modifies this`missingNames, this`referencedContents
      ensures var names := old(missingNames.value);
        && missingNames == RR.AsMissingList(RR.StillMissing(names, registry.loaded))
        && referencedContents == old(referencedContents) + RR.Found(names, registry.loaded)
        && changed == (RR.Found(names, registry.loaded) != [])
    {
      ghost var lookup := registry.loaded;
      ghost var names := missingNames.value;
      ghost var j := 0;
      var list := missingNames.value;
      changed := false;
      var i := 0;
      while i < |list|
        invariant 0 <= j <= |names|
        invariant list == RR.StillMissing(names[..j], lookup) + names[j..]
        invariant i == |RR.StillMissing(names[..j], lookup)|
        invariant referencedContents == old(referencedContents) + RR.Found(names[..j], lookup)
        invariant changed == (RR.Found(names[..j], lookup) != [])
        decreases |list| - i
      {
        RR.QueryOneMore(names, j, lookup);
        RR.RetryOneMore(names, j, lookup, list);
        var name := list[i];
        if name in registry.loaded {
          changed := true;
          referencedContents := referencedContents + [registry.loaded[name]];
          list := list[..i] + list[i + 1..];
          i := i - 1;
        }
        i := i + 1;
        j := j + 1;
      }
      assert j == |names| && names[..j] == names && names[j..] == [];
      assert list == RR.StillMissing(names, lookup);
      missingNames := Some(list);
      if |list| == 0 {
        missingNames := None;
      }
    }

    /** The first call: queries every declared name, collecting the missing ones. */
    method QueryDeclaredNames() returns (changed: bool)
      requires missingNames == None
      modifies this`initialized, this`missingNames, this`referencedContents
      ensures initialized
      ensures missingNames == RR.AsMissingList(RR.StillMissing(referencedAssemblyNames, registry.loaded))
      ensures referencedContents == old(referencedContents) + RR.Found(referencedAssemblyNames, registry.loaded)
      ensures changed == (RR.Found(referencedAssemblyNames, registry.loaded) != [])
    {
      ghost var lookup := registry.loaded;
      changed := false;
      initialized := true;
      var declared := referencedAssemblyNames;
      for k := 0 to |declared|
        invariant missingNames == RR.AsMissingList(RR.StillMissing(declared[..k], lookup))
        invariant referencedContents == old(referencedContents) + RR.Found(declared[..k], lookup)
        invariant changed == (RR.Found(declared[..k], lookup) != [])
        invariant initialized
      {
        RR.QueryOneMore(declared, k, lookup);
        var name := declared[k];
        if name in registry.loaded {
          changed := true;
          referencedContents := referencedContents + [registry.loaded[name]];
          assert RR.StillMissing(declared[..k + 1], lookup) == RR.StillMissing(declared[..k], lookup);
        } else {
          if missingNames == None {
            missingNames := Some([]);
          }
          missingNames := Some(missingNames.value + [name]);
        }
      }
      assert declared[..|declared|] == declared;
    }
  }
}
