/** The Module attribute builder: a mutable accumulator whose calls set the header fields
    or add one entry to one table, and whose `build` takes a snapshot. A handler is the
    sequence of calls it makes; `Step` and `Run` are what those calls do, and the builder
    class is proved to follow them. */
module ModuleBuilder {
  import opened Wrappers
  import opened Ints
  import opened ConstantPool
  import opened AccessFlags
  import opened ModuleAttribute

  /** The entries the builder makes from descriptors: module names, package and class
      names in internal form, and version strings. */
  function ModuleEntryOf(name: string): ModuleRef {
    Entry(ModuleKind, name)
  }

  function PackageEntryOf(name: string): PackageRef {
    Entry(PackageKind, name)
  }

  function ClassEntryOf(name: string): ClassRef {
    Entry(ClassKind, name)
  }

  /** A version string, or none for a null one. */
  function VersionOf(version: Option<string>): Option<Utf8Ref> {
    match version
    case None => None
    case Some(v) => Some(Entry(Utf8Kind, v))
  }

  function ModuleEntries(names: seq<string>): (r: seq<ModuleRef>)
    ensures |r| == |names| && forall i :: 0 <= i < |names| ==> r[i] == ModuleEntryOf(names[i])
  {
    seq(|names|, i requires 0 <= i < |names| => ModuleEntryOf(names[i]))
  }

  function ClassEntries(names: seq<string>): (r: seq<ClassRef>)
    ensures |r| == |names| && forall i :: 0 <= i < |names| ==> r[i] == ClassEntryOf(names[i])
  {
    seq(|names|, i requires 0 <= i < |names| => ClassEntryOf(names[i]))
  }

  /** One call a handler makes on the builder. */
  datatype BuilderOp =
    | SetModuleName(name: string)
    | SetModuleFlagsMask(mask: i32)
    | SetModuleFlags(flags: seq<AccessFlag>)
    | SetModuleVersion(version: Option<string>)
    | AddRequire(required: string, mask: i32, version: Option<string>)
    | AddRequireFlags(required: string, flags: seq<AccessFlag>, version: Option<string>)
    | AddRequireInfo(requireInfo: RequireInfo)
    | AddExport(pkg: string, mask: i32, targets: seq<string>)
    | AddExportFlags(pkg: string, flags: seq<AccessFlag>, targets: seq<string>)
    | AddExportInfo(exportInfo: PackageInfo)
    | AddOpen(pkg: string, mask: i32, targets: seq<string>)
    | AddOpenFlags(pkg: string, flags: seq<AccessFlag>, targets: seq<string>)
    | AddOpenInfo(openInfo: PackageInfo)
    | AddUse(service: string)
    | AddUseEntry(useEntry: ClassRef)
    | AddProvide(service: string, impls: seq<string>)
    | AddProvideInfo(provideInfo: ProvideInfo)

  /** The attribute a fresh builder holds: the name, no flags, no version, empty tables. */
  function Initial(name: ModuleRef): ModuleAttr {
    ModuleAttr(name, 0, None, [], [], [], [], [])
  }

  function RequireOf(required: string, mask: i32, version: Option<string>): RequireInfo {
    RequireInfo(ModuleEntryOf(required), mask, VersionOf(version))
  }

  function PackageOf(pkg: string, mask: i32, targets: seq<string>): PackageInfo {
    PackageInfo(PackageEntryOf(pkg), mask, ModuleEntries(targets))
  }

  function ProvideOf(service: string, impls: seq<string>): ProvideInfo {
    ProvideInfo(ClassEntryOf(service), ClassEntries(impls))
  }

  /** What one call does to the attribute being built. A call with named flags converts
      them to a mask for its location first, and fails on a flag of another location. */
  function Step(a: ModuleAttr, op: BuilderOp): Result<ModuleAttr, FlagError> {
    match op
    case SetModuleName(name) => Ok(a.(moduleName := ModuleEntryOf(name)))
    case SetModuleFlagsMask(mask) => Ok(a.(moduleFlagsMask := mask))
    case SetModuleFlags(flags) =>
      var bits :- FlagsToBits(Location.Module, flags);
      Ok(a.(moduleFlagsMask := bits as int))
    case SetModuleVersion(version) => Ok(a.(moduleVersion := VersionOf(version)))
    case AddRequire(required, mask, version) =>
      Ok(a.(requireList := a.requireList + [RequireOf(required, mask, version)]))
    case AddRequireFlags(required, flags, version) =>
      var bits :- FlagsToBits(ModuleRequires, flags);
      Ok(a.(requireList := a.requireList + [RequireOf(required, bits as int, version)]))
    case AddRequireInfo(r) => Ok(a.(requireList := a.requireList + [r]))
    case AddExport(pkg, mask, targets) =>
      Ok(a.(exportList := a.exportList + [PackageOf(pkg, mask, targets)]))
    case AddExportFlags(pkg, flags, targets) =>
      var bits :- FlagsToBits(ModuleExports, flags);
      Ok(a.(exportList := a.exportList + [PackageOf(pkg, bits as int, targets)]))
    case AddExportInfo(e) => Ok(a.(exportList := a.exportList + [e]))
    case AddOpen(pkg, mask, targets) =>
      Ok(a.(openList := a.openList + [PackageOf(pkg, mask, targets)]))
    case AddOpenFlags(pkg, flags, targets) =>
      var bits :- FlagsToBits(ModuleOpens, flags);
      Ok(a.(openList := a.openList + [PackageOf(pkg, bits as int, targets)]))
    case AddOpenInfo(e) => Ok(a.(openList := a.openList + [e]))
    case AddUse(service) => Ok(a.(useList := a.useList + [ClassEntryOf(service)]))
    case AddUseEntry(e) => Ok(a.(useList := a.useList + [e]))
    case AddProvide(service, impls) =>
      Ok(a.(provideList := a.provideList + [ProvideOf(service, impls)]))
    case AddProvideInfo(p) => Ok(a.(provideList := a.provideList + [p]))
  }

  /** The calls of a handler in order; the first failing call ends the run with its error. */
  function Run(a: ModuleAttr, ops: seq<BuilderOp>): Result<ModuleAttr, FlagError>
    decreases |ops|
  {
    if ops == [] then Ok(a)
    else
      var a' :- Step(a, ops[0]);
      Run(a', ops[1..])
  }

  /** The builder itself. */
  class ModuleAttributeBuilder {
    var moduleName: ModuleRef
    var moduleFlagsMask: i32
    var moduleVersion: Option<Utf8Ref>
    var requireList: seq<RequireInfo>
    var exportList: seq<PackageInfo>
    var openList: seq<PackageInfo>
    var useList: seq<ClassRef>
    var provideList: seq<ProvideInfo>

    /** The attribute the builder currently holds. */
    function Snapshot(): ModuleAttr
      reads this
    {
      ModuleAttr(moduleName, moduleFlagsMask, moduleVersion, requireList, exportList, openList, useList, provideList)
    }

    /** A builder for the module with this descriptor. */
    constructor FromDesc(name: string)
      ensures Snapshot() == Initial(ModuleEntryOf(name))
    {
      moduleName := ModuleEntryOf(name);
      moduleFlagsMask := 0;
      moduleVersion := None;
      requireList, exportList, openList, useList, provideList := [], [], [], [], [];
    }

    /** A builder for the module with this entry. */
    constructor FromEntry(name: ModuleRef)
      ensures Snapshot() == Initial(name)
    {
      moduleName := name;
      moduleFlagsMask := 0;
      moduleVersion := None;
      requireList, exportList, openList, useList, provideList := [], [], [], [], [];
    }

    method ModuleName(name: string)
      modifies this
      ensures Snapshot() == old(Snapshot()).(moduleName := ModuleEntryOf(name))
    {
      moduleName := ModuleEntryOf(name);
    }

    method ModuleFlagsMask(mask: i32)
      modifies this
      ensures Snapshot() == old(Snapshot()).(moduleFlagsMask := mask)
    {
      moduleFlagsMask := mask;
    }

    /** Sets the module flags from named flags; a flag that is not a module flag fails and
        changes nothing. */
    method ModuleFlags(flags: seq<AccessFlag>) returns (r: Outcome<FlagError>)
      modifies this
      ensures FlagsToBits(Location.Module, flags).Err? ==>
        r == Fail(FlagsToBits(Location.Module, flags).error) && Snapshot() == old(Snapshot())
      ensures FlagsToBits(Location.Module, flags).Ok? ==>
        r == Pass && Snapshot() == old(Snapshot()).(moduleFlagsMask := FlagsToBits(Location.Module, flags).value as int)
    {
      match FlagsToBits(Location.Module, flags)
      case Err(e) => r := Fail(e);
      case Ok(bits) =>
        ModuleFlagsMask(bits as int);
        r := Pass;
    }

    method ModuleVersion(version: Option<string>)
      modifies this
      ensures Snapshot() == old(Snapshot()).(moduleVersion := VersionOf(version))
    {
      moduleVersion := VersionOf(version);
    }

    method Requires(required: string, mask: i32, version: Option<string>)
      modifies this
      ensures Snapshot() == old(Snapshot()).(requireList := old(requireList) + [RequireOf(required, mask, version)])
    {
      requireList := requireList + [RequireOf(required, mask, version)];
    }

    method RequiresFlags(required: string, flags: seq<AccessFlag>, version: Option<string>) returns (r: Outcome<FlagError>)
      modifies this
      ensures FlagsToBits(ModuleRequires, flags).Err? ==>
        r == Fail(FlagsToBits(ModuleRequires, flags).error) && Snapshot() == old(Snapshot())
      ensures FlagsToBits(ModuleRequires, flags).Ok? ==>
        r == Pass && Snapshot() == old(Snapshot()).(requireList :=
          old(requireList) + [RequireOf(required, FlagsToBits(ModuleRequires, flags).value as int, version)])
    {
      match FlagsToBits(ModuleRequires, flags)
      case Err(e) => r := Fail(e);
      case Ok(bits) =>
        Requires(required, bits as int, version);
        r := Pass;
    }

    method RequiresInfo(info: RequireInfo)
      modifies this
      ensures Snapshot() == old(Snapshot()).(requireList := old(requireList) + [info])
    {
      requireList := requireList + [info];
    }

    method Exports(pkg: string, mask: i32, targets: seq<string>)
      modifies this
      ensures Snapshot() == old(Snapshot()).(exportList := old(exportList) + [PackageOf(pkg, mask, targets)])
    {
      exportList := exportList + [PackageOf(pkg, mask, targets)];
    }

    method ExportsFlags(pkg: string, flags: seq<AccessFlag>, targets: seq<string>) returns (r: Outcome<FlagError>)
      modifies this
      ensures FlagsToBits(ModuleExports, flags).Err? ==>
        r == Fail(FlagsToBits(ModuleExports, flags).error) && Snapshot() == old(Snapshot())
      ensures FlagsToBits(ModuleExports, flags).Ok? ==>
        r == Pass && Snapshot() == old(Snapshot()).(exportList :=
          old(exportList) + [PackageOf(pkg, FlagsToBits(ModuleExports, flags).value as int, targets)])
    {
      match FlagsToBits(ModuleExports, flags)
      case Err(e) => r := Fail(e);
      case Ok(bits) =>
        Exports(pkg, bits as int, targets);
        r := Pass;
    }

    method ExportsInfo(info: PackageInfo)
      modifies this
      ensures Snapshot() == old(Snapshot()).(exportList := old(exportList) + [info])
    {
      exportList := exportList + [info];
    }

    method Opens(pkg: string, mask: i32, targets: seq<string>)
      modifies this
      ensures Snapshot() == old(Snapshot()).(openList := old(openList) + [PackageOf(pkg, mask, targets)])
    {
      openList := openList + [PackageOf(pkg, mask, targets)];
    }

    method OpensFlags(pkg: string, flags: seq<AccessFlag>, targets: seq<string>) returns (r: Outcome<FlagError>)
      modifies this
      ensures FlagsToBits(ModuleOpens, flags).Err? ==>
        r == Fail(FlagsToBits(ModuleOpens, flags).error) && Snapshot() == old(Snapshot())
      ensures FlagsToBits(ModuleOpens, flags).Ok? ==>
        r == Pass && Snapshot() == old(Snapshot()).(openList :=
          old(openList) + [PackageOf(pkg, FlagsToBits(ModuleOpens, flags).value as int, targets)])
    {
      match FlagsToBits(ModuleOpens, flags)
      case Err(e) => r := Fail(e);
      case Ok(bits) =>
        Opens(pkg, bits as int, targets);
        r := Pass;
    }

    method OpensInfo(info: PackageInfo)
      modifies this
      ensures Snapshot() == old(Snapshot()).(openList := old(openList) + [info])
    {
      openList := openList + [info];
    }

    method Uses(service: string)
      modifies this
      ensures Snapshot() == old(Snapshot()).(useList := old(useList) + [ClassEntryOf(service)])
    {
      useList := useList + [ClassEntryOf(service)];
    }

    method UsesEntry(service: ClassRef)
      modifies this
      ensures Snapshot() == old(Snapshot()).(useList := old(useList) + [service])
    {
      useList := useList + [service];
    }

    method Provides(service: string, impls: seq<string>)
      modifies this
      ensures Snapshot() == old(Snapshot()).(provideList := old(provideList) + [ProvideOf(service, impls)])
    {
      provideList := provideList + [ProvideOf(service, impls)];
    }

    method ProvidesInfo(info: ProvideInfo)
      modifies this
      ensures Snapshot() == old(Snapshot()).(provideList := old(provideList) + [info])
    {
      provideList := provideList + [info];
    }

    /** The attribute built so far. */
    method Build() returns (a: ModuleAttr)
      ensures a == Snapshot()
    {
      a := ModuleAttr(moduleName, moduleFlagsMask, moduleVersion, requireList, exportList, openList, useList, provideList);
    }

    /** Makes one call of a handler: the call `Step` describes. */
    method Apply(op: BuilderOp) returns (r: Outcome<FlagError>)
      modifies this
      ensures Step(old(Snapshot()), op).Err? ==> r == Fail(Step(old(Snapshot()), op).error) && Snapshot() == old(Snapshot())
      ensures Step(old(Snapshot()), op).Ok? ==> r == Pass && Snapshot() == Step(old(Snapshot()), op).value
    {
      if op.SetModuleName? || op.SetModuleFlagsMask? || op.SetModuleFlags? || op.SetModuleVersion? {
        r := ApplyHeader(op);
      } else if op.AddRequire? || op.AddRequireFlags? || op.AddRequireInfo? {
        r := ApplyRequire(op);
      } else if op.AddExport? || op.AddExportFlags? || op.AddExportInfo? {
        r := ApplyExport(op);
      } else if op.AddOpen? || op.AddOpenFlags? || op.AddOpenInfo? {
        r := ApplyOpen(op);
      } else if op.AddUse? || op.AddUseEntry? {
        r := ApplyUse(op);
      } else {
        r := ApplyProvide(op);
      }
    }

    /** A call that sets the name, the flags or the version. */
    method ApplyHeader(op: BuilderOp) returns (r: Outcome<FlagError>)
      requires op.SetModuleName? || op.SetModuleFlagsMask? || op.SetModuleFlags? || op.SetModuleVersion?
      modifies this
      ensures Step(old(Snapshot()), op).Err? ==> r == Fail(Step(old(Snapshot()), op).error) && Snapshot() == old(Snapshot())
      ensures Step(old(Snapshot()), op).Ok? ==> r == Pass && Snapshot() == Step(old(Snapshot()), op).value
    {
      r := Pass;
      match op
      case SetModuleName(name) => ModuleName(name);
      case SetModuleFlagsMask(mask) => ModuleFlagsMask(mask);
      case SetModuleFlags(flags) => r := ModuleFlags(flags);
      case SetModuleVersion(version) => ModuleVersion(version);
    }

    /** A call that adds a requires entry. */
    method ApplyRequire(op: BuilderOp) returns (r: Outcome<FlagError>)
      requires op.AddRequire? || op.AddRequireFlags? || op.AddRequireInfo?
      modifies this
      ensures Step(old(Snapshot()), op).Err? ==> r == Fail(Step(old(Snapshot()), op).error) && Snapshot() == old(Snapshot())
      ensures Step(old(Snapshot()), op).Ok? ==> r == Pass && Snapshot() == Step(old(Snapshot()), op).value
    {
      r := Pass;
      match op
      case AddRequire(required, mask, version) => Requires(required, mask, version);
      case AddRequireFlags(required, flags, version) => r := RequiresFlags(required, flags, version);
      case AddRequireInfo(info) => RequiresInfo(info);
    }

    /** A call that adds an exports entry. */
    method ApplyExport(op: BuilderOp) returns (r: Outcome<FlagError>)
      requires op.AddExport? || op.AddExportFlags? || op.AddExportInfo?
      modifies this
      ensures Step(old(Snapshot()), op).Err? ==> r == Fail(Step(old(Snapshot()), op).error) && Snapshot() == old(Snapshot())
      ensures Step(old(Snapshot()), op).Ok? ==> r == Pass && Snapshot() == Step(old(Snapshot()), op).value
    {
      r := Pass;
      match op
      case AddExport(pkg, mask, targets) => Exports(pkg, mask, targets);
      case AddExportFlags(pkg, flags, targets) => r := ExportsFlags(pkg, flags, targets);
      case AddExportInfo(info) => ExportsInfo(info);
    }

    /** A call that adds an opens entry. */
    method ApplyOpen(op: BuilderOp) returns (r: Outcome<FlagError>)
      requires op.AddOpen? || op.AddOpenFlags? || op.AddOpenInfo?
      modifies this
      ensures Step(old(Snapshot()), op).Err? ==> r == Fail(Step(old(Snapshot()), op).error) && Snapshot() == old(Snapshot())
      ensures Step(old(Snapshot()), op).Ok? ==> r == Pass && Snapshot() == Step(old(Snapshot()), op).value
    {
      r := Pass;
      match op
      case AddOpen(pkg, mask, targets) => Opens(pkg, mask, targets);
      case AddOpenFlags(pkg, flags, targets) => r := OpensFlags(pkg, flags, targets);
      case AddOpenInfo(info) => OpensInfo(info);
    }

    /** A call that adds a uses entry. */
    method ApplyUse(op: BuilderOp) returns (r: Outcome<FlagError>)
      requires op.AddUse? || op.AddUseEntry?
      modifies this
      ensures Step(old(Snapshot()), op).Err? ==> r == Fail(Step(old(Snapshot()), op).error) && Snapshot() == old(Snapshot())
      ensures Step(old(Snapshot()), op).Ok? ==> r == Pass && Snapshot() == Step(old(Snapshot()), op).value
    {
      r := Pass;
      match op
      case AddUse(service) => Uses(service);
      case AddUseEntry(service) => UsesEntry(service);
    }

    /** A call that adds a provides entry. */
    method ApplyProvide(op: BuilderOp) returns (r: Outcome<FlagError>)
      requires op.AddProvide? || op.AddProvideInfo?
      modifies this
      ensures Step(old(Snapshot()), op).Err? ==> r == Fail(Step(old(Snapshot()), op).error) && Snapshot() == old(Snapshot())
      ensures Step(old(Snapshot()), op).Ok? ==> r == Pass && Snapshot() == Step(old(Snapshot()), op).value
    {
      r := Pass;
      match op
      case AddProvide(service, impls) => Provides(service, impls);
      case AddProvideInfo(info) => ProvidesInfo(info);
    }
  }

  /** Gives a handler's calls to a builder in order, then builds; a failing call ends it
      with that call's error. */
  method RunHandler(builder: ModuleAttributeBuilder, ops: seq<BuilderOp>) returns (r: Result<ModuleAttr, FlagError>)
    modifies builder
    ensures r == Run(old(builder.Snapshot()), ops)
  {
    var i := 0;
    while i < |ops|
      invariant 0 <= i <= |ops|
      invariant Run(old(builder.Snapshot()), ops) == Run(builder.Snapshot(), ops[i..])
    {
      assert ops[i..][0] == ops[i] && ops[i..][1..] == ops[i + 1..];
      var o := builder.Apply(ops[i]);
      if o.Fail? {
        return Err(o.error);
      }
      i := i + 1;
    }
    var a := builder.Build();
    return Ok(a);
  }

  /** `of(ModuleDesc, handler)`. */
  method OfDesc(name: string, ops: seq<BuilderOp>) returns (r: Result<ModuleAttr, FlagError>)
    ensures r == Run(Initial(ModuleEntryOf(name)), ops)
  {
    var builder := new ModuleAttributeBuilder.FromDesc(name);
    r := RunHandler(builder, ops);
  }

  /** `of(ModuleEntry, handler)`. */
  method OfEntry(name: ModuleRef, ops: seq<BuilderOp>) returns (r: Result<ModuleAttr, FlagError>)
    ensures r == Run(Initial(name), ops)
  {
    var builder := new ModuleAttributeBuilder.FromEntry(name);
    r := RunHandler(builder, ops);
  }

  // ---- what a handler's calls do

  /** Running two call sequences one after the other is running their concatenation. */
  lemma {:induction false} RunConcat(a: ModuleAttr, xs: seq<BuilderOp>, ys: seq<BuilderOp>)
    ensures Run(a, xs + ys) == match Run(a, xs) case Err(e) => Err(e) case Ok(b) => Run(b, ys)
    decreases |xs|
  {
    if xs == [] {
      assert xs + ys == ys;
    } else {
      assert (xs + ys)[0] == xs[0] && (xs + ys)[1..] == xs[1..] + ys;
      if Step(a, xs[0]).Ok? {
        RunConcat(Step(a, xs[0]).value, xs[1..], ys);
      }
    }
  }

  /** A run that succeeds ends with the name of its last `moduleName` call, or with the
      name it started with when there is none. */
  lemma {:induction false} RunName(a: ModuleAttr, ops: seq<BuilderOp>)
    requires Run(a, ops).Ok?
    ensures (forall i :: 0 <= i < |ops| ==> !ops[i].SetModuleName?) ==> Run(a, ops).value.moduleName == a.moduleName
    ensures forall i :: 0 <= i < |ops| && ops[i].SetModuleName? && (forall j :: i < j < |ops| ==> !ops[j].SetModuleName?) ==>
      Run(a, ops).value.moduleName == ModuleEntryOf(ops[i].name)
    decreases |ops|
  {
    if ops != [] {
      RunFirst(a, ops);
      StepName(a, ops[0]);
      var b := Step(a, ops[0]).value;
      RunName(b, ops[1..]);
      forall i | 0 <= i < |ops| && ops[i].SetModuleName? && (forall j :: i < j < |ops| ==> !ops[j].SetModuleName?)
        ensures Run(a, ops).value.moduleName == ModuleEntryOf(ops[i].name)
      {
        if i > 0 {
          assert ops[1..][i - 1] == ops[i];
          forall j | i - 1 < j < |ops[1..]| ensures !ops[1..][j].SetModuleName? {
            assert ops[1..][j] == ops[j + 1];
          }
        } else {
          forall j | 0 <= j < |ops[1..]| ensures !ops[1..][j].SetModuleName? {
            assert ops[1..][j] == ops[j + 1];
          }
        }
      }
      if forall i :: 0 <= i < |ops| ==> !ops[i].SetModuleName? {
        forall j | 0 <= j < |ops[1..]| ensures !ops[1..][j].SetModuleName? {
          assert ops[1..][j] == ops[j + 1];
        }
      }
    }
  }

  /** Only a `moduleName` call changes the name. */
  lemma StepName(a: ModuleAttr, op: BuilderOp)
    requires Step(a, op).Ok?
    ensures Step(a, op).value.moduleName == if op.SetModuleName? then ModuleEntryOf(op.name) else a.moduleName
  {
  }

  /** `of(name, handler)` carries `name` unless the handler calls `moduleName`. */
  lemma OfKeepsName(name: ModuleRef, ops: seq<BuilderOp>)
    requires Run(Initial(name), ops).Ok?
    requires forall i :: 0 <= i < |ops| ==> !ops[i].SetModuleName?
    ensures Run(Initial(name), ops).value.moduleName == name
  {
    RunName(Initial(name), ops);
  }

  // ---- the named-flag calls are the mask calls

  /** `moduleFlags(AccessFlag...)` is `moduleFlags(int)` on the OR of the flags' bits, and
      the module flags afterwards are exactly the flags given. */
  lemma ModuleFlagsOverload(a: ModuleAttr, flags: seq<AccessFlag>)
    ensures Step(a, SetModuleFlags(flags)) ==
      match FlagsToBits(Location.Module, flags)
      case Err(e) => Err(e)
      case Ok(bits) => Step(a, SetModuleFlagsMask(bits as int))
    ensures Step(a, SetModuleFlags(flags)).Ok? ==>
      ModuleFlags(Step(a, SetModuleFlags(flags)).value) == set f | f in flags
  {
    if FlagsToBits(Location.Module, flags).Ok? {
      FlagsRoundTrip(Location.Module, flags);
    }
  }

  /** `requires(module, Collection<AccessFlag>, version)` is `requires(module, int, version)`
      on the OR of the flags' bits, and the entry added has exactly the flags given. */
  lemma RequireFlagsOverload(a: ModuleAttr, required: string, flags: seq<AccessFlag>, version: Option<string>)
    ensures Step(a, AddRequireFlags(required, flags, version)) ==
      match FlagsToBits(ModuleRequires, flags)
      case Err(e) => Err(e)
      case Ok(bits) => Step(a, AddRequire(required, bits as int, version))
    ensures Step(a, AddRequireFlags(required, flags, version)).Ok? ==>
      var b := Step(a, AddRequireFlags(required, flags, version)).value;
      |b.requireList| == |a.requireList| + 1 && RequireFlags(b.requireList[|a.requireList|]) == set f | f in flags
  {
    if FlagsToBits(ModuleRequires, flags).Ok? {
      FlagsRoundTrip(ModuleRequires, flags);
    }
  }

  lemma ExportFlagsOverload(a: ModuleAttr, pkg: string, flags: seq<AccessFlag>, targets: seq<string>)
    ensures Step(a, AddExportFlags(pkg, flags, targets)) ==
      match FlagsToBits(ModuleExports, flags)
      case Err(e) => Err(e)
      case Ok(bits) => Step(a, AddExport(pkg, bits as int, targets))
    ensures Step(a, AddExportFlags(pkg, flags, targets)).Ok? ==>
      var b := Step(a, AddExportFlags(pkg, flags, targets)).value;
      |b.exportList| == |a.exportList| + 1 && ExportFlags(b.exportList[|a.exportList|]) == set f | f in flags
  {
    if FlagsToBits(ModuleExports, flags).Ok? {
      FlagsRoundTrip(ModuleExports, flags);
    }
  }

  lemma OpenFlagsOverload(a: ModuleAttr, pkg: string, flags: seq<AccessFlag>, targets: seq<string>)
    ensures Step(a, AddOpenFlags(pkg, flags, targets)) ==
      match FlagsToBits(ModuleOpens, flags)
      case Err(e) => Err(e)
      case Ok(bits) => Step(a, AddOpen(pkg, bits as int, targets))
    ensures Step(a, AddOpenFlags(pkg, flags, targets)).Ok? ==>
      var b := Step(a, AddOpenFlags(pkg, flags, targets)).value;
      |b.openList| == |a.openList| + 1 && OpenFlags(b.openList[|a.openList|]) == set f | f in flags
  {
    if FlagsToBits(ModuleOpens, flags).Ok? {
      FlagsRoundTrip(ModuleOpens, flags);
    }
  }

  // ---- each adding call touches its own table only

  datatype Table = RequiresTable | ExportsTable | OpensTable | UsesTable | ProvidesTable

  /** The table a call adds to; none for the calls that set a header field. */
  function TableOf(op: BuilderOp): Option<Table> {
    match op
    case AddRequire(_, _, _) => Some(RequiresTable)
    case AddRequireFlags(_, _, _) => Some(RequiresTable)
    case AddRequireInfo(_) => Some(RequiresTable)
    case AddExport(_, _, _) => Some(ExportsTable)
    case AddExportFlags(_, _, _) => Some(ExportsTable)
    case AddExportInfo(_) => Some(ExportsTable)
    case AddOpen(_, _, _) => Some(OpensTable)
    case AddOpenFlags(_, _, _) => Some(OpensTable)
    case AddOpenInfo(_) => Some(OpensTable)
    case AddUse(_) => Some(UsesTable)
    case AddUseEntry(_) => Some(UsesTable)
    case AddProvide(_, _) => Some(ProvidesTable)
    case AddProvideInfo(_) => Some(ProvidesTable)
    case _ => None
  }

  function Size(a: ModuleAttr, t: Table): nat {
    match t
    case RequiresTable => |a.requireList|
    case ExportsTable => |a.exportList|
    case OpensTable => |a.openList|
    case UsesTable => |a.useList|
    case ProvidesTable => |a.provideList|
  }

  /** Every table of `a` is a prefix of the same table of `b`. */
  predicate Extends(a: ModuleAttr, b: ModuleAttr) {
    && a.requireList <= b.requireList && a.exportList <= b.exportList && a.openList <= b.openList
    && a.useList <= b.useList && a.provideList <= b.provideList
  }

  function Header(a: ModuleAttr): (ModuleRef, i32, Option<Utf8Ref>) {
    (a.moduleName, a.moduleFlagsMask, a.moduleVersion)
  }

  /** A call that adds to a table adds one entry at its end and changes nothing else; a
      call that sets a header field changes no table. */
  lemma StepFrame(a: ModuleAttr, op: BuilderOp)
    requires Step(a, op).Ok?
    ensures TableOf(op).Some? ==> Header(Step(a, op).value) == Header(a)
    ensures Extends(a, Step(a, op).value)
    ensures forall t :: Size(Step(a, op).value, t) == Size(a, t) + (if TableOf(op) == Some(t) then 1 else 0)
  {
  }

  // ---- the tables of a run, in call order

  function RequireAdded(op: BuilderOp): seq<RequireInfo> {
    match op
    case AddRequire(required, mask, version) => [RequireOf(required, mask, version)]
    case AddRequireFlags(required, flags, version) =>
      if FlagsToBits(ModuleRequires, flags).Ok?
      then [RequireOf(required, FlagsToBits(ModuleRequires, flags).value as int, version)] else []
    case AddRequireInfo(r) => [r]
    case _ => []
  }

  function ExportAdded(op: BuilderOp): seq<PackageInfo> {
    match op
    case AddExport(pkg, mask, targets) => [PackageOf(pkg, mask, targets)]
    case AddExportFlags(pkg, flags, targets) =>
      if FlagsToBits(ModuleExports, flags).Ok?
      then [PackageOf(pkg, FlagsToBits(ModuleExports, flags).value as int, targets)] else []
    case AddExportInfo(e) => [e]
    case _ => []
  }

  function OpenAdded(op: BuilderOp): seq<PackageInfo> {
    match op
    case AddOpen(pkg, mask, targets) => [PackageOf(pkg, mask, targets)]
    case AddOpenFlags(pkg, flags, targets) =>
      if FlagsToBits(ModuleOpens, flags).Ok?
      then [PackageOf(pkg, FlagsToBits(ModuleOpens, flags).value as int, targets)] else []
    case AddOpenInfo(e) => [e]
    case _ => []
  }

  function UseAdded(op: BuilderOp): seq<ClassRef> {
    match op
    case AddUse(service) => [ClassEntryOf(service)]
    case AddUseEntry(e) => [e]
    case _ => []
  }

  function ProvideAdded(op: BuilderOp): seq<ProvideInfo> {
    match op
    case AddProvide(service, impls) => [ProvideOf(service, impls)]
    case AddProvideInfo(p) => [p]
    case _ => []
  }

  /** The entries a sequence of calls adds to each table, in call order. */
  function RequiresAdded(ops: seq<BuilderOp>): seq<RequireInfo> {
    if ops == [] then [] else RequireAdded(ops[0]) + RequiresAdded(ops[1..])
  }

  function ExportsAdded(ops: seq<BuilderOp>): seq<PackageInfo> {
    if ops == [] then [] else ExportAdded(ops[0]) + ExportsAdded(ops[1..])
  }

  function OpensAdded(ops: seq<BuilderOp>): seq<PackageInfo> {
    if ops == [] then [] else OpenAdded(ops[0]) + OpensAdded(ops[1..])
  }

  function UsesAdded(ops: seq<BuilderOp>): seq<ClassRef> {
    if ops == [] then [] else UseAdded(ops[0]) + UsesAdded(ops[1..])
  }

  function ProvidesAdded(ops: seq<BuilderOp>): seq<ProvideInfo> {
    if ops == [] then [] else ProvideAdded(ops[0]) + ProvidesAdded(ops[1..])
  }

  /** A run that succeeds ends with each table that it began with, followed by the entries
      of that table's calls in the order they were made. */
  lemma {:induction false} RunTables(a: ModuleAttr, ops: seq<BuilderOp>)
    requires Run(a, ops).Ok?
    ensures Run(a, ops).value.requireList == a.requireList + RequiresAdded(ops)
    ensures Run(a, ops).value.exportList == a.exportList + ExportsAdded(ops)
    ensures Run(a, ops).value.openList == a.openList + OpensAdded(ops)
    ensures Run(a, ops).value.useList == a.useList + UsesAdded(ops)
    ensures Run(a, ops).value.provideList == a.provideList + ProvidesAdded(ops)
    decreases |ops|
  {
    if ops != [] {
      RunFirst(a, ops);
      var b := Step(a, ops[0]).value;
      RunTables(b, ops[1..]);
      StepTables(a, ops[0]);
      AppendAssoc(a.requireList, RequireAdded(ops[0]), RequiresAdded(ops[1..]));
      AppendAssoc(a.exportList, ExportAdded(ops[0]), ExportsAdded(ops[1..]));
      AppendAssoc(a.openList, OpenAdded(ops[0]), OpensAdded(ops[1..]));
      AppendAssoc(a.useList, UseAdded(ops[0]), UsesAdded(ops[1..]));
      AppendAssoc(a.provideList, ProvideAdded(ops[0]), ProvidesAdded(ops[1..]));
    }
  }

  /** One call adds to each table the entries it denotes. */
  lemma StepTables(a: ModuleAttr, op: BuilderOp)
    requires Step(a, op).Ok?
    ensures Step(a, op).value.requireList == a.requireList + RequireAdded(op)
    ensures Step(a, op).value.exportList == a.exportList + ExportAdded(op)
    ensures Step(a, op).value.openList == a.openList + OpenAdded(op)
    ensures Step(a, op).value.useList == a.useList + UseAdded(op)
    ensures Step(a, op).value.provideList == a.provideList + ProvideAdded(op)
  {
  }

  /** A run that succeeds makes its first call successfully and runs the rest from there. */
  lemma RunFirst(a: ModuleAttr, ops: seq<BuilderOp>)
    requires ops != [] && Run(a, ops).Ok?
    ensures Step(a, ops[0]).Ok? && Run(a, ops) == Run(Step(a, ops[0]).value, ops[1..])
  {
  }

  lemma AppendAssoc<T>(x: seq<T>, y: seq<T>, z: seq<T>)
    ensures x + y + z == x + (y + z)
  {
  }
}
