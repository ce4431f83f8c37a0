/** The Module attribute (JVMS section 4.7.25) as a value: the module's name, flags and
    optional version, and its five ordered tables. The parsed and the constructed forms of
    the attribute are the same value here; entries are constant-pool entries. */
module ModuleAttribute {
  import opened Wrappers
  import opened Ints
  import opened ConstantPool
  import opened AccessFlags

  /** A `requires` entry: the required module, its flags, and the version it was
      compiled against, if recorded. */
  datatype RequireInfo = RequireInfo(requiredModule: ModuleRef, flagsMask: i32, version: Option<Utf8Ref>)

  /** An `exports` or an `opens` entry: the package, its flags, and the modules it is
      confined to; no target modules means an unqualified export or open. */
  datatype PackageInfo = PackageInfo(pkg: PackageRef, flagsMask: i32, targets: seq<ModuleRef>)

  /** A `provides` entry: the service and its implementation classes. */
  datatype ProvideInfo = ProvideInfo(service: ClassRef, impls: seq<ClassRef>)

  /** The attribute; the fields are its accessors. */
  datatype ModuleAttr = ModuleAttr(
    moduleName: ModuleRef,
    moduleFlagsMask: i32,
    moduleVersion: Option<Utf8Ref>,
    requireList: seq<RequireInfo>,
    exportList: seq<PackageInfo>,
    openList: seq<PackageInfo>,
    useList: seq<ClassRef>,
    provideList: seq<ProvideInfo>)

  /** The eight-part factory; a null version is `None`. */
  function Of(moduleName: ModuleRef, moduleFlags: i32, moduleVersion: Option<Utf8Ref>,
              requireList: seq<RequireInfo>, exportList: seq<PackageInfo>, openList: seq<PackageInfo>,
              useList: seq<ClassRef>, provideList: seq<ProvideInfo>): (a: ModuleAttr)
    ensures a.moduleName == moduleName && a.moduleFlagsMask == moduleFlags
    ensures a.moduleVersion.Some? <==> moduleVersion.Some?
    ensures a.moduleVersion.Some? ==> a.moduleVersion.value == moduleVersion.value
    ensures a.requireList == requireList && a.exportList == exportList && a.openList == openList
    ensures a.useList == useList && a.provideList == provideList
  {
    ModuleAttr(moduleName, moduleFlags, moduleVersion, requireList, exportList, openList, useList, provideList)
  }

  /** The module flags as a set: the flags of the module location whose bit is set. */
  function ModuleFlags(a: ModuleAttr): set<AccessFlag> {
    MaskToFlags(a.moduleFlagsMask, Location.Module)
  }

  /** Whether the module flag `flag` is set. */
  function Has(a: ModuleAttr, flag: AccessFlag): bool {
    AccessFlags.Has(Location.Module, a.moduleFlagsMask, flag)
  }

  /** The named flags of a `requires`, an `exports` and an `opens` entry. */
  function RequireFlags(r: RequireInfo): set<AccessFlag> {
    MaskToFlags(r.flagsMask, ModuleRequires)
  }

  function ExportFlags(e: PackageInfo): set<AccessFlag> {
    MaskToFlags(e.flagsMask, ModuleExports)
  }

  function OpenFlags(e: PackageInfo): set<AccessFlag> {
    MaskToFlags(e.flagsMask, ModuleOpens)
  }

  /** `ModuleFlags` holds exactly OPEN, SYNTHETIC and MANDATED, each when its bit
      (0x0020, 0x1000, 0x8000) is set in the low 16 bits of the mask. */
  lemma ModuleFlagsMembers(a: ModuleAttr, flag: AccessFlag)
    ensures flag in ModuleFlags(a) <==>
      (flag == Open || flag == Synthetic || flag == Mandated) && IsSet(Low16(a.moduleFlagsMask), flag)
  {
    MaskToFlagsMembers(a.moduleFlagsMask, Location.Module, flag);
  }

  /** `Has` agrees with membership in `ModuleFlags`. */
  lemma HasIffModuleFlag(a: ModuleAttr, flag: AccessFlag)
    ensures Has(a, flag) <==> flag in ModuleFlags(a)
  {
    HasIffNamed(Location.Module, a.moduleFlagsMask, flag);
  }

  /** Every mask fits a `u2` field and every table a `u2` count. */
  predicate Fits(a: ModuleAttr) {
    && 0 <= a.moduleFlagsMask < 0x1_0000
    && |a.requireList| < 0x1_0000 && |a.exportList| < 0x1_0000 && |a.openList| < 0x1_0000
    && |a.useList| < 0x1_0000 && |a.provideList| < 0x1_0000
    && (forall i :: 0 <= i < |a.requireList| ==> 0 <= a.requireList[i].flagsMask < 0x1_0000)
    && (forall i :: 0 <= i < |a.exportList| ==> PackageFits(a.exportList[i]))
    && (forall i :: 0 <= i < |a.openList| ==> PackageFits(a.openList[i]))
    && (forall i :: 0 <= i < |a.provideList| ==> |a.provideList[i].impls| < 0x1_0000)
  }

  predicate PackageFits(e: PackageInfo) {
    0 <= e.flagsMask < 0x1_0000 && |e.targets| < 0x1_0000
  }

  predicate RequireInPool(pool: Pool, r: RequireInfo) {
    r.requiredModule in pool.Values && (r.version.Some? ==> r.version.value in pool.Values)
  }

  predicate PackageInPool(pool: Pool, e: PackageInfo) {
    e.pkg in pool.Values && AllIn(pool, e.targets)
  }

  predicate ProvideInPool(pool: Pool, p: ProvideInfo) {
    p.service in pool.Values && AllIn(pool, p.impls)
  }

  /** Every entry the attribute refers to stands in the pool. */
  predicate InPool(pool: Pool, a: ModuleAttr) {
    && a.moduleName in pool.Values
    && (a.moduleVersion.Some? ==> a.moduleVersion.value in pool.Values)
    && (forall i :: 0 <= i < |a.requireList| ==> RequireInPool(pool, a.requireList[i]))
    && (forall i :: 0 <= i < |a.exportList| ==> PackageInPool(pool, a.exportList[i]))
    && (forall i :: 0 <= i < |a.openList| ==> PackageInPool(pool, a.openList[i]))
    && AllIn(pool, a.useList)
    && (forall i :: 0 <= i < |a.provideList| ==> ProvideInPool(pool, a.provideList[i]))
  }
}
