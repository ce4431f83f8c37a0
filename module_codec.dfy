/** Writing and reading a Module attribute through a constant pool: entries become the
    indices they stand at, masks the low 16 bits written to their `u2` fields, and an absent
    version the index 0; reading checks that every index names an entry of the right kind. */
module ModuleCodec {
  import opened Wrappers
  import opened Ints
  import opened ConstantPool
  import opened ModuleAttribute
  import opened RawCodec

  datatype DecodeError = Malformed(raw: RawError) | Unresolved(pool: PoolError)

  // ---- versions: index 0 is "absent"

  function VersionIndex(pool: Pool, version: Option<Utf8Ref>): u16 {
    match version
    case None => 0
    case Some(e) => IndexOf(pool, e)
  }

  function ResolveVersion(pool: Pool, index: u16): Result<Option<Utf8Ref>, PoolError> {
    if index == 0 then Ok(None)
    else
      var e :- ResolveRef(pool, index, Utf8Kind);
      Ok(Some(e))
  }

  /** In a valid pool a present version never writes index 0, and index 0 alone reads
      as absent. */
  lemma VersionZeroIffAbsent(pool: Pool, version: Option<Utf8Ref>, index: u16)
    requires ValidPool(pool)
    requires version.Some? ==> version.value in pool.Values
    ensures VersionIndex(pool, version) == 0 <==> version.None?
    ensures ResolveVersion(pool, index) == Ok(None) <==> index == 0
  {
    if version.Some? {
      IndexOfSpec(pool, version.value);
    }
  }

  // ---- requires

  function LowerRequire(pool: Pool, r: RequireInfo): RawRequire {
    RawRequire(IndexOf(pool, r.requiredModule), Truncate16(r.flagsMask), VersionIndex(pool, r.version))
  }

  function ResolveRequire(pool: Pool, r: RawRequire): Result<RequireInfo, PoolError> {
    var m :- ResolveRef(pool, r.index, ModuleKind);
    var v :- ResolveVersion(pool, r.version);
    Ok(RequireInfo(m, r.flags, v))
  }

  function LowerRequires(pool: Pool, s: seq<RequireInfo>): (r: seq<RawRequire>)
    ensures |r| == |s|
  {
    if s == [] then [] else [LowerRequire(pool, s[0])] + LowerRequires(pool, s[1..])
  }

  function ResolveRequires(pool: Pool, s: seq<RawRequire>): (r: Result<seq<RequireInfo>, PoolError>)
    ensures r.Ok? ==> |r.value| == |s|
  {
    if s == [] then Ok([])
    else
      var x :- ResolveRequire(pool, s[0]);
      var xs :- ResolveRequires(pool, s[1..]);
      Ok([x] + xs)
  }

  // ---- exports and opens

  function LowerPackage(pool: Pool, e: PackageInfo): RawGrant {
    RawGrant(IndexOf(pool, e.pkg), Truncate16(e.flagsMask), IndexesOf(pool, e.targets))
  }

  function ResolvePackage(pool: Pool, g: RawGrant): Result<PackageInfo, PoolError> {
    var p :- ResolveRef(pool, g.index, PackageKind);
    var ts :- ResolveRefs(pool, g.targets, ModuleKind);
    Ok(PackageInfo(p, g.flags, ts))
  }

  function LowerPackages(pool: Pool, s: seq<PackageInfo>): (r: seq<RawGrant>)
    ensures |r| == |s|
  {
    if s == [] then [] else [LowerPackage(pool, s[0])] + LowerPackages(pool, s[1..])
  }

  function ResolvePackages(pool: Pool, s: seq<RawGrant>): (r: Result<seq<PackageInfo>, PoolError>)
    ensures r.Ok? ==> |r.value| == |s|
  {
    if s == [] then Ok([])
    else
      var x :- ResolvePackage(pool, s[0]);
      var xs :- ResolvePackages(pool, s[1..]);
      Ok([x] + xs)
  }

  // ---- provides

  function LowerProvide(pool: Pool, p: ProvideInfo): RawProvide {
    RawProvide(IndexOf(pool, p.service), IndexesOf(pool, p.impls))
  }

  function ResolveProvide(pool: Pool, p: RawProvide): Result<ProvideInfo, PoolError> {
    var s :- ResolveRef(pool, p.index, ClassKind);
    var impls :- ResolveRefs(pool, p.impls, ClassKind);
    Ok(ProvideInfo(s, impls))
  }

  function LowerProvides(pool: Pool, s: seq<ProvideInfo>): (r: seq<RawProvide>)
    ensures |r| == |s|
  {
    if s == [] then [] else [LowerProvide(pool, s[0])] + LowerProvides(pool, s[1..])
  }

  function ResolveProvides(pool: Pool, s: seq<RawProvide>): (r: Result<seq<ProvideInfo>, PoolError>)
    ensures r.Ok? ==> |r.value| == |s|
  {
    if s == [] then Ok([])
    else
      var x :- ResolveProvide(pool, s[0]);
      var xs :- ResolveProvides(pool, s[1..]);
      Ok([x] + xs)
  }

  // ---- the attribute

  function Lower(pool: Pool, a: ModuleAttr): RawModule {
    RawModule(
      IndexOf(pool, a.moduleName), Truncate16(a.moduleFlagsMask), VersionIndex(pool, a.moduleVersion),
      LowerRequires(pool, a.requireList),
      LowerPackages(pool, a.exportList),
      LowerPackages(pool, a.openList),
      IndexesOf(pool, a.useList),
      LowerProvides(pool, a.provideList))
  }

  function Resolve(pool: Pool, m: RawModule): Result<ModuleAttr, PoolError> {
    var name :- ResolveRef(pool, m.name, ModuleKind);
    var version :- ResolveVersion(pool, m.version);
    var rs :- ResolveRequires(pool, m.requireList);
    var es :- ResolvePackages(pool, m.exportList);
    var os :- ResolvePackages(pool, m.openList);
    var us :- ResolveRefs(pool, m.useList, ClassKind);
    var ps :- ResolveProvides(pool, m.provideList);
    Ok(ModuleAttr(name, m.flags, version, rs, es, os, us, ps))
  }

  /** The attribute body written with `pool`. */
  function Encode(pool: Pool, a: ModuleAttr): seq<byte> {
    EncodeRaw(Lower(pool, a))
  }

  /** The attribute read from its body with `pool`. */
  function Decode(pool: Pool, b: seq<byte>): Result<ModuleAttr, DecodeError> {
    match DecodeRaw(b)
    case Err(e) => Err(Malformed(e))
    case Ok(m) =>
      match Resolve(pool, m)
      case Err(e) => Err(Unresolved(e))
      case Ok(a) => Ok(a)
  }

  // ---- writing then reading

  lemma ResolveVersionOfIndex(pool: Pool, version: Option<Utf8Ref>)
    requires ValidPool(pool) && (version.Some? ==> version.value in pool.Values)
    ensures ResolveVersion(pool, VersionIndex(pool, version)) == Ok(version)
  {
    if version.Some? {
      IndexOfSpec(pool, version.value);
      ResolveIndexOf(pool, version.value, Utf8Kind);
    }
  }

  lemma ResolveRequireOfLower(pool: Pool, r: RequireInfo)
    requires ValidPool(pool) && RequireInPool(pool, r) && 0 <= r.flagsMask < 0x1_0000
    ensures ResolveRequire(pool, LowerRequire(pool, r)) == Ok(r)
  {
    ResolveIndexOf(pool, r.requiredModule, ModuleKind);
    ResolveVersionOfIndex(pool, r.version);
  }

  lemma {:induction false} ResolveRequiresOfLower(pool: Pool, s: seq<RequireInfo>)
    requires ValidPool(pool)
    requires forall i :: 0 <= i < |s| ==> RequireInPool(pool, s[i]) && 0 <= s[i].flagsMask < 0x1_0000
    ensures ResolveRequires(pool, LowerRequires(pool, s)) == Ok(s)
  {
    if s != [] {
      ResolveRequireOfLower(pool, s[0]);
      ResolveRequiresOfLower(pool, s[1..]);
      assert LowerRequires(pool, s)[1..] == LowerRequires(pool, s[1..]);
      assert [s[0]] + s[1..] == s;
    }
  }

  lemma ResolvePackageOfLower(pool: Pool, e: PackageInfo)
    requires ValidPool(pool) && PackageInPool(pool, e) && PackageFits(e)
    ensures ResolvePackage(pool, LowerPackage(pool, e)) == Ok(e)
  {
    ResolveIndexOf(pool, e.pkg, PackageKind);
    ResolveRefsOfIndexes(pool, e.targets, ModuleKind);
  }

  lemma {:induction false} ResolvePackagesOfLower(pool: Pool, s: seq<PackageInfo>)
    requires ValidPool(pool)
    requires forall i :: 0 <= i < |s| ==> PackageInPool(pool, s[i]) && PackageFits(s[i])
    ensures ResolvePackages(pool, LowerPackages(pool, s)) == Ok(s)
  {
    if s != [] {
      ResolvePackageOfLower(pool, s[0]);
      ResolvePackagesOfLower(pool, s[1..]);
      assert LowerPackages(pool, s)[1..] == LowerPackages(pool, s[1..]);
      assert [s[0]] + s[1..] == s;
    }
  }

  lemma ResolveProvideOfLower(pool: Pool, p: ProvideInfo)
    requires ValidPool(pool) && ProvideInPool(pool, p)
    ensures ResolveProvide(pool, LowerProvide(pool, p)) == Ok(p)
  {
    ResolveIndexOf(pool, p.service, ClassKind);
    ResolveRefsOfIndexes(pool, p.impls, ClassKind);
  }

  lemma {:induction false} ResolveProvidesOfLower(pool: Pool, s: seq<ProvideInfo>)
    requires ValidPool(pool)
    requires forall i :: 0 <= i < |s| ==> ProvideInPool(pool, s[i])
    ensures ResolveProvides(pool, LowerProvides(pool, s)) == Ok(s)
  {
    if s != [] {
      ResolveProvideOfLower(pool, s[0]);
      ResolveProvidesOfLower(pool, s[1..]);
      assert LowerProvides(pool, s)[1..] == LowerProvides(pool, s[1..]);
      assert [s[0]] + s[1..] == s;
    }
  }

  /** Lowering keeps every table's length and every target and implementation list's. */
  lemma {:induction false} LowerPackagesFit(pool: Pool, s: seq<PackageInfo>)
    requires |s| < 0x1_0000 && forall i :: 0 <= i < |s| ==> PackageFits(s[i])
    ensures GrantsFit(LowerPackages(pool, s))
  {
    if s != [] {
      LowerPackagesFit(pool, s[1..]);
      var r := LowerPackages(pool, s);
      forall i | 0 <= i < |r| ensures GrantFits(r[i]) {
        if i > 0 { assert r[i] == LowerPackages(pool, s[1..])[i - 1]; }
      }
    }
  }

  lemma {:induction false} LowerProvidesFit(pool: Pool, s: seq<ProvideInfo>)
    requires |s| < 0x1_0000 && forall i :: 0 <= i < |s| ==> |s[i].impls| < 0x1_0000
    ensures ProvidesFit(LowerProvides(pool, s))
  {
    if s != [] {
      LowerProvidesFit(pool, s[1..]);
      var r := LowerProvides(pool, s);
      forall i | 0 <= i < |r| ensures ProvideFits(r[i]) {
        if i > 0 { assert r[i] == LowerProvides(pool, s[1..])[i - 1]; }
      }
    }
  }

  /** Resolving the lowered attribute gives the attribute back. */
  lemma ResolveOfLower(pool: Pool, a: ModuleAttr)
    requires ValidPool(pool) && InPool(pool, a) && Fits(a)
    ensures RawFits(Lower(pool, a))
    ensures Resolve(pool, Lower(pool, a)) == Ok(a)
  {
    LowerFits(pool, a);
    ResolveIndexOf(pool, a.moduleName, ModuleKind);
    ResolveVersionOfIndex(pool, a.moduleVersion);
    ResolveRequiresOfLower(pool, a.requireList);
    ResolvePackagesOfLower(pool, a.exportList);
    ResolvePackagesOfLower(pool, a.openList);
    forall i | 0 <= i < |a.useList| ensures a.useList[i].kind == ClassKind { }
    ResolveRefsOfIndexes(pool, a.useList, ClassKind);
    ResolveProvidesOfLower(pool, a.provideList);
    ResolveOfParts(pool, Lower(pool, a), a);
  }

  /** A lowered attribute that fits its fields has tables that fit their counts. */
  lemma LowerFits(pool: Pool, a: ModuleAttr)
    requires Fits(a)
    ensures RawFits(Lower(pool, a))
  {
    LowerPackagesFit(pool, a.exportList);
    LowerPackagesFit(pool, a.openList);
    LowerProvidesFit(pool, a.provideList);
  }

  /** `Resolve` gives `a` when each part of the body resolves to the same part of `a`. */
  lemma ResolveOfParts(pool: Pool, m: RawModule, a: ModuleAttr)
    requires ResolveRef(pool, m.name, ModuleKind) == Ok(a.moduleName)
    requires m.flags == a.moduleFlagsMask
    requires ResolveVersion(pool, m.version) == Ok(a.moduleVersion)
    requires ResolveRequires(pool, m.requireList) == Ok(a.requireList)
    requires ResolvePackages(pool, m.exportList) == Ok(a.exportList)
    requires ResolvePackages(pool, m.openList) == Ok(a.openList)
    requires ResolveRefs(pool, m.useList, ClassKind) == Ok(a.useList)
    requires ResolveProvides(pool, m.provideList) == Ok(a.provideList)
    ensures Resolve(pool, m) == Ok(a)
  {
  }

  /** A body that resolves resolves part by part. */
  lemma PartsOfResolve(pool: Pool, m: RawModule)
    requires Resolve(pool, m).Ok?
    ensures ResolveRef(pool, m.name, ModuleKind) == Ok(Resolve(pool, m).value.moduleName)
    ensures m.flags == Resolve(pool, m).value.moduleFlagsMask
    ensures ResolveVersion(pool, m.version) == Ok(Resolve(pool, m).value.moduleVersion)
    ensures ResolveRequires(pool, m.requireList) == Ok(Resolve(pool, m).value.requireList)
    ensures ResolvePackages(pool, m.exportList) == Ok(Resolve(pool, m).value.exportList)
    ensures ResolvePackages(pool, m.openList) == Ok(Resolve(pool, m).value.openList)
    ensures ResolveRefs(pool, m.useList, ClassKind) == Ok(Resolve(pool, m).value.useList)
    ensures ResolveProvides(pool, m.provideList) == Ok(Resolve(pool, m).value.provideList)
  {
  }

  /** Decoding the encoding of an attribute whose entries stand in the pool and whose masks
      and tables fit their `u2` fields gives the same attribute back. */
  lemma DecodeOfEncode(pool: Pool, a: ModuleAttr)
    requires ValidPool(pool) && InPool(pool, a) && Fits(a)
    ensures Decode(pool, Encode(pool, a)) == Ok(a)
  {
    ResolveOfLower(pool, a);
    DecodeRawOfEncode(Lower(pool, a));
  }

  // ---- reading then writing

  lemma IndexOfResolvedVersion(pool: Pool, index: u16)
    requires ValidPool(pool) && ResolveVersion(pool, index).Ok?
    ensures VersionIndex(pool, ResolveVersion(pool, index).value) == index
    ensures ResolveVersion(pool, index).value.Some? ==> ResolveVersion(pool, index).value.value in pool.Values
  {
    if index != 0 {
      IndexOfResolved(pool, index, Utf8Kind);
    }
  }

  lemma LowerRequireOfResolved(pool: Pool, r: RawRequire)
    requires ValidPool(pool) && ResolveRequire(pool, r).Ok?
    ensures LowerRequire(pool, ResolveRequire(pool, r).value) == r
    ensures RequireInPool(pool, ResolveRequire(pool, r).value)
  {
    IndexOfResolved(pool, r.index, ModuleKind);
    IndexOfResolvedVersion(pool, r.version);
  }

  lemma {:induction false} LowerRequiresOfResolved(pool: Pool, s: seq<RawRequire>)
    requires ValidPool(pool) && ResolveRequires(pool, s).Ok?
    ensures LowerRequires(pool, ResolveRequires(pool, s).value) == s
    ensures forall i :: 0 <= i < |s| ==>
      RequireInPool(pool, ResolveRequires(pool, s).value[i]) && 0 <= ResolveRequires(pool, s).value[i].flagsMask < 0x1_0000
  {
    if s != [] {
      LowerRequireOfResolved(pool, s[0]);
      LowerRequiresOfResolved(pool, s[1..]);
      var r := ResolveRequires(pool, s).value;
      assert r[1..] == ResolveRequires(pool, s[1..]).value;
      assert [s[0]] + s[1..] == s;
      forall i | 0 <= i < |s| ensures RequireInPool(pool, r[i]) && 0 <= r[i].flagsMask < 0x1_0000 {
        if i > 0 { assert r[i] == r[1..][i - 1]; }
      }
    }
  }

  lemma LowerPackageOfResolved(pool: Pool, g: RawGrant)
    requires ValidPool(pool) && ResolvePackage(pool, g).Ok?
    ensures LowerPackage(pool, ResolvePackage(pool, g).value) == g
    ensures PackageInPool(pool, ResolvePackage(pool, g).value)
  {
    IndexOfResolved(pool, g.index, PackageKind);
    IndexesOfResolved(pool, g.targets, ModuleKind);
  }

  lemma {:induction false} LowerPackagesOfResolved(pool: Pool, s: seq<RawGrant>)
    requires ValidPool(pool) && ResolvePackages(pool, s).Ok?
    ensures LowerPackages(pool, ResolvePackages(pool, s).value) == s
    ensures forall i :: 0 <= i < |s| ==>
      PackageInPool(pool, ResolvePackages(pool, s).value[i]) && 0 <= ResolvePackages(pool, s).value[i].flagsMask < 0x1_0000
      && |ResolvePackages(pool, s).value[i].targets| == |s[i].targets|
  {
    if s != [] {
      LowerPackageOfResolved(pool, s[0]);
      LowerPackagesOfResolved(pool, s[1..]);
      var r := ResolvePackages(pool, s).value;
      assert r[1..] == ResolvePackages(pool, s[1..]).value;
      assert [s[0]] + s[1..] == s;
      forall i | 0 <= i < |s| ensures PackageInPool(pool, r[i]) && 0 <= r[i].flagsMask < 0x1_0000 && |r[i].targets| == |s[i].targets| {
        if i > 0 { assert r[i] == r[1..][i - 1] && s[i] == s[1..][i - 1]; }
      }
    }
  }

  lemma LowerProvideOfResolved(pool: Pool, p: RawProvide)
    requires ValidPool(pool) && ResolveProvide(pool, p).Ok?
    ensures LowerProvide(pool, ResolveProvide(pool, p).value) == p
    ensures ProvideInPool(pool, ResolveProvide(pool, p).value)
  {
    IndexOfResolved(pool, p.index, ClassKind);
    IndexesOfResolved(pool, p.impls, ClassKind);
  }

  lemma {:induction false} LowerProvidesOfResolved(pool: Pool, s: seq<RawProvide>)
    requires ValidPool(pool) && ResolveProvides(pool, s).Ok?
    ensures LowerProvides(pool, ResolveProvides(pool, s).value) == s
    ensures forall i :: 0 <= i < |s| ==>
      ProvideInPool(pool, ResolveProvides(pool, s).value[i]) && |ResolveProvides(pool, s).value[i].impls| == |s[i].impls|
  {
    if s != [] {
      LowerProvideOfResolved(pool, s[0]);
      LowerProvidesOfResolved(pool, s[1..]);
      var r := ResolveProvides(pool, s).value;
      assert r[1..] == ResolveProvides(pool, s[1..]).value;
      assert [s[0]] + s[1..] == s;
      forall i | 0 <= i < |s| ensures ProvideInPool(pool, r[i]) && |r[i].impls| == |s[i].impls| {
        if i > 0 { assert r[i] == r[1..][i - 1] && s[i] == s[1..][i - 1]; }
      }
    }
  }

  /** An attribute read through the pool lowers back to the indices it was read from,
      stands in the pool, and fits its fields when the body did. */
  lemma LowerOfResolve(pool: Pool, m: RawModule)
    requires ValidPool(pool) && Resolve(pool, m).Ok?
    ensures Lower(pool, Resolve(pool, m).value) == m
    ensures InPool(pool, Resolve(pool, m).value)
    ensures RawFits(m) ==> Fits(Resolve(pool, m).value)
  {
    var a := Resolve(pool, m).value;
    PartsOfResolve(pool, m);
    IndexOfResolved(pool, m.name, ModuleKind);
    IndexOfResolvedVersion(pool, m.version);
    LowerRequiresOfResolved(pool, m.requireList);
    LowerPackagesOfResolved(pool, m.exportList);
    LowerPackagesOfResolved(pool, m.openList);
    IndexesOfResolved(pool, m.useList, ClassKind);
    LowerProvidesOfResolved(pool, m.provideList);
    LowerOfParts(pool, m, a);
    if RawFits(m) {
      forall i | 0 <= i < |a.exportList| ensures PackageFits(a.exportList[i]) {
        assert GrantFits(m.exportList[i]);
      }
      forall i | 0 <= i < |a.openList| ensures PackageFits(a.openList[i]) {
        assert GrantFits(m.openList[i]);
      }
      forall i | 0 <= i < |a.provideList| ensures |a.provideList[i].impls| < 0x1_0000 {
        assert ProvideFits(m.provideList[i]);
      }
    }
  }

  /** `Lower` gives `m` when each part of `a` lowers to the same part of `m`. */
  lemma LowerOfParts(pool: Pool, m: RawModule, a: ModuleAttr)
    requires IndexOf(pool, a.moduleName) == m.name
    requires a.moduleFlagsMask == m.flags as int
    requires VersionIndex(pool, a.moduleVersion) == m.version
    requires LowerRequires(pool, a.requireList) == m.requireList
    requires LowerPackages(pool, a.exportList) == m.exportList
    requires LowerPackages(pool, a.openList) == m.openList
    requires IndexesOf(pool, a.useList) == m.useList
    requires LowerProvides(pool, a.provideList) == m.provideList
    ensures Lower(pool, a) == m
  {
  }

  /** Bytes that decode are exactly the encoding of what they decode to, and that
      attribute stands in the pool and fits its fields. */
  lemma EncodeOfDecode(pool: Pool, b: seq<byte>)
    requires ValidPool(pool) && Decode(pool, b).Ok?
    ensures Encode(pool, Decode(pool, b).value) == b
    ensures InPool(pool, Decode(pool, b).value) && Fits(Decode(pool, b).value)
  {
    EncodeOfDecodeRaw(b);
    LowerOfResolve(pool, DecodeRaw(b).value);
  }

  /** An export or open with no target modules is written with `to_count` 0; its targets
      are otherwise written as their indices, in the given order. */
  lemma PackageTargetsLayout(pool: Pool, e: PackageInfo, k: nat)
    requires |e.targets| < 0x1_0000
    ensures |EncGrant(LowerPackage(pool, e))| == 6 + 2 * |e.targets|
    ensures e.targets == [] ==> EncGrant(LowerPackage(pool, e))[4..6] == [0, 0]
    ensures k < |e.targets| ==>
      EncGrant(LowerPackage(pool, e))[6 + 2 * k .. 8 + 2 * k] == U2(IndexOf(pool, e.targets[k]))
  {
    var g := LowerPackage(pool, e);
    EncU2sLength(g.targets);
    if e.targets == [] {
      UnqualifiedGrant(g);
    }
    if k < |e.targets| {
      GrantLayout(g, k);
      IndexesOfAt(pool, e.targets, k);
    }
  }
}
