/** Access flags of the locations a Module attribute carries masks for, after
    java.lang.reflect.AccessFlag and the bit values of JVMS section 4.7.25 (module,
    requires, exports and opens flags). Of the other locations' flags only PUBLIC,
    FINAL and SUPER (JVMS section 4.1) are modelled, enough to name a flag that belongs
    elsewhere. A mask is a Java `int`; only its low 16 bits can name a flag. */
module AccessFlags {
  import opened Wrappers

  /** The places in a class file where a flag mask stands. */
  datatype Location =
    | Class | Field | Method | InnerClass | MethodParameter
    | Module | ModuleRequires | ModuleExports | ModuleOpens

  /** The flags that can stand at a module location, and three class flags that cannot
      (SUPER has the bit of OPEN and TRANSITIVE; PUBLIC and FINAL have bits no module
      location names). */
  datatype AccessFlag = Public | Final | Super | Open | Transitive | StaticPhase | Synthetic | Mandated {

    /** The flag's single bit. */
    function Mask(): bv16 {
      match this
      case Public => 0x0001
      case Final => 0x0010
      case Super => 0x0020
      case Open => 0x0020
      case Transitive => 0x0020
      case StaticPhase => 0x0040
      case Synthetic => 0x1000
      case Mandated => 0x8000
    }

    /** The locations at which the flag means something. */
    function Locations(): set<Location> {
      match this
      case Public => {Class, Field, Method, InnerClass}
      case Final => {Class, Field, Method, InnerClass, MethodParameter}
      case Super => {Class}
      case Open => {Module}
      case Transitive => {ModuleRequires}
      case StaticPhase => {ModuleRequires}
      case Synthetic => {Class, Field, Method, InnerClass, MethodParameter,
                          Module, ModuleRequires, ModuleExports, ModuleOpens}
      case Mandated => {MethodParameter, Module, ModuleRequires, ModuleExports, ModuleOpens}
    }
  }

  /** Builder failure: a flag used at a location it does not belong to. */
  datatype FlagError = UnexpectedFlag(flag: AccessFlag, location: Location)

  /** The flags of one location, in declaration order. */
  function LocationFlags(loc: Location): (table: seq<AccessFlag>)
    ensures |table| <= 4
    ensures forall f :: f in table <==> loc in f.Locations()
  {
    match loc
    case Class => [Public, Final, Super, Synthetic]
    case Field => [Public, Final, Synthetic]
    case Method => [Public, Final, Synthetic]
    case InnerClass => [Public, Final, Synthetic]
    case MethodParameter => [Final, Synthetic, Mandated]
    case Module => [Open, Synthetic, Mandated]
    case ModuleRequires => [Transitive, StaticPhase, Synthetic, Mandated]
    case ModuleExports => [Synthetic, Mandated]
    case ModuleOpens => [Synthetic, Mandated]
  }

  /** The mask of the `i`-th flag of `table` if that flag is in `named`, else no bits. */
  function Pick(table: seq<AccessFlag>, i: nat, named: set<AccessFlag>): bv16 {
    if i < |table| && table[i] in named then table[i].Mask() else 0
  }

  /** The OR of the masks of those flags of a location's table that are in `named`. */
  function BitsOf(loc: Location, named: set<AccessFlag>): bv16 {
    var table := LocationFlags(loc);
    Pick(table, 0, named) | Pick(table, 1, named) | Pick(table, 2, named) | Pick(table, 3, named)
  }

  /** The bits some flag of `loc` names. */
  function KnownBits(loc: Location): bv16 {
    BitsOf(loc, set f | f in LocationFlags(loc))
  }

  /** The low 16 bits of a Java `int` (two's complement), the part a u2 field keeps. */
  function Low16(mask: int): bv16 {
    (mask % 0x1_0000) as bv16
  }

  /** Whether the bit of `flag` is set in `m`. */
  predicate IsSet(m: bv16, flag: AccessFlag) {
    m & flag.Mask() != 0
  }

  /** The named flags of `loc` whose bit is set in `mask`; bits that name no flag of
      `loc` are left unnamed. */
  function MaskToFlags(mask: int, loc: Location): set<AccessFlag> {
    set f | f in LocationFlags(loc) && IsSet(Low16(mask), f)
  }

  /** Whether `flag` is set in `mask` at `loc`: its bit is set and it belongs to `loc`. */
  function Has(loc: Location, mask: int, flag: AccessFlag): bool {
    Low16(mask) & flag.Mask() == flag.Mask() && loc in flag.Locations()
  }

  /** The first flag of the list that does not belong to `loc`, if any. */
  function FirstUnexpected(loc: Location, flags: seq<AccessFlag>): Option<AccessFlag> {
    if flags == [] then None
    else if loc !in flags[0].Locations() then Some(flags[0])
    else FirstUnexpected(loc, flags[1..])
  }

  /** The mask of a list of flags: the OR of their bits (an OR, so taken over the distinct
      flags of the list); the first flag that does not belong to `loc` is an error. */
  function FlagsToBits(loc: Location, flags: seq<AccessFlag>): Result<bv16, FlagError> {
    match FirstUnexpected(loc, flags)
    case Some(f) => Err(UnexpectedFlag(f, loc))
    case None => Ok(BitsOf(loc, set f | f in flags))
  }

  lemma Low16OfBits(b: bv16)
    ensures Low16(b as int) == b
  {
    assert (b as int) % 0x1_0000 == b as int;
  }

  /** `Has` tests the mask directly, yet agrees with membership in the named set. */
  lemma HasIffNamed(loc: Location, mask: int, flag: AccessFlag)
    ensures Has(loc, mask, flag) <==> flag in MaskToFlags(mask, loc)
  {
  }

  /** The named set holds exactly the flags of `loc` whose bit is set. */
  lemma MaskToFlagsMembers(mask: int, loc: Location, flag: AccessFlag)
    ensures flag in MaskToFlags(mask, loc) <==> loc in flag.Locations() && IsSet(Low16(mask), flag)
  {
  }

  /** `FlagsToBits` fails exactly when some flag does not belong to `loc`, and then
      names the first such flag. */
  lemma {:induction false} FlagsToBitsFails(loc: Location, flags: seq<AccessFlag>)
    ensures FlagsToBits(loc, flags).Err? <==> exists i :: 0 <= i < |flags| && loc !in flags[i].Locations()
    ensures FlagsToBits(loc, flags).Err? ==>
      exists i :: 0 <= i < |flags| && FlagsToBits(loc, flags).error == UnexpectedFlag(flags[i], loc)
        && loc !in flags[i].Locations() && forall j :: 0 <= j < i ==> loc in flags[j].Locations()
  {
    if flags != [] && loc in flags[0].Locations() {
      FlagsToBitsFails(loc, flags[1..]);
      if FlagsToBits(loc, flags).Err? {
        var i :| 0 <= i < |flags[1..]| && FlagsToBits(loc, flags[1..]).error == UnexpectedFlag(flags[1..][i], loc)
          && loc !in flags[1..][i].Locations() && forall j :: 0 <= j < i ==> loc in flags[1..][j].Locations();
        assert FlagsToBits(loc, flags).error == UnexpectedFlag(flags[i + 1], loc);
      } else {
        forall i | 0 <= i < |flags| ensures loc in flags[i].Locations() {
          if i > 0 { assert flags[i] == flags[1..][i - 1]; }
        }
      }
    } else if flags != [] {
      assert FlagsToBits(loc, flags).error == UnexpectedFlag(flags[0], loc);
    }
  }

  /** Within one location every flag has its own bit: the OR of the named flags has a
      flag's bit exactly when that flag is named. */
  lemma BitOfBitsOf(loc: Location, named: set<AccessFlag>, flag: AccessFlag)
    requires flag in LocationFlags(loc)
    ensures IsSet(BitsOf(loc, named), flag) <==> flag in named
  {
    match loc
    case Class => BitAtClass(named, flag);
    case Field => BitAtField(named, flag);
    case Method => BitAtMethod(named, flag);
    case InnerClass => BitAtInnerClass(named, flag);
    case MethodParameter => BitAtMethodParameter(named, flag);
    case Module => BitAtModule(named, flag);
    case ModuleRequires => BitAtModuleRequires(named, flag);
    case ModuleExports => BitAtModuleExports(named, flag);
    case ModuleOpens => BitAtModuleOpens(named, flag);
  }

  lemma BitAtClass(named: set<AccessFlag>, flag: AccessFlag)
    requires flag in LocationFlags(Class)
    ensures IsSet(BitsOf(Class, named), flag) <==> flag in named
  {
  }

  lemma BitAtField(named: set<AccessFlag>, flag: AccessFlag)
    requires flag in LocationFlags(Field)
    ensures IsSet(BitsOf(Field, named), flag) <==> flag in named
  {
  }

  lemma BitAtMethod(named: set<AccessFlag>, flag: AccessFlag)
    requires flag in LocationFlags(Method)
    ensures IsSet(BitsOf(Method, named), flag) <==> flag in named
  {
  }

  lemma BitAtInnerClass(named: set<AccessFlag>, flag: AccessFlag)
    requires flag in LocationFlags(InnerClass)
    ensures IsSet(BitsOf(InnerClass, named), flag) <==> flag in named
  {
  }

  lemma BitAtMethodParameter(named: set<AccessFlag>, flag: AccessFlag)
    requires flag in LocationFlags(MethodParameter)
    ensures IsSet(BitsOf(MethodParameter, named), flag) <==> flag in named
  {
  }

  lemma BitAtModule(named: set<AccessFlag>, flag: AccessFlag)
    requires flag in LocationFlags(Location.Module)
    ensures IsSet(BitsOf(Location.Module, named), flag) <==> flag in named
  {
  }

  lemma BitAtModuleRequires(named: set<AccessFlag>, flag: AccessFlag)
    requires flag in LocationFlags(ModuleRequires)
    ensures IsSet(BitsOf(ModuleRequires, named), flag) <==> flag in named
  {
  }

  lemma BitAtModuleExports(named: set<AccessFlag>, flag: AccessFlag)
    requires flag in LocationFlags(ModuleExports)
    ensures IsSet(BitsOf(ModuleExports, named), flag) <==> flag in named
  {
  }

  lemma BitAtModuleOpens(named: set<AccessFlag>, flag: AccessFlag)
    requires flag in LocationFlags(ModuleOpens)
    ensures IsSet(BitsOf(ModuleOpens, named), flag) <==> flag in named
  {
  }

  /** The part of a mask the flags of `loc` name, recovered from its named set. */
  lemma BitsOfNamed(mask: int, loc: Location)
    ensures BitsOf(loc, MaskToFlags(mask, loc)) == Low16(mask) & KnownBits(loc)
  {
    var table, m := LocationFlags(loc), Low16(mask);
    var named, all := MaskToFlags(mask, loc), set f | f in LocationFlags(loc);
    var a, b, c, d := MaskAt(table, 0), MaskAt(table, 1), MaskAt(table, 2), MaskAt(table, 3);
    NamedSlot(mask, loc, 0);
    NamedSlot(mask, loc, 1);
    NamedSlot(mask, loc, 2);
    NamedSlot(mask, loc, 3);
    BitsOfSlots(loc, named);
    BitsOfSlots(loc, all);
    SelectFour(m, a, b, c, d);
  }

  /** `BitsOf` is the OR of the four slots of the location's table. */
  lemma BitsOfSlots(loc: Location, named: set<AccessFlag>)
    ensures BitsOf(loc, named) == Pick(LocationFlags(loc), 0, named) | Pick(LocationFlags(loc), 1, named)
      | Pick(LocationFlags(loc), 2, named) | Pick(LocationFlags(loc), 3, named)
  {
  }

  /** One slot of `BitsOfNamed`: the slot's pick from the named set is the mask's bit there,
      its pick from the whole table is the slot's bit, and that is a single bit. */
  lemma NamedSlot(mask: int, loc: Location, i: nat)
    ensures Pick(LocationFlags(loc), i, MaskToFlags(mask, loc)) == Select(Low16(mask), MaskAt(LocationFlags(loc), i))
    ensures Pick(LocationFlags(loc), i, set f | f in LocationFlags(loc)) == MaskAt(LocationFlags(loc), i)
    ensures SingleBit(MaskAt(LocationFlags(loc), i))
  {
    var table, m := LocationFlags(loc), Low16(mask);
    var named := MaskToFlags(mask, loc);
    if i < |table| {
      FlagIsSingleBit(table[i]);
      assert table[i] in named <==> IsSet(m, table[i]);
    }
    PickSelected(table, i, named, m);
  }

  lemma PickSelected(table: seq<AccessFlag>, i: nat, named: set<AccessFlag>, m: bv16)
    requires i < |table| ==> (table[i] in named <==> IsSet(m, table[i]))
    ensures Pick(table, i, named) == Select(m, MaskAt(table, i))
  {
    if i < |table| {
      var f := table[i];
      assert MaskAt(table, i) == f.Mask();
      if f in named {
        assert Pick(table, i, named) == f.Mask() && IsSet(m, f);
      } else {
        assert Pick(table, i, named) == 0 && !IsSet(m, f);
      }
    } else {
      assert Pick(table, i, named) == 0 && MaskAt(table, i) == 0;
      assert Select(m, 0) == 0;
    }
  }

  /** The mask of the `i`-th flag of `table`, or no bits past its end. */
  function MaskAt(table: seq<AccessFlag>, i: nat): bv16 {
    if i < |table| then table[i].Mask() else 0
  }

  /** At most one bit of `b` is set. */
  predicate SingleBit(b: bv16) {
    b & (b - 1) == 0
  }

  /** `b` if `m` has its bit, else no bits. */
  function Select(m: bv16, b: bv16): bv16 {
    if m & b != 0 then b else 0
  }

  lemma FlagIsSingleBit(flag: AccessFlag)
    ensures SingleBit(flag.Mask())
  {
  }

  lemma SelectFour(m: bv16, a: bv16, b: bv16, c: bv16, d: bv16)
    requires SingleBit(a) && SingleBit(b) && SingleBit(c) && SingleBit(d)
    ensures Select(m, a) | Select(m, b) | Select(m, c) | Select(m, d) == m & (a | b | c | d)
  {
    SelectOne(m, a);
    SelectOne(m, b);
    SelectOne(m, c);
    SelectOne(m, d);
    AndDistributes(m, a, b, c, d, Select(m, a), Select(m, b), Select(m, c), Select(m, d));
  }

  lemma SelectOne(m: bv16, a: bv16)
    requires SingleBit(a)
    ensures Select(m, a) == m & a
  {
    SelectOneBits(m, a);
  }

  lemma SelectOneBits(m: bv16, a: bv16)
    requires a & (a - 1) == 0
    ensures (if m & a != 0 then a else 0) == m & a
  {
  }

  lemma AndDistributes(m: bv16, a: bv16, b: bv16, c: bv16, d: bv16, x: bv16, y: bv16, z: bv16, w: bv16)
    requires x == m & a && y == m & b && z == m & c && w == m & d
    ensures x | y | z | w == m & (a | b | c | d)
  {
  }

  /** A mask converted to named flags and back keeps every bit the location names:
      any flag list whose set is the named set of `mask` converts to that part of `mask`. */
  lemma NamedFlagsRoundTrip(mask: int, loc: Location, flags: seq<AccessFlag>)
    requires (set f | f in flags) == MaskToFlags(mask, loc)
    ensures FlagsToBits(loc, flags) == Ok(Low16(mask) & KnownBits(loc))
  {
    forall i | 0 <= i < |flags| ensures loc in flags[i].Locations() {
      assert flags[i] in MaskToFlags(mask, loc);
    }
    FlagsToBitsFails(loc, flags);
    BitsOfNamed(mask, loc);
  }

  /** Flags converted to a mask and back give exactly the flags converted. */
  lemma FlagsRoundTrip(loc: Location, flags: seq<AccessFlag>)
    requires FlagsToBits(loc, flags).Ok?
    ensures MaskToFlags(FlagsToBits(loc, flags).value as int, loc) == set f | f in flags
  {
    FlagsToBitsFails(loc, flags);
    var named := set f | f in flags;
    var b := BitsOf(loc, named);
    Low16OfBits(b);
    forall f | f in LocationFlags(loc) ensures IsSet(b, f) <==> f in named {
      BitOfBitsOf(loc, named, f);
    }
    forall f | f in flags ensures f in LocationFlags(loc) {
      var i :| 0 <= i < |flags| && flags[i] == f;
    }
  }
}
