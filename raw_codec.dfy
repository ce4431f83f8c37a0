/** The byte layout of the Module attribute's body (JVMS section 4.7.25), on constant-pool
    indices: every field is a big-endian `u2`, and every table is a `u2` count followed by
    its entries. A count is written as the low 16 bits of the table's length. */
module RawCodec {
  import opened Wrappers
  import opened Ints

  datatype RawRequire = RawRequire(index: u16, flags: u16, version: u16)

  /** An `exports` or `opens` entry: package index, flags, and target module indices. */
  datatype RawGrant = RawGrant(index: u16, flags: u16, targets: seq<u16>)

  datatype RawProvide = RawProvide(index: u16, impls: seq<u16>)

  datatype RawModule = RawModule(
    name: u16, flags: u16, version: u16,
    requireList: seq<RawRequire>,
    exportList: seq<RawGrant>,
    openList: seq<RawGrant>,
    useList: seq<u16>,
    provideList: seq<RawProvide>)

  /** The outcome of reading a prefix: the value read and the bytes after it, or too few bytes. */
  datatype Parsed<+T> = Done(value: T, rest: seq<byte>) | Short {
    predicate IsFailure() { Short? }

    function PropagateFailure<U>(): Parsed<U>
      requires Short?
    {
      Short
    }

    function Extract(): (T, seq<byte>)
      requires Done?
    {
      (value, rest)
    }
  }

  datatype RawError = Truncated | TrailingBytes(count: nat)

  function U2(v: u16): seq<byte> {
    [v / 0x100, v % 0x100]
  }

  function ReadU2(b: seq<byte>): Parsed<u16> {
    if |b| < 2 then Short else Done(b[0] as int * 0x100 + b[1] as int, b[2..])
  }

  /** The `u2` count written for a table of `n` entries. */
  function Count(n: nat): u16 {
    Truncate16(n)
  }

  // ---- lists of u2 values (targets, uses, implementation classes)

  function EncU2s(s: seq<u16>): seq<byte> {
    if s == [] then [] else U2(s[0]) + EncU2s(s[1..])
  }

  function ReadU2s(b: seq<byte>, n: nat): Parsed<seq<u16>>
    decreases n
  {
    if n == 0 then Done([], b)
    else
      var v :- ReadU2(b);
      var vs :- ReadU2s(v.1, n - 1);
      Done([v.0] + vs.0, vs.1)
  }

  function EncIndexTable(s: seq<u16>): seq<byte> {
    U2(Count(|s|)) + EncU2s(s)
  }

  function ReadIndexTable(b: seq<byte>): Parsed<seq<u16>> {
    var c :- ReadU2(b);
    ReadU2s(c.1, c.0)
  }

  // ---- requires

  function EncRequire(r: RawRequire): seq<byte> {
    U2(r.index) + U2(r.flags) + U2(r.version)
  }

  function ReadRequire(b: seq<byte>): Parsed<RawRequire> {
    var i :- ReadU2(b);
    var f :- ReadU2(i.1);
    var v :- ReadU2(f.1);
    Done(RawRequire(i.0, f.0, v.0), v.1)
  }

  function EncRequires(s: seq<RawRequire>): seq<byte> {
    if s == [] then [] else EncRequire(s[0]) + EncRequires(s[1..])
  }

  function ReadRequires(b: seq<byte>, n: nat): Parsed<seq<RawRequire>>
    decreases n
  {
    if n == 0 then Done([], b)
    else
      var r :- ReadRequire(b);
      var rs :- ReadRequires(r.1, n - 1);
      Done([r.0] + rs.0, rs.1)
  }

  function EncRequireTable(s: seq<RawRequire>): seq<byte> {
    U2(Count(|s|)) + EncRequires(s)
  }

  function ReadRequireTable(b: seq<byte>): Parsed<seq<RawRequire>> {
    var c :- ReadU2(b);
    ReadRequires(c.1, c.0)
  }

  // ---- exports and opens

  function EncGrant(g: RawGrant): seq<byte> {
    U2(g.index) + U2(g.flags) + EncIndexTable(g.targets)
  }

  function ReadGrant(b: seq<byte>): Parsed<RawGrant> {
    var i :- ReadU2(b);
    var f :- ReadU2(i.1);
    var t :- ReadIndexTable(f.1);
    Done(RawGrant(i.0, f.0, t.0), t.1)
  }

  function EncGrants(s: seq<RawGrant>): seq<byte> {
    if s == [] then [] else EncGrant(s[0]) + EncGrants(s[1..])
  }

  function ReadGrants(b: seq<byte>, n: nat): Parsed<seq<RawGrant>>
    decreases n
  {
    if n == 0 then Done([], b)
    else
      var g :- ReadGrant(b);
      var gs :- ReadGrants(g.1, n - 1);
      Done([g.0] + gs.0, gs.1)
  }

  function EncGrantTable(s: seq<RawGrant>): seq<byte> {
    U2(Count(|s|)) + EncGrants(s)
  }

  function ReadGrantTable(b: seq<byte>): Parsed<seq<RawGrant>> {
    var c :- ReadU2(b);
    ReadGrants(c.1, c.0)
  }

  // ---- provides

  function EncProvide(p: RawProvide): seq<byte> {
    U2(p.index) + EncIndexTable(p.impls)
  }

  function ReadProvide(b: seq<byte>): Parsed<RawProvide> {
    var i :- ReadU2(b);
    var t :- ReadIndexTable(i.1);
    Done(RawProvide(i.0, t.0), t.1)
  }

  function EncProvides(s: seq<RawProvide>): seq<byte> {
    if s == [] then [] else EncProvide(s[0]) + EncProvides(s[1..])
  }

  function ReadProvides(b: seq<byte>, n: nat): Parsed<seq<RawProvide>>
    decreases n
  {
    if n == 0 then Done([], b)
    else
      var p :- ReadProvide(b);
      var ps :- ReadProvides(p.1, n - 1);
      Done([p.0] + ps.0, ps.1)
  }

  function EncProvideTable(s: seq<RawProvide>): seq<byte> {
    U2(Count(|s|)) + EncProvides(s)
  }

  function ReadProvideTable(b: seq<byte>): Parsed<seq<RawProvide>> {
    var c :- ReadU2(b);
    ReadProvides(c.1, c.0)
  }

  // ---- the attribute body

  /** The body in JVMS order: name, flags and version indices, then the requires, exports,
      opens, uses and provides tables. */
  function EncodeRaw(m: RawModule): seq<byte> {
    U2(m.name) + U2(m.flags) + U2(m.version)
      + EncRequireTable(m.requireList)
      + EncGrantTable(m.exportList)
      + EncGrantTable(m.openList)
      + EncIndexTable(m.useList)
      + EncProvideTable(m.provideList)
  }

  function ReadModule(b: seq<byte>): Parsed<RawModule> {
    var n :- ReadU2(b);
    var f :- ReadU2(n.1);
    var v :- ReadU2(f.1);
    var rs :- ReadRequireTable(v.1);
    var es :- ReadGrantTable(rs.1);
    var os :- ReadGrantTable(es.1);
    var us :- ReadIndexTable(os.1);
    var ps :- ReadProvideTable(us.1);
    Done(RawModule(n.0, f.0, v.0, rs.0, es.0, os.0, us.0, ps.0), ps.1)
  }

  /** The body must take up the whole attribute. */
  function DecodeRaw(b: seq<byte>): (r: Result<RawModule, RawError>)
  {
    match ReadModule(b)
    case Short => Err(Truncated)
    case Done(m, rest) => if rest == [] then Ok(m) else Err(TrailingBytes(|rest|))
  }


  // ---- sizes a round trip needs

  predicate GrantFits(g: RawGrant) {
    |g.targets| < 0x1_0000
  }

  predicate ProvideFits(p: RawProvide) {
    |p.impls| < 0x1_0000
  }

  predicate GrantsFit(s: seq<RawGrant>) {
    |s| < 0x1_0000 && forall i :: 0 <= i < |s| ==> GrantFits(s[i])
  }

  predicate ProvidesFit(s: seq<RawProvide>) {
    |s| < 0x1_0000 && forall i :: 0 <= i < |s| ==> ProvideFits(s[i])
  }

  /** Every table's length fits its `u2` count. */
  predicate RawFits(m: RawModule) {
    && |m.requireList| < 0x1_0000
    && GrantsFit(m.exportList)
    && GrantsFit(m.openList)
    && |m.useList| < 0x1_0000
    && ProvidesFit(m.provideList)
  }

  // ---- u2

  lemma ReadU2OfU2(v: u16, t: seq<byte>)
    ensures ReadU2(U2(v) + t) == Done(v, t)
  {
    assert (U2(v) + t)[2..] == t;
  }

  lemma U2OfReadU2(b: seq<byte>)
    ensures ReadU2(b).Done? ==> |b| >= 2 && b == U2(ReadU2(b).value) + ReadU2(b).rest
  {
    if |b| >= 2 {
      var v := b[0] as int * 0x100 + b[1] as int;
      assert v / 0x100 == b[0] && v % 0x100 == b[1];
      assert b == [b[0], b[1]] + b[2..];
    }
  }

  // ---- lists of u2 values

  lemma {:induction false} ReadU2sOfEnc(s: seq<u16>, t: seq<byte>)
    ensures ReadU2s(EncU2s(s) + t, |s|) == Done(s, t)
  {
    if s != [] {
      var rest := EncU2s(s[1..]) + t;
      assert EncU2s(s) == U2(s[0]) + EncU2s(s[1..]);
      Assoc3(U2(s[0]), EncU2s(s[1..]), t);
      ReadU2OfU2(s[0], rest);
      ReadU2sOfEnc(s[1..], t);
      ReadU2sCons(EncU2s(s) + t, |s|, s[0], rest, s[1..], t);
      assert [s[0]] + s[1..] == s;
    }
  }

  lemma ReadU2sCons(b: seq<byte>, n: nat, x: u16, rest: seq<byte>, xs: seq<u16>, t: seq<byte>)
    requires n > 0 && ReadU2(b) == Done(x, rest) && ReadU2s(rest, n - 1) == Done(xs, t)
    ensures ReadU2s(b, n) == Done([x] + xs, t)
  {
  }

  lemma ReadU2sUncons(b: seq<byte>, n: nat)
    requires n > 0 && ReadU2s(b, n).Done?
    ensures ReadU2(b).Done? && ReadU2s(ReadU2(b).rest, n - 1).Done?
    ensures ReadU2s(b, n).value == [ReadU2(b).value] + ReadU2s(ReadU2(b).rest, n - 1).value
    ensures ReadU2s(b, n).rest == ReadU2s(ReadU2(b).rest, n - 1).rest
  {
  }

  /** One entry read in front of the rest of a list gives the whole list. */
  lemma EncU2sStep(b: seq<byte>, x: u16, rest: seq<byte>, xs: seq<u16>, t: seq<byte>)
    requires b == U2(x) + rest && rest == EncU2s(xs) + t
    ensures b == EncU2s([x] + xs) + t
  {
    assert ([x] + xs)[0] == x && ([x] + xs)[1..] == xs;
    Assoc3(U2(x), EncU2s(xs), t);
  }

  lemma {:induction false} EncOfReadU2s(b: seq<byte>, n: nat)
    ensures ReadU2s(b, n).Done? ==>
      && |ReadU2s(b, n).value| == n
      && b == EncU2s(ReadU2s(b, n).value) + ReadU2s(b, n).rest
    decreases n
  {
    if n > 0 && ReadU2s(b, n).Done? {
      ReadU2sUncons(b, n);
      U2OfReadU2(b);
      var v := ReadU2(b);
      EncOfReadU2s(v.rest, n - 1);
      EncU2sStep(b, v.value, v.rest, ReadU2s(v.rest, n - 1).value, ReadU2s(v.rest, n - 1).rest);
    }
  }

  lemma ReadIndexTableOfEnc(s: seq<u16>, t: seq<byte>)
    requires |s| < 0x1_0000
    ensures ReadIndexTable(EncIndexTable(s) + t) == Done(s, t)
  {
    assert EncIndexTable(s) == U2(|s|) + EncU2s(s);
    Assoc3(U2(|s|), EncU2s(s), t);
    ReadU2OfU2(|s|, EncU2s(s) + t);
    ReadU2sOfEnc(s, t);
  }

  lemma EncOfReadIndexTable(b: seq<byte>)
    ensures ReadIndexTable(b).Done? ==>
      |ReadIndexTable(b).value| < 0x1_0000 && b == EncIndexTable(ReadIndexTable(b).value) + ReadIndexTable(b).rest
  {
    if ReadIndexTable(b).Done? {
      U2OfReadU2(b);
      var c := ReadU2(b);
      EncOfReadU2s(c.rest, c.value);
    }
  }

  // ---- requires

  lemma ReadRequireOfEnc(r: RawRequire, t: seq<byte>)
    ensures ReadRequire(EncRequire(r) + t) == Done(r, t)
  {
    Assoc4(U2(r.index), U2(r.flags), U2(r.version), t);
    ReadU2OfU2(r.index, U2(r.flags) + (U2(r.version) + t));
    ReadU2OfU2(r.flags, U2(r.version) + t);
    ReadU2OfU2(r.version, t);
  }

  lemma EncOfReadRequire(b: seq<byte>)
    ensures ReadRequire(b).Done? ==> b == EncRequire(ReadRequire(b).value) + ReadRequire(b).rest
  {
    if ReadRequire(b).Done? {
      U2OfReadU2(b);
      var i := ReadU2(b);
      U2OfReadU2(i.rest);
      var f := ReadU2(i.rest);
      U2OfReadU2(f.rest);
    }
  }

  lemma {:induction false} ReadRequiresOfEnc(s: seq<RawRequire>, t: seq<byte>)
    ensures ReadRequires(EncRequires(s) + t, |s|) == Done(s, t)
  {
    if s != [] {
      var rest := EncRequires(s[1..]) + t;
      assert EncRequires(s) == EncRequire(s[0]) + EncRequires(s[1..]);
      Assoc3(EncRequire(s[0]), EncRequires(s[1..]), t);
      ReadRequireOfEnc(s[0], rest);
      ReadRequiresOfEnc(s[1..], t);
      ReadRequiresCons(EncRequires(s) + t, |s|, s[0], rest, s[1..], t);
      assert [s[0]] + s[1..] == s;
    }
  }

  lemma ReadRequiresCons(b: seq<byte>, n: nat, x: RawRequire, rest: seq<byte>, xs: seq<RawRequire>, t: seq<byte>)
    requires n > 0 && ReadRequire(b) == Done(x, rest) && ReadRequires(rest, n - 1) == Done(xs, t)
    ensures ReadRequires(b, n) == Done([x] + xs, t)
  {
  }

  lemma ReadRequiresUncons(b: seq<byte>, n: nat)
    requires n > 0 && ReadRequires(b, n).Done?
    ensures ReadRequire(b).Done? && ReadRequires(ReadRequire(b).rest, n - 1).Done?
    ensures ReadRequires(b, n).value == [ReadRequire(b).value] + ReadRequires(ReadRequire(b).rest, n - 1).value
    ensures ReadRequires(b, n).rest == ReadRequires(ReadRequire(b).rest, n - 1).rest
  {
  }

  /** One entry read in front of the rest of a list gives the whole list. */
  lemma EncRequiresStep(b: seq<byte>, x: RawRequire, rest: seq<byte>, xs: seq<RawRequire>, t: seq<byte>)
    requires b == EncRequire(x) + rest && rest == EncRequires(xs) + t
    ensures b == EncRequires([x] + xs) + t
  {
    assert ([x] + xs)[0] == x && ([x] + xs)[1..] == xs;
    Assoc3(EncRequire(x), EncRequires(xs), t);
  }

  lemma {:induction false} EncOfReadRequires(b: seq<byte>, n: nat)
    ensures ReadRequires(b, n).Done? ==>
      && |ReadRequires(b, n).value| == n
      && b == EncRequires(ReadRequires(b, n).value) + ReadRequires(b, n).rest
    decreases n
  {
    if n > 0 && ReadRequires(b, n).Done? {
      ReadRequiresUncons(b, n);
      EncOfReadRequire(b);
      var v := ReadRequire(b);
      EncOfReadRequires(v.rest, n - 1);
      EncRequiresStep(b, v.value, v.rest, ReadRequires(v.rest, n - 1).value, ReadRequires(v.rest, n - 1).rest);
    }
  }

  lemma ReadRequireTableOfEnc(s: seq<RawRequire>, t: seq<byte>)
    requires |s| < 0x1_0000
    ensures ReadRequireTable(EncRequireTable(s) + t) == Done(s, t)
  {
    assert EncRequireTable(s) == U2(|s|) + EncRequires(s);
    Assoc3(U2(|s|), EncRequires(s), t);
    ReadU2OfU2(|s|, EncRequires(s) + t);
    ReadRequiresOfEnc(s, t);
  }

  lemma EncOfReadRequireTable(b: seq<byte>)
    ensures ReadRequireTable(b).Done? ==>
      |ReadRequireTable(b).value| < 0x1_0000 && b == EncRequireTable(ReadRequireTable(b).value) + ReadRequireTable(b).rest
  {
    if ReadRequireTable(b).Done? {
      U2OfReadU2(b);
      var c := ReadU2(b);
      EncOfReadRequires(c.rest, c.value);
    }
  }

  // ---- exports and opens

  lemma ReadGrantOfEnc(g: RawGrant, t: seq<byte>)
    requires GrantFits(g)
    ensures ReadGrant(EncGrant(g) + t) == Done(g, t)
  {
    Assoc4(U2(g.index), U2(g.flags), EncIndexTable(g.targets), t);
    ReadU2OfU2(g.index, U2(g.flags) + (EncIndexTable(g.targets) + t));
    ReadU2OfU2(g.flags, EncIndexTable(g.targets) + t);
    ReadIndexTableOfEnc(g.targets, t);
  }

  lemma EncOfReadGrant(b: seq<byte>)
    ensures ReadGrant(b).Done? ==> GrantFits(ReadGrant(b).value) && b == EncGrant(ReadGrant(b).value) + ReadGrant(b).rest
  {
    if ReadGrant(b).Done? {
      U2OfReadU2(b);
      var i := ReadU2(b);
      U2OfReadU2(i.rest);
      var f := ReadU2(i.rest);
      EncOfReadIndexTable(f.rest);
    }
  }

  lemma {:induction false} ReadGrantsOfEnc(s: seq<RawGrant>, t: seq<byte>)
    requires forall i :: 0 <= i < |s| ==> GrantFits(s[i])
    ensures ReadGrants(EncGrants(s) + t, |s|) == Done(s, t)
  {
    if s != [] {
      var rest := EncGrants(s[1..]) + t;
      assert EncGrants(s) == EncGrant(s[0]) + EncGrants(s[1..]);
      Assoc3(EncGrant(s[0]), EncGrants(s[1..]), t);
      ReadGrantOfEnc(s[0], rest);
      ReadGrantsOfEnc(s[1..], t);
      ReadGrantsCons(EncGrants(s) + t, |s|, s[0], rest, s[1..], t);
      assert [s[0]] + s[1..] == s;
    }
  }

  lemma ReadGrantsCons(b: seq<byte>, n: nat, x: RawGrant, rest: seq<byte>, xs: seq<RawGrant>, t: seq<byte>)
    requires n > 0 && ReadGrant(b) == Done(x, rest) && ReadGrants(rest, n - 1) == Done(xs, t)
    ensures ReadGrants(b, n) == Done([x] + xs, t)
  {
  }

  lemma ReadGrantsUncons(b: seq<byte>, n: nat)
    requires n > 0 && ReadGrants(b, n).Done?
    ensures ReadGrant(b).Done? && ReadGrants(ReadGrant(b).rest, n - 1).Done?
    ensures ReadGrants(b, n).value == [ReadGrant(b).value] + ReadGrants(ReadGrant(b).rest, n - 1).value
    ensures ReadGrants(b, n).rest == ReadGrants(ReadGrant(b).rest, n - 1).rest
  {
  }

  /** One entry read in front of the rest of a list gives the whole list. */
  lemma EncGrantsStep(b: seq<byte>, x: RawGrant, rest: seq<byte>, xs: seq<RawGrant>, t: seq<byte>)
    requires GrantFits(x) && b == EncGrant(x) + rest
    requires (forall i :: 0 <= i < |xs| ==> GrantFits(xs[i])) && rest == EncGrants(xs) + t
    ensures forall i :: 0 <= i < |[x] + xs| ==> GrantFits(([x] + xs)[i])
    ensures b == EncGrants([x] + xs) + t
  {
    assert ([x] + xs)[0] == x && ([x] + xs)[1..] == xs;
    Assoc3(EncGrant(x), EncGrants(xs), t);
    forall i | 0 <= i < |[x] + xs| ensures GrantFits(([x] + xs)[i]) {
      if i > 0 { assert ([x] + xs)[i] == xs[i - 1]; }
    }
  }

  lemma {:induction false} EncOfReadGrants(b: seq<byte>, n: nat)
    ensures ReadGrants(b, n).Done? ==>
      && |ReadGrants(b, n).value| == n
      && (forall i :: 0 <= i < n ==> GrantFits(ReadGrants(b, n).value[i]))
      && b == EncGrants(ReadGrants(b, n).value) + ReadGrants(b, n).rest
    decreases n
  {
    if n > 0 && ReadGrants(b, n).Done? {
      ReadGrantsUncons(b, n);
      EncOfReadGrant(b);
      var v := ReadGrant(b);
      EncOfReadGrants(v.rest, n - 1);
      EncGrantsStep(b, v.value, v.rest, ReadGrants(v.rest, n - 1).value, ReadGrants(v.rest, n - 1).rest);
    }
  }

  lemma ReadGrantTableOfEnc(s: seq<RawGrant>, t: seq<byte>)
    requires GrantsFit(s)
    ensures ReadGrantTable(EncGrantTable(s) + t) == Done(s, t)
  {
    assert EncGrantTable(s) == U2(|s|) + EncGrants(s);
    Assoc3(U2(|s|), EncGrants(s), t);
    ReadU2OfU2(|s|, EncGrants(s) + t);
    ReadGrantsOfEnc(s, t);
  }

  lemma EncOfReadGrantTable(b: seq<byte>)
    ensures ReadGrantTable(b).Done? ==>
      GrantsFit(ReadGrantTable(b).value) && b == EncGrantTable(ReadGrantTable(b).value) + ReadGrantTable(b).rest
  {
    if ReadGrantTable(b).Done? {
      U2OfReadU2(b);
      var c := ReadU2(b);
      EncOfReadGrants(c.rest, c.value);
    }
  }

  // ---- provides

  lemma ReadProvideOfEnc(p: RawProvide, t: seq<byte>)
    requires ProvideFits(p)
    ensures ReadProvide(EncProvide(p) + t) == Done(p, t)
  {
    assert EncProvide(p) == U2(p.index) + EncIndexTable(p.impls);
    Assoc3(U2(p.index), EncIndexTable(p.impls), t);
    ReadU2OfU2(p.index, EncIndexTable(p.impls) + t);
    ReadIndexTableOfEnc(p.impls, t);
  }

  lemma EncOfReadProvide(b: seq<byte>)
    ensures ReadProvide(b).Done? ==> ProvideFits(ReadProvide(b).value) && b == EncProvide(ReadProvide(b).value) + ReadProvide(b).rest
  {
    if ReadProvide(b).Done? {
      U2OfReadU2(b);
      var i := ReadU2(b);
      EncOfReadIndexTable(i.rest);
    }
  }

  lemma {:induction false} ReadProvidesOfEnc(s: seq<RawProvide>, t: seq<byte>)
    requires forall i :: 0 <= i < |s| ==> ProvideFits(s[i])
    ensures ReadProvides(EncProvides(s) + t, |s|) == Done(s, t)
  {
    if s != [] {
      var rest := EncProvides(s[1..]) + t;
      assert EncProvides(s) == EncProvide(s[0]) + EncProvides(s[1..]);
      Assoc3(EncProvide(s[0]), EncProvides(s[1..]), t);
      ReadProvideOfEnc(s[0], rest);
      ReadProvidesOfEnc(s[1..], t);
      ReadProvidesCons(EncProvides(s) + t, |s|, s[0], rest, s[1..], t);
      assert [s[0]] + s[1..] == s;
    }
  }

  lemma ReadProvidesCons(b: seq<byte>, n: nat, x: RawProvide, rest: seq<byte>, xs: seq<RawProvide>, t: seq<byte>)
    requires n > 0 && ReadProvide(b) == Done(x, rest) && ReadProvides(rest, n - 1) == Done(xs, t)
    ensures ReadProvides(b, n) == Done([x] + xs, t)
  {
  }

  lemma ReadProvidesUncons(b: seq<byte>, n: nat)
    requires n > 0 && ReadProvides(b, n).Done?
    ensures ReadProvide(b).Done? && ReadProvides(ReadProvide(b).rest, n - 1).Done?
    ensures ReadProvides(b, n).value == [ReadProvide(b).value] + ReadProvides(ReadProvide(b).rest, n - 1).value
    ensures ReadProvides(b, n).rest == ReadProvides(ReadProvide(b).rest, n - 1).rest
  {
  }

  /** One entry read in front of the rest of a list gives the whole list. */
  lemma EncProvidesStep(b: seq<byte>, x: RawProvide, rest: seq<byte>, xs: seq<RawProvide>, t: seq<byte>)
    requires ProvideFits(x) && b == EncProvide(x) + rest
    requires (forall i :: 0 <= i < |xs| ==> ProvideFits(xs[i])) && rest == EncProvides(xs) + t
    ensures forall i :: 0 <= i < |[x] + xs| ==> ProvideFits(([x] + xs)[i])
    ensures b == EncProvides([x] + xs) + t
  {
    assert ([x] + xs)[0] == x && ([x] + xs)[1..] == xs;
    Assoc3(EncProvide(x), EncProvides(xs), t);
    forall i | 0 <= i < |[x] + xs| ensures ProvideFits(([x] + xs)[i]) {
      if i > 0 { assert ([x] + xs)[i] == xs[i - 1]; }
    }
  }

  lemma {:induction false} EncOfReadProvides(b: seq<byte>, n: nat)
    ensures ReadProvides(b, n).Done? ==>
      && |ReadProvides(b, n).value| == n
      && (forall i :: 0 <= i < n ==> ProvideFits(ReadProvides(b, n).value[i]))
      && b == EncProvides(ReadProvides(b, n).value) + ReadProvides(b, n).rest
    decreases n
  {
    if n > 0 && ReadProvides(b, n).Done? {
      ReadProvidesUncons(b, n);
      EncOfReadProvide(b);
      var v := ReadProvide(b);
      EncOfReadProvides(v.rest, n - 1);
      EncProvidesStep(b, v.value, v.rest, ReadProvides(v.rest, n - 1).value, ReadProvides(v.rest, n - 1).rest);
    }
  }

  lemma ReadProvideTableOfEnc(s: seq<RawProvide>, t: seq<byte>)
    requires ProvidesFit(s)
    ensures ReadProvideTable(EncProvideTable(s) + t) == Done(s, t)
  {
    assert EncProvideTable(s) == U2(|s|) + EncProvides(s);
    Assoc3(U2(|s|), EncProvides(s), t);
    ReadU2OfU2(|s|, EncProvides(s) + t);
    ReadProvidesOfEnc(s, t);
  }

  lemma EncOfReadProvideTable(b: seq<byte>)
    ensures ReadProvideTable(b).Done? ==>
      ProvidesFit(ReadProvideTable(b).value) && b == EncProvideTable(ReadProvideTable(b).value) + ReadProvideTable(b).rest
  {
    if ReadProvideTable(b).Done? {
      U2OfReadU2(b);
      var c := ReadU2(b);
      EncOfReadProvides(c.rest, c.value);
    }
  }

  // ---- the attribute body

  lemma ReadModuleOfEnc(m: RawModule, t: seq<byte>)
    requires RawFits(m)
    ensures ReadModule(EncodeRaw(m) + t) == Done(m, t)
  {
    var t7 := EncProvideTable(m.provideList) + t;
    var t6 := EncIndexTable(m.useList) + t7;
    var t5 := EncGrantTable(m.openList) + t6;
    var t4 := EncGrantTable(m.exportList) + t5;
    var t3 := EncRequireTable(m.requireList) + t4;
    var t2 := U2(m.version) + t3;
    var t1 := U2(m.flags) + t2;
    Assoc8(U2(m.name), U2(m.flags), U2(m.version), EncRequireTable(m.requireList), EncGrantTable(m.exportList),
      EncGrantTable(m.openList), EncIndexTable(m.useList), EncProvideTable(m.provideList), t);
    ReadU2OfU2(m.name, t1);
    ReadU2OfU2(m.flags, t2);
    ReadU2OfU2(m.version, t3);
    ReadRequireTableOfEnc(m.requireList, t4);
    ReadGrantTableOfEnc(m.exportList, t5);
    ReadGrantTableOfEnc(m.openList, t6);
    ReadIndexTableOfEnc(m.useList, t7);
    ReadProvideTableOfEnc(m.provideList, t);
  }

  lemma EncOfReadModule(b: seq<byte>)
    ensures ReadModule(b).Done? ==>
      RawFits(ReadModule(b).value) && b == EncodeRaw(ReadModule(b).value) + ReadModule(b).rest
  {
    if ReadModule(b).Done? {
      U2OfReadU2(b);
      var n := ReadU2(b);
      U2OfReadU2(n.rest);
      var f := ReadU2(n.rest);
      U2OfReadU2(f.rest);
      var v := ReadU2(f.rest);
      EncOfReadRequireTable(v.rest);
      var rs := ReadRequireTable(v.rest);
      EncOfReadGrantTable(rs.rest);
      var es := ReadGrantTable(rs.rest);
      EncOfReadGrantTable(es.rest);
      var os := ReadGrantTable(es.rest);
      EncOfReadIndexTable(os.rest);
      var us := ReadIndexTable(os.rest);
      EncOfReadProvideTable(us.rest);
      var ps := ReadProvideTable(us.rest);
      Assoc8(U2(n.value), U2(f.value), U2(v.value), EncRequireTable(rs.value), EncGrantTable(es.value),
        EncGrantTable(os.value), EncIndexTable(us.value), EncProvideTable(ps.value), ps.rest);
    }
  }

  lemma Assoc3(a: seq<byte>, b: seq<byte>, t: seq<byte>)
    ensures a + b + t == a + (b + t)
  {
  }

  lemma Assoc4(a: seq<byte>, b: seq<byte>, c: seq<byte>, t: seq<byte>)
    ensures a + b + c + t == a + (b + (c + t))
  {
  }

  lemma Assoc8(a: seq<byte>, b: seq<byte>, c: seq<byte>, d: seq<byte>, e: seq<byte>, f: seq<byte>, g: seq<byte>, h: seq<byte>, t: seq<byte>)
    ensures a + b + c + d + e + f + g + h + t == a + (b + (c + (d + (e + (f + (g + (h + t)))))))
  {
  }

  /** Decoding the encoding of a body whose tables fit their counts gives the body back. */
  lemma DecodeRawOfEncode(m: RawModule)
    requires RawFits(m)
    ensures DecodeRaw(EncodeRaw(m)) == Ok(m)
  {
    ReadModuleOfEnc(m, []);
    AppendEmpty(EncodeRaw(m));
  }

  /** A body that decodes is the encoding of what it decodes to; nothing else decodes to it. */
  lemma EncodeOfDecodeRaw(b: seq<byte>)
    requires DecodeRaw(b).Ok?
    ensures RawFits(DecodeRaw(b).value) && EncodeRaw(DecodeRaw(b).value) == b
  {
    EncOfReadModule(b);
    AppendEmpty(EncodeRaw(DecodeRaw(b).value));
  }

  /** Bytes after an encoded body are refused, and counted. */
  lemma TrailingBytesRefused(m: RawModule, t: seq<byte>)
    requires RawFits(m) && t != []
    ensures DecodeRaw(EncodeRaw(m) + t) == Err(TrailingBytes(|t|))
  {
    ReadModuleOfEnc(m, t);
  }

  /** Every proper prefix of an encoded body is refused. */
  lemma PrefixRefused(m: RawModule, k: nat)
    requires RawFits(m) && k < |EncodeRaw(m)|
    ensures DecodeRaw(EncodeRaw(m)[..k]).Err?
  {
    var b := EncodeRaw(m);
    DecodeRawOfEncode(m);
    SplitAt(b, k);
    ProperPrefixRefused(b, b[..k], b[k..]);
  }

  lemma AppendEmpty(b: seq<byte>)
    ensures b + [] == b
  {
  }

  lemma SplitAt(b: seq<byte>, k: nat)
    requires k < |b|
    ensures b[..k] + b[k..] == b && b[k..] != []
  {
  }

  /** A proper prefix of bytes that decode does not decode. */
  lemma ProperPrefixRefused(b: seq<byte>, p: seq<byte>, t: seq<byte>)
    requires DecodeRaw(b).Ok? && p + t == b && t != []
    ensures DecodeRaw(p).Err?
  {
    if DecodeRaw(p).Ok? {
      EncodeOfDecodeRaw(b);
      EncodeOfDecodeRaw(p);
      PrefixFree(DecodeRaw(b).value, DecodeRaw(p).value, t);
      assert false;
    }
  }

  /** No encoded body is followed, inside another encoded body, by more bytes. */
  lemma PrefixFree(m: RawModule, m': RawModule, t: seq<byte>)
    requires RawFits(m) && RawFits(m') && EncodeRaw(m') + t == EncodeRaw(m)
    ensures t == [] && m' == m
  {
    ReadModuleOfEnc(m', t);
    ReadModuleOfEnc(m, []);
    AppendEmpty(EncodeRaw(m));
  }

  // ---- layout of the target tables

  /** The `u2` values of a list stand in order, two bytes each. */
  lemma {:induction false} EncU2sAt(s: seq<u16>, k: nat)
    requires k < |s|
    ensures |EncU2s(s)| == 2 * |s|
    ensures EncU2s(s)[2 * k .. 2 * k + 2] == U2(s[k])
  {
    EncU2sLength(s);
    if k > 0 {
      EncU2sAt(s[1..], k - 1);
      assert EncU2s(s)[2 * k .. 2 * k + 2] == EncU2s(s[1..])[2 * (k - 1) .. 2 * (k - 1) + 2];
    }
  }

  lemma {:induction false} EncU2sLength(s: seq<u16>)
    ensures |EncU2s(s)| == 2 * |s|
  {
    if s != [] {
      EncU2sLength(s[1..]);
    }
  }

  /** An export or open with no targets has a `to_count` of 0: it is unqualified. */
  lemma UnqualifiedGrant(g: RawGrant)
    requires g.targets == []
    ensures EncGrant(g) == U2(g.index) + U2(g.flags) + [0, 0]
  {
  }

  /** An export or open writes its index, its flags and its `to_count`, then its targets
      in the given order; `k` picks the target whose bytes are stated. */
  lemma GrantLayout(g: RawGrant, k: nat)
    requires GrantFits(g)
    ensures |EncGrant(g)| == 6 + 2 * |g.targets|
    ensures EncGrant(g)[..2] == U2(g.index) && EncGrant(g)[2..4] == U2(g.flags)
    ensures EncGrant(g)[4..6] == U2(|g.targets|)
    ensures k < |g.targets| ==> EncGrant(g)[6 + 2 * k .. 8 + 2 * k] == U2(g.targets[k])
  {
    EncU2sLength(g.targets);
    var pre := U2(g.index) + U2(g.flags) + U2(|g.targets|);
    assert EncGrant(g) == pre + EncU2s(g.targets);
    if k < |g.targets| {
      EncU2sAt(g.targets, k);
      assert EncGrant(g)[6 + 2 * k .. 8 + 2 * k] == EncU2s(g.targets)[2 * k .. 2 * k + 2];
    }
  }
}
