/** The constant pool as the Module attribute sees it: a map from a `u2` index to a
    tagged entry. Index 0 never names an entry. A pool read from a class file may hold
    equal entries at two indices; `ValidPool` names the pools that do not, the ones for
    which re-encoding a decoded attribute gives back the bytes it came from. */
module ConstantPool {
  import opened Wrappers
  import opened Ints

  /** The tags of the entries a Module attribute refers to. */
  datatype Kind = Utf8Kind | ModuleKind | PackageKind | ClassKind

  /** A constant-pool entry: its tag and the string it carries (a module name, a
      package or class name in internal form, or the text of a UTF-8 entry). */
  datatype Entry = Entry(kind: Kind, value: string)

  type Utf8Ref = e: Entry | e.kind == Utf8Kind witness Entry(Utf8Kind, "")
  type ModuleRef = e: Entry | e.kind == ModuleKind witness Entry(ModuleKind, "")
  type PackageRef = e: Entry | e.kind == PackageKind witness Entry(PackageKind, "")
  type ClassRef = e: Entry | e.kind == ClassKind witness Entry(ClassKind, "")

  type Pool = map<u16, Entry>

  /** Index 0 is never an entry, and no entry stands at two indices. */
  predicate ValidPool(pool: Pool) {
    && 0 !in pool
    && forall i, j :: i in pool && j in pool && pool[i] == pool[j] ==> i == j
  }

  /** Why an index read from a class file does not name the entry it should. */
  datatype PoolError =
    | InvalidIndex(index: u16)
    | WrongKind(index: u16, expected: Kind, actual: Kind)

  /** The first index from `from` on at which `e` stands, or 0 when there is none. */
  function FindFrom(pool: Pool, e: Entry, from: nat): u16
    decreases 0x1_0000 - from
  {
    if from >= 0x1_0000 then 0
    else if from in pool && pool[from] == e then from
    else FindFrom(pool, e, from + 1)
  }

  /** The index of `e` in the pool, or 0 (the index of nothing) when it is absent. */
  function IndexOf(pool: Pool, e: Entry): u16 {
    FindFrom(pool, e, 1)
  }

  /** The entry at `index`, which must exist and have kind `k`. */
  function ResolveRef(pool: Pool, index: u16, k: Kind): (r: Result<Entry, PoolError>)
    ensures r.Ok? <==> index in pool && pool[index].kind == k
    ensures r.Ok? ==> r.value == pool[index]
    ensures r.Err? && index !in pool ==> r.error == InvalidIndex(index)
    ensures index in pool && pool[index].kind != k ==> r == Err(WrongKind(index, k, pool[index].kind))
  {
    if index !in pool then Err(InvalidIndex(index))
    else if pool[index].kind != k then Err(WrongKind(index, k, pool[index].kind))
    else Ok(pool[index])
  }

  /** The entries at a list of indices, all of kind `k`; the first bad index is the error. */
  function ResolveRefs(pool: Pool, indices: seq<u16>, k: Kind): (r: Result<seq<Entry>, PoolError>)
    ensures r.Ok? ==> |r.value| == |indices| && forall i :: 0 <= i < |r.value| ==> r.value[i].kind == k
  {
    if indices == [] then Ok([])
    else
      var e :- ResolveRef(pool, indices[0], k);
      var es :- ResolveRefs(pool, indices[1..], k);
      Ok([e] + es)
  }

  /** The indices of a list of entries. */
  function IndexesOf(pool: Pool, es: seq<Entry>): (r: seq<u16>)
    ensures |r| == |es|
  {
    if es == [] then [] else [IndexOf(pool, es[0])] + IndexesOf(pool, es[1..])
  }

  /** Every entry of the list stands in the pool. */
  predicate AllIn(pool: Pool, es: seq<Entry>) {
    forall i :: 0 <= i < |es| ==> es[i] in pool.Values
  }

  lemma {:induction false} FindFromFinds(pool: Pool, e: Entry, from: nat, i: u16)
    requires ValidPool(pool) && i in pool && pool[i] == e && from <= i
    ensures FindFrom(pool, e, from) == i
    decreases i - from
  {
    if from < i {
      FindFromFinds(pool, e, from + 1, i);
    }
  }

  lemma {:induction false} FindFromMisses(pool: Pool, e: Entry, from: nat)
    requires forall i :: i in pool && from <= i ==> pool[i] != e
    ensures FindFrom(pool, e, from) == 0
    decreases 0x1_0000 - from
  {
    if from < 0x1_0000 {
      FindFromMisses(pool, e, from + 1);
    }
  }

  /** In a valid pool, `IndexOf` gives the index an entry stands at, and 0 exactly for an
      entry that is absent. */
  lemma IndexOfSpec(pool: Pool, e: Entry)
    requires ValidPool(pool)
    ensures IndexOf(pool, e) != 0 <==> e in pool.Values
    ensures e in pool.Values ==> IndexOf(pool, e) in pool && pool[IndexOf(pool, e)] == e
  {
    if e in pool.Values {
      var i :| i in pool && pool[i] == e;
      FindFromFinds(pool, e, 1, i);
    } else {
      FindFromMisses(pool, e, 1);
    }
  }

  /** An index that resolves is the index of the entry it resolves to. */
  lemma IndexOfResolved(pool: Pool, index: u16, k: Kind)
    requires ValidPool(pool) && ResolveRef(pool, index, k).Ok?
    ensures IndexOf(pool, ResolveRef(pool, index, k).value) == index
  {
    FindFromFinds(pool, pool[index], 1, index);
  }

  /** An entry of kind `k` in the pool resolves from its index. */
  lemma ResolveIndexOf(pool: Pool, e: Entry, k: Kind)
    requires ValidPool(pool) && e in pool.Values && e.kind == k
    ensures ResolveRef(pool, IndexOf(pool, e), k) == Ok(e)
  {
    IndexOfSpec(pool, e);
  }

  /** Entries of kind `k` in the pool, written as indices and resolved, come back. */
  lemma {:induction false} ResolveRefsOfIndexes(pool: Pool, es: seq<Entry>, k: Kind)
    requires ValidPool(pool) && AllIn(pool, es)
    requires forall i :: 0 <= i < |es| ==> es[i].kind == k
    ensures ResolveRefs(pool, IndexesOf(pool, es), k) == Ok(es)
  {
    if es != [] {
      ResolveIndexOf(pool, es[0], k);
      ResolveRefsOfIndexes(pool, es[1..], k);
      assert [es[0]] + es[1..] == es;
    }
  }

  /** Indices that resolve are written back unchanged. */
  lemma {:induction false} IndexesOfResolved(pool: Pool, indices: seq<u16>, k: Kind)
    requires ValidPool(pool) && ResolveRefs(pool, indices, k).Ok?
    ensures IndexesOf(pool, ResolveRefs(pool, indices, k).value) == indices
    ensures AllIn(pool, ResolveRefs(pool, indices, k).value)
  {
    if indices != [] {
      IndexOfResolved(pool, indices[0], k);
      IndexesOfResolved(pool, indices[1..], k);
      var es := ResolveRefs(pool, indices, k).value;
      assert es[1..] == ResolveRefs(pool, indices[1..], k).value;
      assert [indices[0]] + indices[1..] == indices;
      forall i | 0 <= i < |es| ensures es[i] in pool.Values {
        if i == 0 { assert es[0] == pool[indices[0]]; }
        else { assert es[i] == es[1..][i - 1]; }
      }
    }
  }

  /** A failing list names the first index that does not resolve. */
  lemma {:induction false} ResolveRefsFails(pool: Pool, indices: seq<u16>, k: Kind)
    ensures ResolveRefs(pool, indices, k).Err? <==> exists i :: 0 <= i < |indices| && ResolveRef(pool, indices[i], k).Err?
    ensures ResolveRefs(pool, indices, k).Err? ==>
      exists i :: 0 <= i < |indices| && ResolveRef(pool, indices[i], k).Err?
        && ResolveRefs(pool, indices, k).error == ResolveRef(pool, indices[i], k).error
        && forall j :: 0 <= j < i ==> ResolveRef(pool, indices[j], k).Ok?
  {
    if indices != [] && ResolveRef(pool, indices[0], k).Ok? {
      ResolveRefsFails(pool, indices[1..], k);
      if ResolveRefs(pool, indices, k).Err? {
        var i :| 0 <= i < |indices[1..]| && ResolveRef(pool, indices[1..][i], k).Err?
          && ResolveRefs(pool, indices[1..], k).error == ResolveRef(pool, indices[1..][i], k).error
          && forall j :: 0 <= j < i ==> ResolveRef(pool, indices[1..][j], k).Ok?;
        assert indices[1..][i] == indices[i + 1];
        forall j | 0 <= j < i + 1 ensures ResolveRef(pool, indices[j], k).Ok? {
          if j > 0 { assert indices[j] == indices[1..][j - 1]; }
        }
      } else {
        forall i | 0 <= i < |indices| ensures ResolveRef(pool, indices[i], k).Ok? {
          if i > 0 { assert indices[i] == indices[1..][i - 1]; }
        }
      }
    }
  }

  lemma {:induction false} IndexesOfAt(pool: Pool, es: seq<Entry>, k: nat)
    requires k < |es|
    ensures IndexesOf(pool, es)[k] == IndexOf(pool, es[k])
  {
    if k > 0 {
      IndexesOfAt(pool, es[1..], k - 1);
    }
  }
}
