/**
  The transactional map: a base map of committed values under a stack of
  overlays, one per open transaction, the innermost overlay last. An overlay
  maps a key either to a value written in that transaction or to a tombstone
  recording a deletion in it. Every operation is a pure function from the
  store before the call to the store after it; the operations that can fail
  return a `Result` instead of raising.
 */
module TxStore {
  import opened KeyOrder

  /** What an overlay holds for a key it mentions. */
  datatype Entry<V> = Val(v: V) | Tombstone

  type Overlay<V> = map<string, Entry<V>>

  datatype Store<V> = Store(base: map<string, V>, stack: seq<Overlay<V>>)

  /** `NotFound` stands for the KeyError of a failed lookup, and
      `NoActiveTransaction` for the RuntimeError of commit or rollback
      with no transaction open. */
  datatype Error = NotFound | NoActiveTransaction

  datatype Result<T> = Ok(value: T) | Err(error: Error)

  // ---------- state helpers ----------

  /** The number of open transactions. */
  function Depth<V>(s: Store<V>): nat {
    |s.stack|
  }

  predicate HasTx<V>(s: Store<V>) {
    0 < |s.stack|
  }

  /** The innermost overlay. */
  function Top<V>(s: Store<V>): Overlay<V>
    requires HasTx(s)
  {
    s.stack[|s.stack| - 1]
  }

  /** The store with its innermost overlay popped. */
  function Lower<V>(s: Store<V>): Store<V>
    requires HasTx(s)
  {
    Store(s.base, s.stack[..|s.stack| - 1])
  }

  /** A new store: empty base, no transaction. */
  function Empty<V>(): Store<V> {
    Store(map[], [])
  }

  function Lookup<V>(m: map<string, V>, k: string): Result<V> {
    if k in m then Ok(m[k]) else Err(NotFound)
  }

  function EntryResult<V>(e: Entry<V>): Result<V> {
    match e
    case Val(v) => Ok(v)
    case Tombstone => Err(NotFound)
  }

  // ---------- the reference view ----------

  /** Writes one overlay over a map of values: a value overwrites, a tombstone
      removes the key, a key the overlay does not mention keeps its value.
      This is how a commit applies its overlay to the base, and the step by
      which the key listing folds one layer over the keys below it. */
  function ApplyOverlay<V>(m: map<string, V>, o: Overlay<V>): (r: map<string, V>)
    ensures forall k :: k in o ==> (k in r <==> o[k].Val?)
    ensures forall k :: k in o && o[k].Val? ==> r[k] == o[k].v
    ensures forall k :: k !in o ==> (k in r <==> k in m)
    ensures forall k :: k !in o && k in m ==> r[k] == m[k]
  {
    map k | k in m.Keys + o.Keys && (k in o ==> o[k].Val?) :: if k in o then o[k].v else m[k]
  }

  /** The visible contents of the store: the overlays applied over the base
      from the outermost to the innermost. */
  function View<V>(s: Store<V>): map<string, V>
    decreases |s.stack|
  {
    if HasTx(s) then ApplyOverlay(View(Lower(s)), Top(s)) else s.base
  }

  /** Applying two overlays in turn is applying the second one written over
      the first (a dict update of the first by the second). */
  lemma ApplyOverlayTwice<V>(m: map<string, V>, a: Overlay<V>, b: Overlay<V>)
    ensures ApplyOverlay(ApplyOverlay(m, a), b) == ApplyOverlay(m, a + b)
  {
  }

  // ---------- lookup ----------

  /** Layer `i` mentions `k` and no layer above it does. */
  ghost predicate Nearest<V>(stack: seq<Overlay<V>>, k: string, i: int) {
    0 <= i < |stack| && k in stack[i] && forall j :: i < j < |stack| ==> k !in stack[j]
  }

  ghost predicate NoLayerMentions<V>(stack: seq<Overlay<V>>, k: string) {
    forall i :: 0 <= i < |stack| ==> k !in stack[i]
  }

  /** Looks a key up through the overlays, innermost first, then the base. */
  function Resolve<V>(s: Store<V>, k: string): (r: Result<V>)
    ensures r.Err? ==> r.error == NotFound
    decreases |s.stack|
  {
    if !HasTx(s) then
      Lookup(s.base, k)
    else if k in Top(s) then
      EntryResult(Top(s)[k])
    else
      Resolve(Lower(s), k)
  }

  /** The resolution order: the nearest overlay mentioning the key decides,
      a tombstone there meaning absent; with no overlay mentioning it, the
      base decides. */
  lemma {:induction false} ResolutionOrder<V>(s: Store<V>, k: string)
    ensures forall i :: Nearest(s.stack, k, i) ==> Resolve(s, k) == EntryResult(s.stack[i][k])
    ensures NoLayerMentions(s.stack, k) ==> Resolve(s, k) == Lookup(s.base, k)
    decreases |s.stack|
  {
    if HasTx(s) && k !in Top(s) {
      ResolutionOrder(Lower(s), k);
      assert forall i :: Nearest(s.stack, k, i) ==> Nearest(Lower(s).stack, k, i);
    }
  }

  /** The scan of the overlays from the innermost outward, then the base,
      written as the loop it is. */
  method ResolveScan<V>(s: Store<V>, k: string) returns (r: Result<V>)
    ensures r == Resolve(s, k)
  {
    ResolutionOrder(s, k);
    var i := |s.stack|;
    while 0 < i
      invariant 0 <= i <= |s.stack|
      invariant forall j :: i <= j < |s.stack| ==> k !in s.stack[j]
    {
      i := i - 1;
      var layer := s.stack[i];
      if k in layer {
        assert Nearest(s.stack, k, i);
        match layer[k]
        case Tombstone =>
          return Err(NotFound);
        case Val(v) =>
          return Ok(v);
      }
    }
    assert NoLayerMentions(s.stack, k);
    if k in s.base {
      return Ok(s.base[k]);
    }
    return Err(NotFound);
  }

  /** Resolution from the innermost layer agrees with the view folded from
      the outermost one. */
  lemma {:induction false} ResolveAgreesWithView<V>(s: Store<V>, k: string)
    ensures Resolve(s, k) == Lookup(View(s), k)
    decreases |s.stack|
  {
    if HasTx(s) {
      ResolveAgreesWithView(Lower(s), k);
    }
  }

  function Get<V>(s: Store<V>, k: string): (r: Result<V>)
    ensures r == Lookup(View(s), k)
    ensures r.Err? ==> r.error == NotFound
  {
    ResolveAgreesWithView(s, k);
    Resolve(s, k)
  }

  function Exists<V>(s: Store<V>, k: string): (b: bool)
    ensures b <==> k in View(s)
    ensures b <==> Get(s, k).Ok?
  {
    ResolveAgreesWithView(s, k);
    Resolve(s, k).Ok?
  }

  // ---------- writes ----------

  function Set<V>(s: Store<V>, k: string, v: V): (t: Store<V>)
    ensures Depth(t) == Depth(s)
    ensures Get(t, k) == Ok(v)
    ensures forall j :: j != k ==> Get(t, j) == Get(s, j)
    ensures HasTx(s) ==> t.base == s.base && Lower(t) == Lower(s) && Top(t) == Top(s)[k := Val(v)]
    ensures !HasTx(s) ==> t.stack == s.stack && t.base == s.base[k := v]
  {
    if HasTx(s) then
      Store(s.base, s.stack[|s.stack| - 1 := Top(s)[k := Val(v)]])
    else
      Store(s.base[k := v], s.stack)
  }

  /** Never fails, whether or not the key is present anywhere. */
  function Delete<V>(s: Store<V>, k: string): (t: Store<V>)
    ensures Depth(t) == Depth(s)
    ensures Get(t, k) == Err(NotFound) && !Exists(t, k)
    ensures forall j :: j != k ==> Get(t, j) == Get(s, j)
    ensures HasTx(s) ==> t.base == s.base && Lower(t) == Lower(s) && Top(t) == Top(s)[k := Tombstone]
    ensures !HasTx(s) ==> t.stack == s.stack && t.base == s.base - {k}
  {
    if HasTx(s) then
      Store(s.base, s.stack[|s.stack| - 1 := Top(s)[k := Tombstone]])
    else
      Store(s.base - {k}, s.stack)
  }

  lemma SetIdempotent<V>(s: Store<V>, k: string, v: V)
    ensures Set(Set(s, k, v), k, v) == Set(s, k, v)
  {
    if HasTx(s) {
      var once := Set(s, k, v);
      assert Top(once)[k := Val(v)] == Top(once);
      assert once.stack[|once.stack| - 1 := Top(once)] == once.stack;
    } else {
      assert s.base[k := v][k := v] == s.base[k := v];
    }
  }

  lemma DeleteIdempotent<V>(s: Store<V>, k: string)
    ensures Delete(Delete(s, k), k) == Delete(s, k)
  {
    if HasTx(s) {
      var once := Delete(s, k);
      assert Top(once)[k := Tombstone] == Top(once);
      assert once.stack[|once.stack| - 1 := Top(once)] == once.stack;
    } else {
      assert s.base - {k} - {k} == s.base - {k};
    }
  }

  // ---------- transactions ----------

  function Begin<V>(s: Store<V>): (t: Store<V>)
    ensures Depth(t) == Depth(s) + 1
    ensures Lower(t) == s && Top(t) == map[]
    ensures forall k :: Get(t, k) == Get(s, k)
  {
    Store(s.base, s.stack + [map[]])
  }

  /** `changes` written over `parent`, the parent's other entries kept. */
  ghost predicate MergedOver<V>(merged: Overlay<V>, parent: Overlay<V>, changes: Overlay<V>) {
    && merged.Keys == parent.Keys + changes.Keys
    && (forall k :: k in changes ==> merged[k] == changes[k])
    && (forall k :: k in parent && k !in changes ==> merged[k] == parent[k])
  }

  /** Pops the innermost overlay and writes it over the overlay below, or
      over the base when it was the only one; the visible contents do not
      change. */
  function Commit<V>(s: Store<V>): (r: Result<Store<V>>)
    ensures r.Err? <==> !HasTx(s)
    ensures r.Err? ==> r.error == NoActiveTransaction
    ensures r.Ok? ==> Depth(r.value) == Depth(s) - 1
    ensures r.Ok? ==> View(r.value) == View(s) && forall k :: Get(r.value, k) == Get(s, k)
    ensures r.Ok? && 2 <= Depth(s) ==>
              && r.value.base == s.base
              && Lower(r.value) == Lower(Lower(s))
              && MergedOver(Top(r.value), Top(Lower(s)), Top(s))
    ensures r.Ok? && Depth(s) == 1 ==> r.value.stack == [] && r.value.base == ApplyOverlay(s.base, Top(s))
  {
    if !HasTx(s) then
      Err(NoActiveTransaction)
    else
      var changes := Top(s);
      var rest := Lower(s);
      if HasTx(rest) then
        var t := Store(rest.base, rest.stack[|rest.stack| - 1 := Top(rest) + changes]);
        assert Lower(t) == Lower(rest);
        ApplyOverlayTwice(View(Lower(rest)), Top(rest), changes);
        Ok(t)
      else
        Ok(Store(ApplyOverlay(rest.base, changes), []))
  }

  /** Pops and discards the innermost overlay. */
  function Rollback<V>(s: Store<V>): (r: Result<Store<V>>)
    ensures r.Err? <==> !HasTx(s)
    ensures r.Err? ==> r.error == NoActiveTransaction
    ensures r.Ok? ==> Depth(r.value) == Depth(s) - 1
    ensures r.Ok? ==> r.value.base == s.base && r.value.stack == s.stack[..Depth(s) - 1]
  {
    if !HasTx(s) then Err(NoActiveTransaction) else Ok(Lower(s))
  }

  lemma RollbackUndoesBegin<V>(s: Store<V>)
    ensures Rollback(Begin(s)) == Ok(s)
  {
  }

  // ---------- listing and reset ----------

  /** Folds the overlays, outermost first, over the base's keys and returns
      the result in order. */
  method ListKeys<V>(s: Store<V>) returns (r: seq<string>)
    ensures StrictlySorted(r)
    ensures forall k :: k in r <==> Exists(s, k)
  {
    var keys := s.base.Keys;
    var i := 0;
    while i < |s.stack|
      invariant 0 <= i <= |s.stack|
      invariant keys == View(Store(s.base, s.stack[..i])).Keys
    {
      var layer := s.stack[i];
      var dropped := set k | k in layer && layer[k].Tombstone?;
      var added := set k | k in layer && layer[k].Val?;
      assert Lower(Store(s.base, s.stack[..i + 1])) == Store(s.base, s.stack[..i]);
      keys := (keys - dropped) + added;
      i := i + 1;
    }
    assert s.stack[..i] == s.stack;
    r := SortKeys(keys);
  }

  function Clear<V>(s: Store<V>): (t: Store<V>)
    ensures Depth(t) == 0
    ensures forall k :: !Exists(t, k)
  {
    Empty()
  }
}
