# Transactional key/value store — Dafny model

This project models the in-memory key/value store with nested transactions
(`Store` in `store.py`). The store keeps a base map of committed values and a
stack of overlay maps, one per open transaction, the innermost overlay last.
An overlay entry is either a value written in that transaction or a
tombstone recording a deletion in it.

- Reads resolve a key from the innermost overlay outward, then fall back to
  the base. A tombstone in the nearest overlay that mentions the key means
  absent.
- Writes and deletes go to the innermost overlay, or to the base when no
  transaction is open.
- `commit` pops the innermost overlay. It writes it over the overlay below,
  or over the base, where tombstones become removals. `rollback` pops it and
  discards it.
- `list_keys` folds the overlays over the base's keys and sorts the result.

The model is functional. `TxStore.Store` is an immutable value with a
`base: map<string, V>` and a `stack: seq<map<string, Entry<V>>>`, where
`Entry<V> = Val(v) | Tombstone`. Every operation returns the new store. The
two Python exceptions become a `Result`: `NotFound` for the `KeyError` of a
failed lookup, and `NoActiveTransaction` for the `RuntimeError` of a commit or
rollback with no transaction open. A failing call returns `Err` and no new
store, so the caller's store is left as it was, which is what the source's
raise-before-mutating gives.

The comment on the stack field in `store.py` says the outermost overlay is at
the end of the list. The code does the opposite: the top is the last element
and lookup scans the list reversed. The model follows the code, so the
innermost overlay is last.

Files:

- `key_order.dfy` (module `KeyOrder`): lexicographic order on keys by code
  point, the order Python's `sorted` gives for `str` keys, and an insertion
  sort for the key listing.
- `tx_store.dfy` (module `TxStore`): the store, its operations, and the
  reference view. `View` applies the overlays over the base from the
  outermost to the innermost, the same fold `list_keys` performs.
  Lookup, existence, the listing and commit are all stated against it.
- `tx_sessions.dfy` (module `TxSessions`): sequences of calls, and the proof
  that calls inside a transaction never touch the base or the outer overlays.

## Model

| member | source | states |
|---|---|---|
| `TxStore.Resolve` | store.py:18-28 | A lookup can only fail with `NotFound`, never with the transaction error. The resolution order itself is carried by `TxStore.ResolutionOrder`. |
| `TxStore.ResolutionOrder` | store.py:18-28 | The nearest overlay that mentions the key decides: a value there is the answer and a tombstone there is `NotFound`. With no overlay mentioning the key, the base decides. |
| `TxStore.ResolveScan` | store.py:18-28 | The loop scanning overlays innermost-first and then the base returns exactly the resolution order's answer. |
| `TxStore.ResolveAgreesWithView` | store.py:80-88 | Resolving from the innermost layer equals looking the key up in the view folded from the outermost layer, for every store and key. |
| `TxStore.Get` | store.py:31-32 | `get` returns the key's value in the visible view, and fails with `NotFound` exactly when the view lacks the key. |
| `TxStore.Exists` | store.py:73-78 | `exists` holds iff the key is in the visible view, iff `get` does not fail. |
| `TxStore.ApplyOverlay` | store.py:61-65 | Applying an overlay to a map: a value entry overwrites, a tombstone removes the key, and unmentioned keys keep their values. The result never gains a key from a tombstone. |
| `TxStore.ApplyOverlayTwice` | store.py:56-65 | Applying a parent overlay and then a child overlay equals applying the parent updated by the child. So merging into the parent and applying to the base agree. |
| `TxStore.Set` | store.py:34-38 | After `set(k, v)`, `get(k)` is `v` and every other key reads as before; depth is unchanged. Inside a transaction only the top overlay changes; outside one only the base changes and the stack is untouched. |
| `TxStore.SetIdempotent` | store.py:34-38 | Setting the same key to the same value twice is the same as setting it once. |
| `TxStore.Delete` | store.py:40-46 | `delete(k)` never fails. Afterwards `get(k)` fails with `NotFound`, `exists(k)` is false, and every other key reads as before. Inside a transaction only a tombstone is written into the top overlay; outside one only `k` is removed from the base. |
| `TxStore.DeleteIdempotent` | store.py:40-46 | Deleting a key twice is the same as deleting it once, at any depth. |
| `TxStore.Begin` | store.py:49-50 | `begin` pushes one empty overlay, raising the depth by one and changing no lookup. |
| `TxStore.Commit` | store.py:52-65 | At depth 0 `commit` fails with `NoActiveTransaction`; otherwise it lowers the depth by one. Every lookup, and the whole visible view, is the same before and after. Above depth 1 the committed entries overwrite the parent overlay's, the parent's other entries stay, and base and outer overlays are untouched. At depth 1 the overlay is applied to the base with tombstones becoming removals. |
| `TxStore.Rollback` | store.py:67-70 | At depth 0 `rollback` fails with `NoActiveTransaction`; otherwise it lowers the depth by one, keeps the base, and keeps all overlays but the innermost. |
| `TxStore.RollbackUndoesBegin` | store.py:49-70 | `rollback` right after `begin` gives back the store unchanged. |
| `TxStore.ListKeys` | store.py:80-88 | The listing is strictly increasing (sorted, no duplicates) and contains exactly the keys for which `exists` holds at the current depth. |
| `TxStore.Clear` | store.py:90-92 | After `clear` no transaction is open and no key exists. |
| `KeyOrder.SortKeys` | store.py:88 | The sorted listing of a key set is strictly increasing and has exactly the set's elements. |
| `TxSessions.StepKeepsOuterState` | store.py:34-70 | A call that starts and ends with more than `d` transactions open leaves the base and the `d` outermost overlays unchanged. |
| `TxSessions.RunKeepsOuterState` | store.py:34-70 | Likewise for any sequence of calls that never brings the depth down to `d`; a call that fails leaves the shared store as it was and the session continues. |
| `TxSessions.RollbackIsExactUndo` | tests/test_store.py:30-41 | `begin`, then any writes, deletes, nested transactions and commits that stay inside it, then `rollback`, restores the exact store before `begin`, so every `get` answers as before. |
| `TxSessions.CommitLastWriteWins` | tests/test_store.py:25-28 | A value set inside a transaction is what `get` returns after the transaction commits. |
| `TxSessions.DeleteShadowsUntilRollback` | store.py:40-70 | A key deleted inside a transaction does not exist there, and rolling back restores the store from before the transaction. |

## Left out

- The debug `print` calls in lookup and delete: they are output only and do not affect the store's behaviour.
- The HTTP layer in `app.py`: routing, JSON parsing, and mapping `KeyError`/`RuntimeError` to 404/400 are transport. Its comment that delete raises on a missing key does not match the store, which never raises on delete; the model follows the store.
- The object-identity tombstone sentinel: it is replaced by the `Entry` sum type, so no value can be mistaken for a tombstone.
- The "base never holds a tombstone" invariant has no lemma of its own: the base has type `map<string, V>`, so it cannot hold one. `TxStore.ApplyOverlay` states the step where this matters: tombstones committed to the base become removals.
- Keys are strings, because the listing sorts keys and needs an order on them. Python accepts any hashable key. Only the HTTP routes that take the key from the URL path pass strings; the set route passes the key from the JSON body unchanged, so a number or boolean key can reach the store, and an unhashable one makes `set` raise `TypeError`.
- `TxStore.ListKeys`: does not model the `TypeError` that `sorted` raises in `list_keys` once keys of mixed, mutually unordered types are stored; with string keys the listing cannot fail.
- `TxSessions.RollbackIsExactUndo`: covers store calls only. Values are immutable `V` here, while the source stores references, so a mutable value fetched with `get` and changed in place changes every layer holding it, and `rollback` does not undo that.
- Python's `sorted` algorithm: the listing is specified as the strictly increasing sequence of the visible key set and produced by an insertion sort.
- The in-place mutation of a single shared store object: each operation instead maps a store value to a new one.
