# FontCache: a verified model of swash's font cache

This project models `FontCache<T>` from swash's `src/cache.rs`. It is a bounded,
single-writer memo table that maps a font reference to a value computed lazily
by a caller-supplied factory.

- A font is identified by its stable key when it has a valid one.
- Otherwise it is identified by a content fingerprint tested at the font's
  remaining length.
- `find` makes one scan that looks for the first matching entry and, in the same
  pass, tracks the coldest entry. The coldest entry is the first one with the
  lowest epoch strictly below the cache epoch.
- On a hit, `get` re-stamps the matched entry with the current epoch.
- On a miss, `get` advances the epoch, runs the factory and picks an identity
  and fingerprint. It then appends a new entry or overwrites the slot `find`
  chose.

Layout:

- `wrappers.dfy`: `Option`.
- `ident.dfy`: the collaborators the cache consumes. These are keys, the
  abstract `Fingerprint` type with its operations as uninterpreted function
  values (`FingerprintEngine`), font references, and `KeySource`, the supply of
  fresh keys.
- `cache.dfy`: the `Entry` record, the pure specification of a lookup
  (`FirstMatch`, `Coldest`, `Resolve`) and of a whole call (`Step`), and the
  class `FontCache` with the loop-based `Find` and the state-changing `Get`.
  `Find` is proved equal to `Resolve`, and `Get` is proved to follow `Step`.
- `cache_properties.dfy`: lemmas about `Step`, covering a single call and short
  sequences of calls.

Quirks of the code that the model keeps:

- **A zero bound still admits one entry.** With `max_entries == 0` and an
  empty cache, `find` returns `(false, 0)` (src/cache.rs:85-89). `get` then
  appends, because `0 == entries.len()` (src/cache.rs:35-36). The invariant
  proved is `len <= Capacity(max_entries)`, that is `max(max_entries, 1)`.
- **A refreshed entry ties with the newest miss.** A miss stamps its entry with
  the epoch after incrementing it (src/cache.rs:28, 37). A hit stamps with the
  current epoch (src/cache.rs:25).
  - So in a two-slot cache, after A and B miss and A hits, A and B carry the
    same stamp.
  - Neither entry is stamped before the current epoch, so `lowest` stays 0.
    The miss for C then overwrites slot 0, which holds A, and keeps B.
  - `RefreshTiesWithNewestEntry` proves this.
  - `EvictsEntryUntouchedSinceLastMiss` shows the scan choosing the one entry
    stamped before the current epoch.

## Model

| member | source | states |
|---|---|---|
| `Ident.RemainingLen` | src/cache.rs:70-74 | The length tested against fingerprints is below 2^32 and at most the data length. It is 0 when the offset lies past the end. Otherwise, absent truncation, offset plus length equals the data length. |
| `Ident.KeySource.Mint` | src/cache.rs:33 | Minting returns the supply's next key and advances the supply, so two minted keys are never equal. |
| `Cache.Capacity` | src/cache.rs:85-89 | The effective bound is `max(max_entries, 1)`: 1 when `max_entries` is 0, and `max_entries` otherwise. |
| `Cache.Matches` | src/cache.rs:58-78 | For a font with a valid key, an entry matches exactly when its id is the key (line 61). Without a key, the match is the fingerprint test (line 76). An entry holding the empty fingerprint never matches an unkeyed font when the empty fingerprint matches nothing. |
| `Cache.FirstMatch` | src/cache.rs:58-78 | The scan reports the first matching index at or after `from`. A match is the same id for a keyed font, or a definite `test_len` match otherwise. The result is None exactly when no entry matches. |
| `Cache.Coldest` | src/cache.rs:56-82 | The scan's running pair (candidate, lowest epoch) over the first `n` entries. The candidate is 0 for no entries and otherwise one of them. The lowest epoch never exceeds the cache epoch. |
| `Cache.ColdestIsFirstMinimum` | src/cache.rs:64-67 | The scan's candidate is the first entry of minimal epoch among those stamped strictly before the cache epoch, or 0 when there is none. Its running lowest epoch is that entry's epoch, or the cache epoch when there is none. |
| `Cache.Resolve` | src/cache.rs:85-89 | The slot `find` reports never lies past the end of the entries, and a hit lies on an existing entry. |
| `Cache.ResolveIsFirstMatchOrColdest` | src/cache.rs:55-90 | The lookup is a hit exactly when some entry matches, and then it is at the first match. A miss is at `len` while `len < max_entries`, and at the eviction candidate otherwise. |
| `Cache.StoredFingerprint` | src/cache.rs:30-34 | A keyed font stores the empty fingerprint. An unkeyed font stores its computed fingerprint, or the empty one when fingerprinting fails. |
| `Cache.Step` | src/cache.rs:21-53 | The pure model of one `get` call. Its own contract says the factory runs exactly when the lookup misses, the bound never changes and the length never shrinks. Its full meaning is given by `StepOnHit`, `StepOnMiss`, `StepMonotone` and `StepKeepsInv`. |
| `Cache.FontCache.Find` | src/cache.rs:55-90 | The scan (one loop for keyed fonts and one for unkeyed fonts, as in the source) returns `(found, index)` equal to `Resolve` on the current state: `(true, i)` for a hit at `i`, `(false, i)` for a miss at `i`. |
| `Cache.FontCache.constructor` | src/cache.rs:13-19 | A new cache has no entries, epoch 0, the given bound, and no factory calls. |
| `Cache.FontCache.Get` | src/cache.rs:21-53 | The new entries and epoch, the returned id and value, the factory-call count and the key supply are exactly those given by `Step` on the old state. The invariant (length bound, no stamp above the epoch) is preserved. |
| `Cache.StepKeepsInv` | src/cache.rs:21-53 | Every call keeps `len <= max(max_entries, 1)` and every entry's epoch at or below the cache epoch. |
| `CacheProperties.StepOnHit` | src/cache.rs:22-26 | A hit keeps the epoch, does not run the factory, and changes only the matched entry's stamp (to the current epoch). It returns that entry's id and data. |
| `CacheProperties.StepOnMiss` | src/cache.rs:27-51 | A miss runs the factory once and advances the epoch by one. It appends exactly when the cache is below its bound or empty, and otherwise overwrites. The written entry carries the new epoch, the key or the minted id, the stored fingerprint and `f(font)`. No other entry changes, and the returned id is the stored id. |
| `CacheProperties.StepMonotone` | src/cache.rs:22-29 | The epoch grows by exactly one on a miss and stays the same on a hit. The length never shrinks and grows by at most one. The bound never changes. |
| `CacheProperties.FullCacheStaysFull` | src/cache.rs:35-51 | Once the cache holds at least `max(max_entries, 1)` entries, any further call leaves the length unchanged. |
| `CacheProperties.StepKeepsIdsDistinct` | src/cache.rs:30-34 | Assume entry ids are distinct and below the supply, and the font's stable key (if any) also came from the supply. Then after the call, entry ids are still distinct and below the advanced supply. |
| `CacheProperties.RepeatIsHit` | src/cache.rs:22-26 | Take a keyed font, or an unkeyed font whose stored fingerprint recognises it. Right after a call for that font, a second call is a hit at the same slot, does not run the factory, and returns the same id and value. |
| `CacheProperties.SameKeySameSlot` | src/cache.rs:58-63 | Two fonts with the same valid key resolve to the same slot and receive the same id, whatever their bytes. |
| `CacheProperties.FailedFingerprintsGetSeparateSlots` | src/cache.rs:30-43 | Take two new unkeyed fonts whose fingerprinting fails, with an empty fingerprint that never matches and room for two entries. Both calls miss, and they occupy two new slots, each with its own id and value. |
| `CacheProperties.RefreshTiesWithNewestEntry` | src/cache.rs:56-67 | With two slots, after misses for A and B and a hit on A, a miss for C overwrites slot 0 (A) and keeps B. |
| `CacheProperties.EvictsEntryUntouchedSinceLastMiss` | src/cache.rs:56-67 | With three slots, after misses for A, B and C and a hit on A, a miss for D overwrites B, the only entry stamped before the current epoch. |

## Left out

- The internals of `Fingerprint` (`from_font`, `test_len`, `default`) and of
  `Key` (`new`, `is_valid`, `value`) live in the `ident` module, which is not
  part of this model.
  - Fingerprints are an abstract type.
  - The three fingerprint operations are arbitrary function values.
  - A key is either absent or a stable number.
  - `Key::new` is a counter (`KeySource`) that hands out distinct ids.
- Parsing of `FontRef`: a font reference is its bytes, its offset and its key.
- The factory `f`: it is a total function value, so it cannot fail or panic.
  Its side effects are represented only by the ghost counter `computeCalls`.
- The borrow returned by `get`: `Get` returns the value itself.
- `u64` wrap-around of `epoch` and of ids: both are unbounded naturals. An epoch
  overflow after 2^64 misses is not modelled. `offset` is unbounded too.
  - The `as u32` truncation of the remaining length is modelled.
- Thread-safety: the cache has no synchronisation and is modelled as a single
  writer.
- `CacheProperties.StepKeepsIdsDistinct`: the uniqueness of ids holds only if
  stable keys come from the same supply as minted ids. The source trusts its
  callers on this and does not check it, so the lemma assumes it.
