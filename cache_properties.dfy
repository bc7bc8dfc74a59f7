/**
 * Properties of one call to `get` and of short sequences of calls, stated
 * on the state-transition function `Step` that `FontCache.Get` is proved to
 * follow.
 */
module CacheProperties {
  import opened Wrappers
  import opened Ident
  import opened Cache

  /** A hit changes only the matched entry's stamp, keeps the epoch and does not run the factory. */
  lemma StepOnHit<T>(s: State<T>, font: FontRef, engine: FingerprintEngine, f: FontRef -> T, freshId: nat)
    requires Resolve(s, font, engine).Hit?
    ensures var i := Resolve(s, font, engine).index;
      var r := Step(s, font, engine, f, freshId);
      && !r.computed
      && r.next.epoch == s.epoch && r.next.maxEntries == s.maxEntries
      && |r.next.entries| == |s.entries|
      && r.next.entries[i] == s.entries[i].(epoch := s.epoch)
      && (forall j :: 0 <= j < |s.entries| && j != i ==> r.next.entries[j] == s.entries[j])
      && r.id == s.entries[i].id && r.data == s.entries[i].data
  {
  }

  /**
   * A miss advances the epoch by one, runs the factory once, and writes one
   * entry stamped with the new epoch; it appends exactly when the cache is
   * below its bound or empty, and leaves every other entry as it was.
   */
  lemma StepOnMiss<T>(s: State<T>, font: FontRef, engine: FingerprintEngine, f: FontRef -> T, freshId: nat)
    requires Resolve(s, font, engine).Miss?
    ensures var i := Resolve(s, font, engine).index;
      var r := Step(s, font, engine, f, freshId);
      && r.computed
      && r.next.epoch == s.epoch + 1 && r.next.maxEntries == s.maxEntries
      && (i == |s.entries| <==> |s.entries| < s.maxEntries || |s.entries| == 0)
      && |r.next.entries| == (if i == |s.entries| then |s.entries| + 1 else |s.entries|)
      && i < |r.next.entries|
      && r.next.entries[i] == Entry(s.epoch + 1, r.id, StoredFingerprint(font, engine), f(font))
      && (forall j :: 0 <= j < |s.entries| && j != i ==> r.next.entries[j] == s.entries[j])
      && r.data == f(font)
      && r.id == (if font.key.IsValid() then font.key.value else freshId)
  {
  }

  /** The epoch grows by one exactly on a miss; the length never shrinks and the bound never changes. */
  lemma StepMonotone<T>(s: State<T>, font: FontRef, engine: FingerprintEngine, f: FontRef -> T, freshId: nat)
    ensures var r := Step(s, font, engine, f, freshId);
      && r.next.epoch == s.epoch + (if r.computed then 1 else 0)
      && (r.computed <==> Resolve(s, font, engine).Miss?)
      && |s.entries| <= |r.next.entries| <= |s.entries| + 1
      && r.next.maxEntries == s.maxEntries
  {
  }

  /** Once the cache holds at least as many entries as it can, a miss overwrites instead of growing. */
  lemma FullCacheStaysFull<T>(s: State<T>, font: FontRef, engine: FingerprintEngine, f: FontRef -> T, freshId: nat)
    requires |s.entries| >= Capacity(s.maxEntries)
    ensures |Step(s, font, engine, f, freshId).next.entries| == |s.entries|
  {
  }

  /** No two entries carry the same id. */
  ghost predicate DistinctIds<T>(entries: seq<Entry<T>>)
  {
    forall i, j :: 0 <= i < j < |entries| ==> entries[i].id != entries[j].id
  }

  /** Every entry's id lies below `bound`. */
  ghost predicate IdsBelow<T>(entries: seq<Entry<T>>, bound: nat)
  {
    forall i :: 0 <= i < |entries| ==> entries[i].id < bound
  }

  /**
   * At most one entry is bound to a given id, provided fresh ids come from a
   * supply above every id in use and stable keys were drawn from that supply.
   */
  lemma StepKeepsIdsDistinct<T>(s: State<T>, font: FontRef, engine: FingerprintEngine, f: FontRef -> T, freshId: nat)
    requires DistinctIds(s.entries) && IdsBelow(s.entries, freshId)
    requires font.key.IsValid() ==> font.key.value < freshId
    ensures var r := Step(s, font, engine, f, freshId);
      DistinctIds(r.next.entries) && IdsBelow(r.next.entries, freshId + 1)
  {
  }

  /**
   * Asking again for a font right after a call for it is a hit that returns the
   * same id and value without running the factory, provided the font has a
   * stable key or the fingerprint stored for it recognises it.
   */
  lemma RepeatIsHit<T>(s: State<T>, font: FontRef, engine: FingerprintEngine, f: FontRef -> T, id1: nat, id2: nat)
    requires font.key.IsValid() || Recognizes(engine, font)
    ensures var r1 := Step(s, font, engine, f, id1);
      var r2 := Step(r1.next, font, engine, f, id2);
      && Resolve(r1.next, font, engine) == Hit(Resolve(s, font, engine).index)
      && !r2.computed && r2.id == r1.id && r2.data == r1.data
      && r2.next.epoch == r1.next.epoch
  {
    var r1 := Step(s, font, engine, f, id1);
    var i := Resolve(s, font, engine).index;
    match Resolve(s, font, engine)
    case Hit(_) =>
      StepOnHit(s, font, engine, f, id1);
      forall j | 0 <= j < i
        ensures !Matches(r1.next.entries[j], font, engine)
      {
        assert r1.next.entries[j] == s.entries[j];
      }
      assert Matches(r1.next.entries[i], font, engine);
      ResolveHit(r1.next, font, engine, i);
    case Miss(_) =>
      StepOnMiss(s, font, engine, f, id1);
      forall j | 0 <= j < i
        ensures !Matches(r1.next.entries[j], font, engine)
      {
        assert r1.next.entries[j] == s.entries[j];
      }
      assert Matches(r1.next.entries[i], font, engine);
      ResolveHit(r1.next, font, engine, i);
  }

  /**
   * A stable key decides the lookup alone: two fonts with the same key land on
   * the same slot and get the same id, whatever their bytes.
   */
  lemma SameKeySameSlot<T>(s: State<T>, a: FontRef, b: FontRef, engine: FingerprintEngine, f: FontRef -> T, freshId: nat)
    requires a.key.IsValid() && a.key == b.key
    ensures Resolve(s, a, engine) == Resolve(s, b, engine)
    ensures Step(s, a, engine, f, freshId).id == Step(s, b, engine, f, freshId).id
  {
  }

  /**
   * Two unkeyed fonts whose fingerprinting fails are never merged through the
   * empty fingerprint: while there is room, each gets a slot of its own.
   */
  lemma FailedFingerprintsGetSeparateSlots<T>(s: State<T>, a: FontRef, b: FontRef, engine: FingerprintEngine, f: FontRef -> T, idA: nat, idB: nat)
    requires !a.key.IsValid() && !b.key.IsValid()
    requires engine.fromFont(a).None? && engine.fromFont(b).None?
    requires DefaultNeverMatches(engine)
    requires Resolve(s, a, engine).Miss? && Resolve(s, b, engine).Miss?
    requires |s.entries| + 2 <= s.maxEntries
    ensures var r1 := Step(s, a, engine, f, idA);
      var r2 := Step(r1.next, b, engine, f, idB);
      && r1.computed && r2.computed
      && r1.id == idA && r2.id == idB
      && |r2.next.entries| == |s.entries| + 2
      && r2.next.entries[|s.entries|].data == f(a)
      && r2.next.entries[|s.entries| + 1].data == f(b)
  {
  }

  /** A font with a stable key and no bytes. */
  function Keyed(k: nat): FontRef
  {
    FontRef([], 0, Stable(k))
  }

  /**
   * Two slots: A and B miss, A hits, then C misses. The refreshed A and the
   * newer B share the current epoch, so no entry is older than it and C
   * overwrites slot 0, A's slot, while B survives.
   */
  lemma RefreshTiesWithNewestEntry<T>(engine: FingerprintEngine, f: FontRef -> T, mintedId: nat)
    ensures var s1 := Step(State([], 2, 0), Keyed(1), engine, f, mintedId).next;
      var s2 := Step(s1, Keyed(2), engine, f, mintedId).next;
      var r3 := Step(s2, Keyed(1), engine, f, mintedId);
      var s4 := Step(r3.next, Keyed(3), engine, f, mintedId).next;
      && s2.epoch == 2 && !r3.computed
      && |s4.entries| == 2 && s4.entries[0].id == 3 && s4.entries[1].id == 2
  {
  }

  /**
   * Three slots: A, B and C miss, A hits, then D misses. B is now the only
   * entry stamped before the current epoch and is the one D replaces.
   */
  lemma EvictsEntryUntouchedSinceLastMiss<T>(engine: FingerprintEngine, f: FontRef -> T, mintedId: nat)
    ensures var s1 := Step(State([], 3, 0), Keyed(1), engine, f, mintedId).next;
      var s2 := Step(s1, Keyed(2), engine, f, mintedId).next;
      var s3 := Step(s2, Keyed(3), engine, f, mintedId).next;
      var s4 := Step(s3, Keyed(1), engine, f, mintedId).next;
      var s5 := Step(s4, Keyed(4), engine, f, mintedId).next;
      && |s5.entries| == 3
      && s5.entries[0].id == 1 && s5.entries[1].id == 4 && s5.entries[2].id == 3
  {
    var s0: State<T> := State([], 3, 0);
    var s1 := Step(s0, Keyed(1), engine, f, mintedId).next;
    assert s1.entries == [Entry(1, 1, engine.default, f(Keyed(1)))];
    ResolveMiss(s1, Keyed(2), engine);
    var s2 := Step(s1, Keyed(2), engine, f, mintedId).next;
    assert s2.entries == s1.entries + [Entry(2, 2, engine.default, f(Keyed(2)))];
    ResolveMiss(s2, Keyed(3), engine);
    var s3 := Step(s2, Keyed(3), engine, f, mintedId).next;
    assert s3.entries == s2.entries + [Entry(3, 3, engine.default, f(Keyed(3)))];
    ResolveHit(s3, Keyed(1), engine, 0);
    var s4 := Step(s3, Keyed(1), engine, f, mintedId).next;
    assert s4.epoch == 3 && s4.entries[0].epoch == 3 && s4.entries[1].epoch == 2 && s4.entries[2].epoch == 3;
    assert IsColdest(s4.entries, |s4.entries|, s4.epoch, 1);
    ColdestUnique(s4.entries, s4.epoch, 1);
    ResolveMiss(s4, Keyed(4), engine);
  }
}
