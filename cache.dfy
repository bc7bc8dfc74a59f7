/**
 * A bounded memo table from font references to lazily computed values.
 * Lookup is one linear scan that looks for a matching entry and, in the same
 * pass, remembers the coldest entry; a miss advances the epoch, computes the
 * value and either appends it or overwrites that coldest entry.
 */
module Cache {
  import opened Wrappers
  import opened Ident

  /** One slot of the cache. */
  datatype Entry<T> = Entry(epoch: nat, id: nat, fingerprint: Fingerprint, data: T)

  /** The whole state of a cache, as a value. */
  datatype State<T> = State(entries: seq<Entry<T>>, maxEntries: nat, epoch: nat)

  /** Where a lookup lands: an existing matching entry, or the slot a miss will write. */
  datatype Slot = Hit(index: nat) | Miss(index: nat)

  /** What a call to `get` produces: the new state, the returned id and value, and whether the factory ran. */
  datatype Response<T> = Response(next: State<T>, id: nat, data: T, computed: bool)

  /** The number of entries the cache can actually hold: a zero bound still admits one entry. */
  function Capacity(maxEntries: nat): (c: nat)
    ensures c >= 1 && c >= maxEntries
    ensures maxEntries == 0 ==> c == 1
    ensures maxEntries > 0 ==> c == maxEntries
  {
    if maxEntries == 0 then 1 else maxEntries
  }

  /** The invariant of every reachable state: the length bound, and no stamp from the future. */
  ghost predicate Inv<T>(s: State<T>)
  {
    && |s.entries| <= Capacity(s.maxEntries)
    && forall i :: 0 <= i < |s.entries| ==> s.entries[i].epoch <= s.epoch
  }

  /**
   * Whether `e` is the entry for `font`: the same id when the font has a
   * stable key, otherwise a definite fingerprint match at the font's length.
   */
  predicate Matches<T>(e: Entry<T>, font: FontRef, engine: FingerprintEngine)
    ensures font.key.IsValid() ==> (Matches(e, font, engine) <==> e.id == font.key.value)
    ensures !font.key.IsValid() && e.fingerprint == engine.default && DefaultNeverMatches(engine)
      ==> !Matches(e, font, engine)
  {
    match font.key
    case Stable(k) => e.id == k
    case Absent => engine.testLen(e.fingerprint, font, RemainingLen(font)) == Some(true)
  }

  /** The first index at or after `from` whose entry matches `font`, if any. */
  function FirstMatch<T>(entries: seq<Entry<T>>, font: FontRef, engine: FingerprintEngine, from: nat): (r: Option<nat>)
    requires from <= |entries|
    decreases |entries| - from
    ensures r.Some? ==> from <= r.value < |entries| && Matches(entries[r.value], font, engine)
    ensures r.Some? ==> forall j :: from <= j < r.value ==> !Matches(entries[j], font, engine)
    ensures r.None? ==> forall j :: from <= j < |entries| ==> !Matches(entries[j], font, engine)
  {
    if from == |entries| then None
    else if Matches(entries[from], font, engine) then Some(from)
    else FirstMatch(entries, font, engine, from + 1)
  }

  /** Some entry among the first `n` was last stamped strictly before `epoch`. */
  predicate HasStale<T>(entries: seq<Entry<T>>, n: nat, epoch: nat)
    requires n <= |entries|
  {
    exists j :: 0 <= j < n && entries[j].epoch < epoch
  }

  /**
   * `k` is the eviction candidate among the first `n` entries: the first
   * entry of minimal epoch among those stamped strictly before `epoch`, or 0
   * when there is none.
   */
  ghost predicate IsColdest<T>(entries: seq<Entry<T>>, n: nat, epoch: nat, k: nat)
    requires n <= |entries|
  {
    if HasStale(entries, n, epoch) then
      && k < n
      && entries[k].epoch < epoch
      && (forall j :: 0 <= j < n ==> entries[k].epoch <= entries[j].epoch)
      && (forall j :: 0 <= j < k ==> entries[k].epoch < entries[j].epoch)
    else
      k == 0
  }

  /**
   * The eviction candidate among the first `n` entries under cache epoch
   * `epoch`, paired with its epoch (or `epoch` itself when no entry is older),
   * computed entry by entry as the scan computes it.
   * `ColdestIsFirstMinimum` proves the candidate is the first minimum.
   */
  function Coldest<T>(entries: seq<Entry<T>>, n: nat, epoch: nat): (r: (nat, nat))
    requires n <= |entries|
    ensures n == 0 ==> r.0 == 0
    ensures n > 0 ==> r.0 < n
    ensures r.1 <= epoch
  {
    if n == 0 then (0, epoch)
    else
      var (k, lowestEpoch) := Coldest(entries, n - 1, epoch);
      if entries[n - 1].epoch < lowestEpoch then (n - 1, entries[n - 1].epoch) else (k, lowestEpoch)
  }

  /** The scan's candidate is the first entry of minimal epoch among those older than `epoch`. */
  lemma {:induction false} ColdestIsFirstMinimum<T>(entries: seq<Entry<T>>, n: nat, epoch: nat)
    requires n <= |entries|
    ensures var (k, lowestEpoch) := Coldest(entries, n, epoch);
      && IsColdest(entries, n, epoch, k)
      && lowestEpoch == if HasStale(entries, n, epoch) then entries[k].epoch else epoch
  {
    if n > 0 {
      ColdestIsFirstMinimum(entries, n - 1, epoch);
      if HasStale(entries, n - 1, epoch) {
        assert HasStale(entries, n, epoch);
      }
    }
  }

  /** The first-minimum property pins the eviction candidate down to one index. */
  lemma ColdestUnique<T>(entries: seq<Entry<T>>, epoch: nat, k: nat)
    requires IsColdest(entries, |entries|, epoch, k)
    ensures k == Coldest(entries, |entries|, epoch).0
  {
    ColdestIsFirstMinimum(entries, |entries|, epoch);
  }

  /**
   * The outcome of `find`: the first matching entry, otherwise the append
   * index while there is room, otherwise the eviction candidate.
   * `ResolveIsFirstMatchOrColdest` states what it means.
   */
  function Resolve<T>(s: State<T>, font: FontRef, engine: FingerprintEngine): (r: Slot)
    ensures r.index <= |s.entries|
    ensures r.Hit? ==> r.index < |s.entries|
  {
    match FirstMatch(s.entries, font, engine, 0)
    case Some(i) => Hit(i)
    case None => Miss(if |s.entries| < s.maxEntries then |s.entries| else Coldest(s.entries, |s.entries|, s.epoch).0)
  }

  /**
   * A lookup hits exactly when some entry matches, and then at the first one;
   * a miss lands on the append index while the cache is below its bound, and
   * on the eviction candidate otherwise.
   */
  lemma ResolveIsFirstMatchOrColdest<T>(s: State<T>, font: FontRef, engine: FingerprintEngine)
    ensures var r := Resolve(s, font, engine);
      && (r.Hit? <==> exists i :: 0 <= i < |s.entries| && Matches(s.entries[i], font, engine))
      && (r.Hit? ==> Matches(s.entries[r.index], font, engine))
      && (r.Hit? ==> forall j :: 0 <= j < r.index ==> !Matches(s.entries[j], font, engine))
      && (r.Miss? && |s.entries| < s.maxEntries ==> r.index == |s.entries|)
      && (r.Miss? && s.maxEntries <= |s.entries| ==> IsColdest(s.entries, |s.entries|, s.epoch, r.index))
  {
    ColdestIsFirstMinimum(s.entries, |s.entries|, s.epoch);
  }

  /** A first match at `i` makes the lookup a hit there. */
  lemma ResolveHit<T>(s: State<T>, font: FontRef, engine: FingerprintEngine, i: nat)
    requires i < |s.entries| && Matches(s.entries[i], font, engine)
    requires forall j :: 0 <= j < i ==> !Matches(s.entries[j], font, engine)
    ensures Resolve(s, font, engine) == Hit(i)
  {
  }

  /** With no match, the lookup is a miss at the append index or at the eviction candidate. */
  lemma ResolveMiss<T>(s: State<T>, font: FontRef, engine: FingerprintEngine)
    requires forall j :: 0 <= j < |s.entries| ==> !Matches(s.entries[j], font, engine)
    ensures Resolve(s, font, engine) == Miss(if |s.entries| < s.maxEntries then |s.entries| else Coldest(s.entries, |s.entries|, s.epoch).0)
  {
  }

  /** The fingerprint stored for `font` on a miss. */
  function StoredFingerprint(font: FontRef, engine: FingerprintEngine): (fp: Fingerprint)
    ensures font.key.IsValid() ==> fp == engine.default
    ensures !font.key.IsValid() && engine.fromFont(font).Some? ==> fp == engine.fromFont(font).value
    ensures !font.key.IsValid() && engine.fromFont(font).None? ==> fp == engine.default
  {
    if font.key.IsValid() then engine.default else engine.fromFont(font).GetOr(engine.default)
  }

  /**
   * The effect of one call to `get`. A hit re-stamps the matched entry with
   * the current epoch and returns it; a miss advances the epoch, computes
   * `f(font)` and writes a new entry at the slot `find` chose. `freshId` is the
   * key the supply would mint; it is used only for a miss without a stable key.
   */
  function Step<T>(s: State<T>, font: FontRef, engine: FingerprintEngine, f: FontRef -> T, freshId: nat): (r: Response<T>)
    ensures r.computed <==> Resolve(s, font, engine).Miss?
    ensures r.next.maxEntries == s.maxEntries
    ensures |s.entries| <= |r.next.entries|
  {
    match Resolve(s, font, engine)
    case Hit(i) =>
      var e := s.entries[i];
      Response(s.(entries := s.entries[i := e.(epoch := s.epoch)]), e.id, e.data, false)
    case Miss(i) =>
      var epoch := s.epoch + 1;
      var id := if font.key.IsValid() then font.key.value else freshId;
      var e := Entry(epoch, id, StoredFingerprint(font, engine), f(font));
      var entries := if i == |s.entries| then s.entries + [e] else s.entries[i := e];
      Response(State(entries, s.maxEntries, epoch), id, e.data, true)
  }

  class FontCache<T> {
    var entries: seq<Entry<T>>
    var maxEntries: nat
    var epoch: nat
    /** How many times a factory has been invoked by this cache. */
    ghost var computeCalls: nat

    function Snapshot(): State<T>
      reads this
    {
      State(entries, maxEntries, epoch)
    }

    ghost predicate Valid()
      reads this
    {
      Inv(Snapshot())
    }

    constructor (maxEntries: nat)
      ensures Valid()
      ensures Snapshot() == State([], maxEntries, 0) && computeCalls == 0
    {
      this.entries := [];
      this.epoch := 0;
      this.maxEntries := maxEntries;
      this.computeCalls := 0;
    }

    /**
     * Looks up `font` in the cache, computing its value with `f` on a miss,
     * and returns the id of its entry together with the value.
     */
    method Get(font: FontRef, f: FontRef -> T, engine: FingerprintEngine, keys: KeySource) returns (id: nat, data: T)
      requires Valid()
      modifies this, keys
      ensures Valid()
      ensures var r := Step(old(Snapshot()), font, engine, f, old(keys.next));
        && Snapshot() == r.next && id == r.id && data == r.data
        && computeCalls == old(computeCalls) + (if r.computed then 1 else 0)
        && keys.next == (if r.computed && !font.key.IsValid() then old(keys.next) + 1 else old(keys.next))
    {
      ghost var s := Snapshot();
      ghost var freshId := keys.next;
      var found, index := Find(font, engine);
      if found {
        var entry := entries[index];
        entries := entries[index := entry.(epoch := epoch)];
        id, data := entry.id, entry.data;
      } else {
        epoch := epoch + 1;
        data := f(font);
        computeCalls := computeCalls + 1;
        var fingerprint: Fingerprint;
        if font.key.IsValid() {
          id, fingerprint := font.key.value, engine.default;
        } else {
          id := keys.Mint();
          fingerprint := engine.fromFont(font).GetOr(engine.default);
        }
        var entry := Entry(epoch, id, fingerprint, data);
        if index == |entries| {
          entries := entries + [entry];
        } else {
          entries := entries[index := entry];
        }
      }
      StepKeepsInv(s, font, engine, f, freshId);
    }

    /**
     * One scan that finds the first entry matching `font` and, failing that,
     * chooses the slot for the new entry: the next free index while the cache
     * is below its bound, otherwise the coldest entry.
     */
    method Find(font: FontRef, engine: FingerprintEngine) returns (found: bool, index: nat)
      ensures Resolve(Snapshot(), font, engine) == if found then Hit(index) else Miss(index)
    {
      var lowest := 0;
      var lowestEpoch := epoch;
      if font.key.IsValid() {
        var id := font.key.value;
        var i := 0;
        while i < |entries|
          invariant 0 <= i <= |entries|
          invariant forall j :: 0 <= j < i ==> !Matches(entries[j], font, engine)
          invariant (lowest, lowestEpoch) == Coldest(entries, i, epoch)
        {
          if entries[i].id == id {
            ResolveHit(Snapshot(), font, engine, i);
            return true, i;
          }
          if entries[i].epoch < lowestEpoch {
            lowestEpoch := entries[i].epoch;
            lowest := i;
          }
          i := i + 1;
        }
      } else {
        var len := RemainingLen(font);
        var i := 0;
        while i < |entries|
          invariant 0 <= i <= |entries|
          invariant forall j :: 0 <= j < i ==> !Matches(entries[j], font, engine)
          invariant (lowest, lowestEpoch) == Coldest(entries, i, epoch)
        {
          if engine.testLen(entries[i].fingerprint, font, len) == Some(true) {
            ResolveHit(Snapshot(), font, engine, i);
            return true, i;
          }
          if entries[i].epoch < lowestEpoch {
            lowestEpoch := entries[i].epoch;
            lowest := i;
          }
          i := i + 1;
        }
      }
      ResolveMiss(Snapshot(), font, engine);
      if |entries| < maxEntries {
        return false, |entries|;
      } else {
        return false, lowest;
      }
    }
  }

  /** Every call to `get` preserves the length bound and keeps every stamp at or below the epoch. */
  lemma StepKeepsInv<T>(s: State<T>, font: FontRef, engine: FingerprintEngine, f: FontRef -> T, freshId: nat)
    requires Inv(s)
    ensures Inv(Step(s, font, engine, f, freshId).next)
  {
  }
}
