/**
 * The last-location cache of the weather client: one JSON record under a fixed
 * key of the browser's key-value storage, a presence flag, and a 30-day expiry.
 * The clock is a parameter `now` (epoch milliseconds) of each operation that reads it.
 */
module LocationStorage {
  import opened Wrappers
  import opened LocationJson

  const StorageKey: string := "vue-weather-last-location"

  /** Thirty days in milliseconds: 2 592 000 000. */
  const ExpirationMs: int := 30 * 24 * 60 * 60 * 1000

  /** A record is expired when it is strictly older than ExpirationMs at time now. */
  predicate IsExpired(r: StoredLocation, now: int)
    ensures IsExpired(r, now) <==> now - r.timestamp >= 2592000001
  {
    now - r.timestamp > ExpirationMs
  }

  /** What a read of the storage key finds at time now. */
  datatype Entry =
    | Absent                          // no item, or the empty string (falsy)
    | Corrupt                         // an item that does not parse as a record
    | Expired(record: StoredLocation)
    | Current(record: StoredLocation)

  function Inspect(store: map<string, string>, now: int): (e: Entry)
    ensures e.Current? || e.Expired? ==> StorageKey in store && store[StorageKey] == Encode(e.record)
    ensures e.Current? ==> !IsExpired(e.record, now)
    ensures e.Expired? ==> IsExpired(e.record, now)
  {
    if StorageKey !in store || store[StorageKey] == "" then Absent
    else match Decode(store[StorageKey])
      case None => Corrupt
      case Some(r) =>
        EncodeDecode(store[StorageKey]);
        if IsExpired(r, now) then Expired(r) else Current(r)
  }

  /** Whether reading this entry evicts it: a stale or unparsable record is removed. */
  predicate Evicts(e: Entry) {
    e.Corrupt? || e.Expired?
  }

  /** The store after saving coords at time now. */
  function Saved(store: map<string, string>, coords: Coords, now: int): map<string, string>
  {
    store[StorageKey := Encode(StoredLocation(coords, now))]
  }

  /** The store after the record is removed. */
  function Cleared(store: map<string, string>): map<string, string>
  {
    store - {StorageKey}
  }

  /** The key-value storage and the presence flag of one cache instance. */
  class LocationStore {
    var store: map<string, string>
    var hasLastLocation: bool

    /** The flag is only ever set while a parsable record is stored. */
    ghost predicate Valid()
      reads this
    {
      hasLastLocation ==> StorageKey in store && Decode(store[StorageKey]).Some?
    }

    /** A fresh cache over the current storage: the flag starts false until the mount-time check. */
    constructor (initial: map<string, string>)
      ensures store == initial && !hasLastLocation
      ensures Valid()
    {
      store := initial;
      hasLastLocation := false;
    }

    method SaveLastLocation(coords: Coords, now: int)
      modifies this
      ensures store == Saved(old(store), coords, now)
      ensures hasLastLocation
      ensures Valid()
    {
      var storedLocation := StoredLocation(coords, now);
      store := store[StorageKey := Encode(storedLocation)];
      hasLastLocation := true;
      DecodeEncode(storedLocation);
    }

    method GetLastLocation(now: int) returns (r: Option<Coords>)
      modifies this
      ensures var e := Inspect(old(store), now);
        r == if e.Current? then Some(e.record.coords) else None
      ensures var e := Inspect(old(store), now);
        if Evicts(e) then store == Cleared(old(store)) && !hasLastLocation
        else store == old(store) && hasLastLocation == old(hasLastLocation)
      ensures old(Valid()) ==> Valid()
      ensures old(Valid()) && Inspect(old(store), now).Absent? ==> !hasLastLocation
    {
      EmptyIsNotARecord();
      var stored := if StorageKey in store then Some(store[StorageKey]) else None;
      if stored.None? || stored.value == "" {
        return None;
      }
      var storedLocation := Decode(stored.value);
      if storedLocation.None? {
        ClearLastLocation();
        return None;
      }
      if now - storedLocation.value.timestamp > ExpirationMs {
        ClearLastLocation();
        return None;
      }
      return Some(storedLocation.value.coords);
    }

    method ClearLastLocation()
      modifies this
      ensures store == Cleared(old(store))
      ensures !hasLastLocation
      ensures Valid()
    {
      store := store - {StorageKey};
      hasLastLocation := false;
    }

    /** Recomputes the flag by reading; also what the view runs once when it is mounted. */
    method CheckLastLocation(now: int)
      modifies this
      ensures hasLastLocation <==> Inspect(old(store), now).Current?
      ensures store == if Evicts(Inspect(old(store), now)) then Cleared(old(store)) else old(store)
      ensures hasLastLocation <==> exists r :: StorageKey in store && store[StorageKey] == Encode(r) && !IsExpired(r, now)
      ensures !hasLastLocation ==> StorageKey !in store || store[StorageKey] == ""
      ensures Valid()
    {
      ghost var e := Inspect(store, now);
      var lastLocation := GetLastLocation(now);
      hasLastLocation := lastLocation != None;
      CurrentIffFreshEncoding(old(store), now);
      if e.Current? {
        assert store == old(store);
      } else if !Evicts(e) {
        assert store == old(store);
        CurrentIffFreshEncoding(store, now);
      } else {
        assert StorageKey !in store;
      }
    }
  }

  /** The reader finds a current record exactly when the stored text encodes a record that has not expired. */
  lemma {:induction false} CurrentIffFreshEncoding(store: map<string, string>, now: int)
    ensures Inspect(store, now).Current? <==>
      exists r :: StorageKey in store && store[StorageKey] == Encode(r) && !IsExpired(r, now)
  {
    if Inspect(store, now).Current? {
      var r := Inspect(store, now).record;
      DecodeIffEncode(store[StorageKey], r);
    }
    if r :| StorageKey in store && store[StorageKey] == Encode(r) && !IsExpired(r, now) {
      DecodeEncode(r);
    }
  }

  /** Saving then reading within ExpirationMs finds the saved record. */
  lemma {:induction false} SaveThenInspect(store: map<string, string>, coords: Coords, saved: int, now: int)
    requires now - saved <= ExpirationMs
    ensures Inspect(Saved(store, coords, saved), now) == Current(StoredLocation(coords, saved))
  {
    DecodeEncode(StoredLocation(coords, saved));
  }

  /** Saving then reading later than ExpirationMs finds the saved record expired. */
  lemma {:induction false} SaveThenInspectExpired(store: map<string, string>, coords: Coords, saved: int, now: int)
    requires now - saved > ExpirationMs
    ensures Inspect(Saved(store, coords, saved), now) == Expired(StoredLocation(coords, saved))
  {
    DecodeEncode(StoredLocation(coords, saved));
  }

  /** The boundary is strict: a record exactly ExpirationMs old is still current, one millisecond later it is expired. */
  lemma {:induction false} ExpiryBoundary(store: map<string, string>, coords: Coords, saved: int)
    ensures Inspect(Saved(store, coords, saved), saved + 2592000000).Current?
    ensures Inspect(Saved(store, coords, saved), saved + 2592000001).Expired?
  {
    SaveThenInspect(store, coords, saved, saved + 2592000000);
    SaveThenInspectExpired(store, coords, saved, saved + 2592000001);
  }

  /** A stored text that is not the empty string and does not decode is read as corrupt, and so is evicted. */
  lemma {:induction false} UnparsableIsEvicted(store: map<string, string>, now: int)
    requires StorageKey in store && store[StorageKey] != ""
    requires forall r :: store[StorageKey] != Encode(r)
    ensures Inspect(store, now) == Corrupt
  {
  }

  /** Saving and clearing change only the entry under StorageKey. */
  lemma {:induction false} OtherKeysUntouched(store: map<string, string>, coords: Coords, now: int, k: string)
    requires k != StorageKey
    ensures (k in Saved(store, coords, now) <==> k in store) && (k in Cleared(store) <==> k in store)
    ensures k in store ==> Saved(store, coords, now)[k] == store[k] && Cleared(store)[k] == store[k]
  {
  }

  /** Clearing leaves nothing under StorageKey and clearing twice is clearing once. */
  lemma {:induction false} ClearIdempotent(store: map<string, string>, now: int)
    ensures StorageKey !in Cleared(store) && Inspect(Cleared(store), now) == Absent
    ensures Cleared(Cleared(store)) == Cleared(store)
  {
  }

  /** Save, then read within ExpirationMs: the saved coordinates come back and nothing changes. */
  method SaveThenGet(cache: LocationStore, coords: Coords, saved: int, now: int) returns (r: Option<Coords>)
    requires now - saved <= ExpirationMs
    modifies cache
    ensures r == Some(coords)
    ensures cache.store == Saved(old(cache.store), coords, saved) && cache.hasLastLocation
  {
    cache.SaveLastLocation(coords, saved);
    SaveThenInspect(old(cache.store), coords, saved, now);
    r := cache.GetLastLocation(now);
  }

  /** Save, then read after ExpirationMs: nothing comes back and the record is gone. */
  method SaveThenGetExpired(cache: LocationStore, coords: Coords, saved: int, now: int) returns (r: Option<Coords>)
    requires now - saved > ExpirationMs
    modifies cache
    ensures r == None
    ensures cache.store == Cleared(old(cache.store)) && !cache.hasLastLocation
  {
    cache.SaveLastLocation(coords, saved);
    SaveThenInspectExpired(old(cache.store), coords, saved, now);
    r := cache.GetLastLocation(now);
  }

  /** Clearing twice leaves the same state as clearing once. */
  method ClearTwice(cache: LocationStore)
    modifies cache
    ensures cache.store == Cleared(old(cache.store)) && !cache.hasLastLocation
  {
    cache.ClearLastLocation();
    cache.ClearLastLocation();
  }
}
