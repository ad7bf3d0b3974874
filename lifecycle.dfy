/** What holds of the key store across several requests: the binding rules of
    validation, the invariant creation and validation keep, and how the
    statistics move. */
module Lifecycle {
  import opened KeyModel
  import opened KeyRoutes
  import opened Text

  /** One request the server handles, with the instant and random draws it uses. */
  datatype Request =
    | Create(days: Option<int>, createdBy: Option<string>, draws: seq<seq<nat>>, now: int)
    | Validate(key: string, hwid: string, now: int)
    | DeleteMany(keys: seq<string>)
    | DeleteOne(key: string)

  predicate WellFormed(req: Request) {
    req.Create? ==> IsDrawSeries(req.draws)
  }

  /** The store after one request. */
  function Apply(store: Store, req: Request): Store
    requires WellFormed(req)
  {
    match req
    case Create(days, createdBy, draws, now) => CreateStep(store, days, createdBy, draws, now).1
    case Validate(key, hwid, now) => ValidateStep(store, key, hwid, now).1
    case DeleteMany(keys) => DeleteManyStep(store, keys).1
    case DeleteOne(key) => DeleteOneStep(store, key).1
  }

  predicate AllWellFormed(reqs: seq<Request>) {
    forall i :: 0 <= i < |reqs| ==> WellFormed(reqs[i])
  }

  /** The store after the requests `reqs`, handled one after another. */
  function Run(store: Store, reqs: seq<Request>): Store
    requires AllWellFormed(reqs)
  {
    if reqs == [] then store
    else Apply(Run(store, reqs[..|reqs| - 1]), reqs[|reqs| - 1])
  }

  /** The invariant of every stored record: used exactly when bound to a
      non-empty HWID, and expiring after its creation. */
  predicate Consistent(store: Store) {
    forall k :: k in store ==> BindingConsistent(store[k]) && store[k].expiryDate > store[k].createdAt
  }

  // ------------------------------------------------------------ validation

  /** An expired key is refused whatever the HWID, and stays exactly as it
      was: in particular an unused expired key is never bound. */
  lemma ExpiredKeyNeverBound(store: Store, key: string, hwid: string, now: int)
    requires key in store && !IsValid(store[key], now)
    ensures ValidateStep(store, key, hwid, now).1 == store
    ensures !ValidateStep(store, key, hwid, now).0.Granted()
  {
  }

  /** The first validation of an unbound, unexpired key binds it to the caller. */
  lemma FirstUseBinds(store: Store, key: string, hwid: string, now: int)
    requires key in store && IsValid(store[key], now) && store[key].hwid == None
    requires key != [] && hwid != []
    ensures ValidateStep(store, key, hwid, now).0.Registered?
    ensures ValidateStep(store, key, hwid, now).1[key].hwid == Some(hwid)
    ensures ValidateStep(store, key, hwid, now).1[key].used
  {
  }

  /** After a granted validation, the same device is granted again for as
      long as the key is valid, and nothing changes. */
  lemma RevalidationIdempotent(store: Store, key: string, hwid: string, t1: int, t2: int)
    requires ValidateStep(store, key, hwid, t1).0.Granted()
    requires IsValid(store[key], t2)
    ensures ValidateStep(ValidateStep(store, key, hwid, t1).1, key, hwid, t2).0.SameDevice?
    ensures ValidateStep(ValidateStep(store, key, hwid, t1).1, key, hwid, t2).1
            == ValidateStep(store, key, hwid, t1).1
  {
  }

  /** After a granted validation, any other device is refused and the key
      stays bound to the first one. */
  lemma OtherDeviceRefused(store: Store, key: string, h1: string, h2: string, t1: int, t2: int)
    requires ValidateStep(store, key, h1, t1).0.Granted()
    requires h2 != h1
    ensures !ValidateStep(ValidateStep(store, key, h1, t1).1, key, h2, t2).0.Granted()
    ensures ValidateStep(ValidateStep(store, key, h1, t1).1, key, h2, t2).1
            == ValidateStep(store, key, h1, t1).1
    ensures ValidateStep(store, key, h1, t1).1[key].hwid == Some(h1)
  {
  }

  /** A key just created is bound by the first validation made before it expires. */
  lemma CreatedKeyBindsOnFirstUse(store: Store, days: Option<int>, createdBy: Option<string>,
                                  draws: seq<seq<nat>>, now: int, hwid: string, later: int)
    requires IsDrawSeries(draws)
    requires CreateStep(store, days, createdBy, draws, now).0.Created?
    requires hwid != [] && later < now + days.GetOr(DEFAULT_DAYS) * DAY
    ensures var out := CreateStep(store, days, createdBy, draws, now);
            ValidateStep(out.1, out.0.keyValue, hwid, later).0.Registered?
  {
    var out := CreateStep(store, days, createdBy, draws, now);
    assert out.0.keyValue != [] by {
      assert IsKeyShape(out.0.keyValue);
    }
  }

  /** A deleted key is reported as not found, never granted from a stale copy. */
  lemma DeletedKeyNotFound(store: Store, key: string, hwid: string, now: int)
    requires key != [] && hwid != []
    ensures ValidateStep(DeleteOneStep(store, key).1, key, hwid, now).0.NotFound?
  {
  }

  /** Any request of a bulk delete whose stripped form is the key removes it. */
  lemma BatchDeletedKeyNotFound(store: Store, keys: seq<string>, i: nat, hwid: string, now: int)
    requires i < |keys| && Strip(keys[i]) != [] && hwid != []
    ensures ValidateStep(DeleteManyStep(store, keys).1, Strip(keys[i]), hwid, now).0.NotFound?
  {
    assert Strip(keys[i]) in StrippedNames(keys);
  }

  // ------------------------------------------------------------- invariant

  /** A freshly created record satisfies the invariant: the duration is at
      least one day. */
  lemma CreatePreservesConsistent(store: Store, days: Option<int>, createdBy: Option<string>,
                                  draws: seq<seq<nat>>, now: int)
    requires IsDrawSeries(draws) && Consistent(store)
    ensures Consistent(CreateStep(store, days, createdBy, draws, now).1)
    ensures var out := CreateStep(store, days, createdBy, draws, now);
            out.0.Created? ==>
              var r := out.1[out.0.keyValue];
              r.hwid == None && !r.used && r.expiryDate >= r.createdAt + DAY
  {
    var out := CreateStep(store, days, createdBy, draws, now);
    if out.0.Created? {
      var d := days.GetOr(DEFAULT_DAYS);
      assert d * DAY >= DAY by {
        assert d >= 1;
      }
      forall k | k in out.1
        ensures BindingConsistent(out.1[k]) && out.1[k].expiryDate > out.1[k].createdAt
      {
        if k != out.0.keyValue {
          assert k in store;
        }
      }
    }
  }

  /** Every request keeps the invariant. */
  lemma ApplyPreservesConsistent(store: Store, req: Request)
    requires WellFormed(req) && Consistent(store)
    ensures Consistent(Apply(store, req))
  {
    match req
    case Create(days, createdBy, draws, now) =>
      CreatePreservesConsistent(store, days, createdBy, draws, now);
    case Validate(key, hwid, now) =>
    case DeleteMany(keys) =>
    case DeleteOne(key) =>
  }

  /** Every sequence of requests keeps the invariant. */
  lemma {:induction false} RunPreservesConsistent(store: Store, reqs: seq<Request>)
    requires AllWellFormed(reqs) && Consistent(store)
    ensures Consistent(Run(store, reqs))
  {
    if reqs != [] {
      var n := |reqs| - 1;
      RunPreservesConsistent(store, reqs[..n]);
      ApplyPreservesConsistent(Run(store, reqs[..n]), reqs[n]);
    }
  }

  /** No request changes a bound record that it does not delete. */
  lemma ApplyKeepsBoundRecord(store: Store, req: Request, k: string)
    requires WellFormed(req)
    requires k in store && store[k].hwid.Some? && k in Apply(store, req)
    ensures Apply(store, req)[k] == store[k]
  {
  }

  /** A bound key that is present after every request keeps its record, and
      hence its HWID, through the whole sequence. */
  lemma {:induction false} RunKeepsBoundRecord(store: Store, reqs: seq<Request>, k: string)
    requires AllWellFormed(reqs)
    requires k in store && store[k].hwid.Some?
    requires forall i :: 0 <= i <= |reqs| ==> k in Run(store, reqs[..i])
    ensures k in Run(store, reqs) && Run(store, reqs)[k] == store[k]
  {
    assert reqs[..|reqs|] == reqs;
    if reqs != [] {
      var n := |reqs| - 1;
      var prefix := reqs[..n];
      forall i | 0 <= i <= |prefix| ensures k in Run(store, prefix[..i]) {
        assert prefix[..i] == reqs[..i];
      }
      RunKeepsBoundRecord(store, prefix, k);
      ApplyKeepsBoundRecord(Run(store, prefix), reqs[n], k);
    }
  }

  // ------------------------------------------------------------ statistics

  /** Inserting a new, unused record that has not expired adds one to the
      total and to the active count and leaves the others alone. */
  lemma StatsAfterInsert(store: Store, k: string, r: KeyRecord, now: int)
    requires k !in store && IsValid(r, now) && !r.used
    ensures var before := Stats(store, now);
            var after := Stats(store[k := r], now);
            && after.totalKeys == before.totalKeys + 1
            && after.activeKeys == before.activeKeys + 1
            && after.usedKeys == before.usedKeys
            && after.expiredKeys == before.expiredKeys
  {
    var s := store[k := r];
    assert ActiveSet(s, now) == ActiveSet(store, now) + {k};
    assert ExpiredSet(s, now) == ExpiredSet(store, now);
    assert UsedSet(s) == UsedSet(store);
  }

  /** Creating a key adds one to the total and to the active count, and
      leaves the used and expired counts alone. */
  lemma StatsAfterCreate(store: Store, days: Option<int>, createdBy: Option<string>,
                         draws: seq<seq<nat>>, now: int)
    requires IsDrawSeries(draws)
    requires CreateStep(store, days, createdBy, draws, now).0.Created?
    ensures var before := Stats(store, now);
            var after := Stats(CreateStep(store, days, createdBy, draws, now).1, now);
            && after.totalKeys == before.totalKeys + 1
            && after.activeKeys == before.activeKeys + 1
            && after.usedKeys == before.usedKeys
            && after.expiredKeys == before.expiredKeys
  {
    var out := CreateStep(store, days, createdBy, draws, now);
    var k := out.0.keyValue;
    assert out.1 == store[k := out.1[k]];
    assert days.GetOr(DEFAULT_DAYS) * DAY >= DAY;
    StatsAfterInsert(store, k, out.1[k], now);
  }

  /** On a consistent store, a validation adds one to the used count when it
      binds the key and changes no count otherwise. */
  lemma StatsAfterValidate(store: Store, key: string, hwid: string, now: int)
    requires Consistent(store)
    ensures var out := ValidateStep(store, key, hwid, now);
            var before := Stats(store, now);
            var after := Stats(out.1, now);
            && after.totalKeys == before.totalKeys
            && after.activeKeys == before.activeKeys
            && after.expiredKeys == before.expiredKeys
            && after.usedKeys == before.usedKeys + (if out.0.Registered? then 1 else 0)
  {
    var out := ValidateStep(store, key, hwid, now);
    if out.0.Registered? {
      var s := out.1;
      assert !store[key].used;
      assert ActiveSet(s, now) == ActiveSet(store, now);
      assert ExpiredSet(s, now) == ExpiredSet(store, now);
      assert UsedSet(s) == UsedSet(store) + {key};
    }
  }

  /** The counts are not a partition: a used key is counted as used and also
      as exactly one of active or expired, so the three counts exceed the total
      exactly when some stored key is used. */
  lemma StatsOverlap(store: Store, now: int)
    ensures var s := Stats(store, now);
            (s.activeKeys + s.usedKeys + s.expiredKeys > s.totalKeys <==>
                  exists k :: k in store && store[k].used)
    ensures forall k :: k in store && store[k].used ==>
              k in UsedSet(store) && (k in ActiveSet(store, now) <==> k !in ExpiredSet(store, now))
  {
    var used := UsedSet(store);
    if |used| > 0 {
      var k :| k in used;
      assert k in store && store[k].used;
    } else {
      forall k | k in store ensures !store[k].used {
        assert k !in used;
      }
    }
  }

  /** At its expiry instant a key is counted as expired by the statistics,
      refused by validation, and still not flagged `is_expired` in its view. */
  lemma ExpiryInstant(store: Store, key: string)
    requires key in store
    ensures var now := store[key].expiryDate;
            && key in ExpiredSet(store, now)
            && !IsValid(store[key], now)
            && !ToDict(key, store[key], now).isExpired
  {
  }

  /** A request that does not find its key is listed in `not_found`. */
  lemma {:induction false} MissListed(store: Store, keys: seq<string>, j: nat)
    requires j < |keys| && !FoundAtTurn(store, keys, j)
    ensures keys[j] in Misses(store, keys)
  {
    var n := |keys| - 1;
    if j < n {
      assert keys[..n][..j] == keys[..j];
      MissListed(store, keys[..n], j);
    }
  }

  /** A batch is not de-duplicated: a request whose stripped name an earlier
      request of the batch already asked for is reported in `not_found`, so
      fewer keys are deleted than requested. */
  lemma BulkDeleteRepeatedKey(store: Store, keys: seq<string>, i: nat, j: nat)
    requires i < j < |keys| && Strip(keys[i]) == Strip(keys[j])
    ensures DeleteManyStep(store, keys).0.Deleted?
    ensures keys[j] in DeleteManyStep(store, keys).0.notFound
    ensures DeleteManyStep(store, keys).0.deletedCount < DeleteManyStep(store, keys).0.totalRequested
  {
    assert keys[..j][i] == keys[i];
    assert Strip(keys[j]) in StrippedNames(keys[..j]);
    MissListed(store, keys, j);
  }
}
