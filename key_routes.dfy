/** The key-lifecycle engine of src/routes/key.py, over a store that maps each
    key value to its record. Every operation is first given as a pure step
    function from the old store to a result and the new store; the class
    `KeyStore` then performs the same operations in place and is proved to
    agree with the step functions. The HTTP and JSON layer is replaced by the
    result datatypes below. */
module KeyRoutes {
  import opened KeyModel
  import opened Text
  import opened Ordering

  type Store = map<string, KeyRecord>

  /** Length of a day, in the integer instants the model uses (seconds). */
  const DAY: int := 86400

  const KEY_LENGTH: nat := 8
  const MAX_ATTEMPTS: nat := 10
  const MIN_DAYS: int := 1
  const MAX_DAYS: int := 365

  /** Defaults `create_key` uses when a field is absent from the request. */
  const DEFAULT_DAYS: int := 30
  const DEFAULT_CREATOR: string := "api"

  /** `string.ascii_uppercase + string.digits`. */
  const UPPERCASE: string := CharRange('A' as int, 26)
  const DIGITS: string := CharRange('0' as int, 10)
  const ALPHABET: string := UPPERCASE + DIGITS

  /** The `count` consecutive characters starting at code point `lo`. */
  function CharRange(lo: int, count: nat): (r: string)
    requires 0 <= lo && lo + count <= 0xD800
    ensures |r| == count
    ensures forall i :: 0 <= i < count ==> r[i] == (lo + i) as char
    decreases count
  {
    if count == 0 then [] else [lo as char] + CharRange(lo + 1, count - 1)
  }

  predicate IsKeyChar(c: char) {
    'A' <= c <= 'Z' || '0' <= c <= '9'
  }

  /** The shape of every generated key value. */
  predicate IsKeyShape(k: string) {
    |k| == KEY_LENGTH && forall i :: 0 <= i < |k| ==> IsKeyChar(k[i])
  }

  /** One outcome of `random.choices(ALPHABET, k=8)`: eight positions in the alphabet. */
  predicate IsDraw(d: seq<nat>) {
    |d| == KEY_LENGTH && forall i :: 0 <= i < |d| ==> d[i] < |ALPHABET|
  }

  /** The random source of one `create_key` call: one draw per possible attempt. */
  predicate IsDrawSeries(draws: seq<seq<nat>>) {
    |draws| == MAX_ATTEMPTS && forall j :: 0 <= j < |draws| ==> IsDraw(draws[j])
  }

  /** The characters at the drawn alphabet positions, in order. */
  function Spell(draw: seq<nat>): (k: string)
    requires forall i :: 0 <= i < |draw| ==> draw[i] < |ALPHABET|
    ensures |k| == |draw|
    ensures forall i :: 0 <= i < |k| ==> k[i] == ALPHABET[draw[i]]
  {
    if draw == [] then [] else [ALPHABET[draw[0]]] + Spell(draw[1..])
  }

  /** `generate_key`, with the random positions supplied as `draw`. */
  function GenerateKey(draw: seq<nat>): (k: string)
    requires IsDraw(draw)
    ensures IsKeyShape(k)
  {
    var k := Spell(draw);
    assert forall i :: 0 <= i < |k| ==> IsKeyChar(k[i]) by {
      forall i | 0 <= i < |k| ensures IsKeyChar(k[i]) {
        var n := draw[i];
        if n < 26 {
          assert k[i] == UPPERCASE[n];
        } else {
          assert k[i] == DIGITS[n - 26];
        }
      }
    }
    k
  }

  /** The alphabet position of a key character: the inverse of indexing `ALPHABET`. */
  function AlphabetIndex(c: char): (n: nat)
    requires IsKeyChar(c)
    ensures n < |ALPHABET| && ALPHABET[n] == c
  {
    if 'A' <= c <= 'Z' then
      var n := (c as int) - ('A' as int);
      assert ALPHABET[n] == UPPERCASE[n];
      n
    else
      var n := (c as int) - ('0' as int);
      assert ALPHABET[26 + n] == DIGITS[n];
      26 + n
  }

  /** Every well-shaped key value is what `generate_key` returns for some draw:
      the draw that produces it. */
  function DrawFor(k: string): (d: seq<nat>)
    requires IsKeyShape(k)
    ensures IsDraw(d) && GenerateKey(d) == k
  {
    var d := Positions(k);
    assert GenerateKey(d) == k;
    d
  }

  function Positions(k: string): (d: seq<nat>)
    requires forall i :: 0 <= i < |k| ==> IsKeyChar(k[i])
    ensures |d| == |k|
    ensures forall i :: 0 <= i < |d| ==> d[i] < |ALPHABET| && ALPHABET[d[i]] == k[i]
  {
    if k == [] then [] else [AlphabetIndex(k[0])] + Positions(k[1..])
  }

  // ---------------------------------------------------------------- create

  /** The key values the attempts would generate, one per draw. */
  function Candidates(draws: seq<seq<nat>>): (c: seq<string>)
    requires forall j :: 0 <= j < |draws| ==> IsDraw(draws[j])
    ensures |c| == |draws|
    ensures forall j :: 0 <= j < |c| ==> c[j] == GenerateKey(draws[j]) && IsKeyShape(c[j])
  {
    if draws == [] then [] else [GenerateKey(draws[0])] + Candidates(draws[1..])
  }

  /** The first attempt, from `from` on, whose candidate is not in the store. */
  function FirstFresh(store: Store, cands: seq<string>, from: nat): (i: Option<nat>)
    requires from <= |cands|
    ensures i.Some? ==> from <= i.value < |cands| && cands[i.value] !in store
    ensures i.Some? ==> forall j :: from <= j < i.value ==> cands[j] in store
    ensures i.None? ==> forall j :: from <= j < |cands| ==> cands[j] in store
    decreases |cands| - from
  {
    if from == |cands| then None
    else if cands[from] !in store then Some(from)
    else FirstFresh(store, cands, from + 1)
  }

  datatype CreateResult =
    | InvalidDays
    | GenerationFailed
    | Created(keyValue: string, key: KeyView)

  /** `create_key`: check the duration, look for a key value not yet stored in
      at most ten attempts, and insert an unbound record expiring `days` days
      from `now`. */
  function CreateStep(store: Store, days: Option<int>, createdBy: Option<string>,
                      draws: seq<seq<nat>>, now: int): (out: (CreateResult, Store))
    requires IsDrawSeries(draws)
    ensures out.0.InvalidDays? <==> !(MIN_DAYS <= days.GetOr(DEFAULT_DAYS) <= MAX_DAYS)
    ensures out.0.GenerationFailed? <==>
              MIN_DAYS <= days.GetOr(DEFAULT_DAYS) <= MAX_DAYS &&
              forall j :: 0 <= j < MAX_ATTEMPTS ==> Candidates(draws)[j] in store
    ensures !out.0.Created? ==> out.1 == store
    ensures out.0.Created? ==>
              && IsKeyShape(out.0.keyValue)
              && out.0.keyValue !in store
              && out.1.Keys == store.Keys + {out.0.keyValue}
              && out.1[out.0.keyValue] ==
                   NewRecord(now + days.GetOr(DEFAULT_DAYS) * DAY, now, createdBy.GetOr(DEFAULT_CREATOR))
              && out.0.key == ToDict(out.0.keyValue, out.1[out.0.keyValue], now)
    ensures out.0.Created? ==>
              && FirstFresh(store, Candidates(draws), 0).Some?
              && out.0.keyValue == Candidates(draws)[FirstFresh(store, Candidates(draws), 0).value]
    ensures out.0.Created? ==> forall k :: k in store ==> out.1[k] == store[k]
  {
    var d := days.GetOr(DEFAULT_DAYS);
    var creator := createdBy.GetOr(DEFAULT_CREATOR);
    if d <= 0 || d > MAX_DAYS then (InvalidDays, store)
    else
      var cands := Candidates(draws);
      match FirstFresh(store, cands, 0)
      case None =>
        assert forall j :: 0 <= j < MAX_ATTEMPTS ==> cands[j] in store;
        (GenerationFailed, store)
      case Some(i) =>
        var k := cands[i];
        assert 0 <= i < MAX_ATTEMPTS && Candidates(draws)[i] !in store;
        var r := NewRecord(now + d * DAY, now, creator);
        (Created(k, ToDict(k, r, now)), store[k := r])
  }

  /** `CreateStep` when the duration is out of range. */
  lemma CreateStepRejects(store: Store, days: Option<int>, createdBy: Option<string>,
                          draws: seq<seq<nat>>, now: int)
    requires IsDrawSeries(draws)
    requires !(MIN_DAYS <= days.GetOr(DEFAULT_DAYS) <= MAX_DAYS)
    ensures CreateStep(store, days, createdBy, draws, now) == (InvalidDays, store)
  {
  }

  /** `CreateStep` when every attempt collides. */
  lemma CreateStepFails(store: Store, days: Option<int>, createdBy: Option<string>,
                        draws: seq<seq<nat>>, now: int)
    requires IsDrawSeries(draws)
    requires MIN_DAYS <= days.GetOr(DEFAULT_DAYS) <= MAX_DAYS
    requires FirstFresh(store, Candidates(draws), 0) == None
    ensures CreateStep(store, days, createdBy, draws, now) == (GenerationFailed, store)
  {
  }

  /** `CreateStep` when attempt `i` is the first whose candidate, `k`, is
      free: `k` is inserted with the record `r`. */
  lemma CreateStepCreates(store: Store, days: Option<int>, createdBy: Option<string>,
                          draws: seq<seq<nat>>, now: int, i: nat, k: string, r: KeyRecord)
    requires IsDrawSeries(draws)
    requires MIN_DAYS <= days.GetOr(DEFAULT_DAYS) <= MAX_DAYS
    requires FirstFresh(store, Candidates(draws), 0) == Some(i)
    requires k == GenerateKey(draws[i])
    requires r == NewRecord(now + days.GetOr(DEFAULT_DAYS) * DAY, now, createdBy.GetOr(DEFAULT_CREATOR))
    ensures CreateStep(store, days, createdBy, draws, now) == (Created(k, ToDict(k, r, now)), store[k := r])
  {
  }

  // -------------------------------------------------------------- validate

  datatype ValidateResult =
    | MissingInput
    | NotFound
    | Expired
    | Registered(keyInfo: KeyView)
    | SameDevice(keyInfo: KeyView)
    | OtherDevice
  {
    /** The `valid` field of the response. */
    predicate Granted() {
      Registered? || SameDevice?
    }
  }

  /** `validate_key`: reject empty input, then an unknown or expired key; bind
      an unbound key to the caller's HWID; accept the HWID it is bound to and
      refuse any other. */
  function ValidateStep(store: Store, key: string, hwid: string, now: int): (out: (ValidateResult, Store))
    ensures out.0.MissingInput? <==> key == [] || hwid == []
    ensures out.0.NotFound? <==> key != [] && hwid != [] && key !in store
    ensures out.0.Expired? <==> key != [] && hwid != [] && key in store && !IsValid(store[key], now)
    ensures out.0.Granted() <==> key != [] && hwid != [] && key in store && CanBeUsedBy(store[key], hwid, now)
    ensures out.0.Registered? <==>
              key != [] && hwid != [] && key in store && IsValid(store[key], now) && store[key].hwid == None
    ensures !out.0.Registered? ==> out.1 == store
    ensures out.0.Registered? ==>
              out.1 == store[key := store[key].(hwid := Some(hwid), used := true)]
    ensures out.0.Granted() ==>
              out.0.keyInfo == ToDict(key, out.1[key], now) && out.1[key].hwid == Some(hwid)
    ensures out.1.Keys == store.Keys
    ensures forall k :: k in store && store[k].hwid.Some? ==> out.1[k] == store[k]
  {
    if key == [] || hwid == [] then (MissingInput, store)
    else if key !in store then (NotFound, store)
    else
      var r := store[key];
      if !IsValid(r, now) then (Expired, store)
      else if r.hwid == None then
        var bound := r.(hwid := Some(hwid), used := true);
        (Registered(ToDict(key, bound, now)), store[key := bound])
      else if r.hwid == Some(hwid) then (SameDevice(ToDict(key, r, now)), store)
      else (OtherDevice, store)
  }

  // ----------------------------------------------------------- bulk delete

  /** The names a batch asks for, once each requested string is stripped. */
  function StrippedNames(keys: seq<string>): set<string> {
    set i | 0 <= i < |keys| :: Strip(keys[i])
  }

  /** The names of a non-empty batch: those of all but the last request, and the last one's. */
  lemma StrippedNamesLast(keys: seq<string>)
    requires keys != []
    ensures StrippedNames(keys) == StrippedNames(keys[..|keys| - 1]) + {Strip(keys[|keys| - 1])}
  {
    var n := |keys| - 1;
    forall x | x in StrippedNames(keys[..n]) ensures x in StrippedNames(keys) {
      var i :| 0 <= i < n && Strip(keys[..n][i]) == x;
      assert keys[i] == keys[..n][i];
    }
    forall x | x in StrippedNames(keys) ensures x in StrippedNames(keys[..n]) + {Strip(keys[n])} {
      var i :| 0 <= i < |keys| && Strip(keys[i]) == x;
      if i < n {
        assert keys[..n][i] == keys[i];
      }
    }
  }

  /** Request `i` finds its key: the stripped name is stored and no earlier
      request of the batch has already deleted it. */
  predicate FoundAtTurn(store: Store, keys: seq<string>, i: nat)
    requires i < |keys|
  {
    Strip(keys[i]) in store && Strip(keys[i]) !in StrippedNames(keys[..i])
  }

  /** The requests that do not find their key, unstripped and in input order,
      stated against the store as it was before the batch. */
  function Misses(store: Store, keys: seq<string>): (nf: seq<string>)
    ensures |nf| <= |keys|
  {
    if keys == [] then []
    else
      var n := |keys| - 1;
      Misses(store, keys[..n]) + (if FoundAtTurn(store, keys, n) then [] else [keys[n]])
  }

  /** The state of the `delete_keys` loop: the store, `deleted_count` and `not_found`. */
  datatype Batch = Batch(store: Store, deletedCount: nat, notFound: seq<string>)

  /** One turn of the loop: delete the stripped name if it is stored, otherwise
      record the request as given. */
  function DeleteTurn(b: Batch, key: string): (out: Batch)
    ensures out.store == b.store - {Strip(key)}
  {
    var name := Strip(key);
    if name in b.store then Batch(b.store - {name}, b.deletedCount + 1, b.notFound)
    else Batch(b.store, b.deletedCount, b.notFound + [key])
  }

  /** A turn accounts for its request once, and a record leaves the store
      exactly when `deleted_count` grows. */
  lemma DeleteTurnCounts(b: Batch, key: string)
    ensures var out := DeleteTurn(b, key);
            && out.deletedCount + |out.notFound| == b.deletedCount + |b.notFound| + 1
            && |out.store| + out.deletedCount == |b.store| + b.deletedCount
  {
  }

  /** The loop of `delete_keys` after the requests `keys`. */
  function DeleteLoop(store: Store, keys: seq<string>): (out: Batch)
    ensures out.store == store - StrippedNames(keys)
    ensures out.notFound == Misses(store, keys)
    ensures out.deletedCount + |out.notFound| == |keys|
  {
    if keys == [] then Batch(store, 0, [])
    else
      var n := |keys| - 1;
      StrippedNamesLast(keys);
      DeleteTurn(DeleteLoop(store, keys[..n]), keys[n])
  }

  /** A name that is stored and not yet asked for adds one to the found names. */
  lemma FoundNamesGrow(store: Store, names: set<string>, name: string)
    requires name in store && name !in names
    ensures |store.Keys * (names + {name})| == |store.Keys * names| + 1
  {
    assert store.Keys * (names + {name}) == store.Keys * names + {name};
  }

  /** A name that is not stored, or already asked for, leaves the found names alone. */
  lemma FoundNamesSame(store: Store, names: set<string>, name: string)
    requires name !in store || name in names
    ensures store.Keys * (names + {name}) == store.Keys * names
  {
  }

  /** The deleted count is the number of distinct stripped names that were stored. */
  lemma {:induction false} DeletedCountIsFoundNames(store: Store, keys: seq<string>)
    ensures DeleteLoop(store, keys).deletedCount == |store.Keys * StrippedNames(keys)|
  {
    if keys == [] {
      assert store.Keys * StrippedNames(keys) == {};
    } else {
      var n := |keys| - 1;
      var prefix := keys[..n];
      var name := Strip(keys[n]);
      var prev := DeleteLoop(store, prefix);
      DeletedCountIsFoundNames(store, prefix);
      StrippedNamesLast(keys);
      assert name in prev.store <==> name in store && name !in StrippedNames(prefix);
      if name in store && name !in StrippedNames(prefix) {
        FoundNamesGrow(store, StrippedNames(prefix), name);
      } else {
        FoundNamesSame(store, StrippedNames(prefix), name);
      }
    }
  }

  datatype DeleteManyResult =
    | EmptyList
    | Deleted(deletedCount: nat, totalRequested: nat, notFound: seq<string>)

  /** `delete_keys`: an empty batch is an error; otherwise every request is
      tried in turn and a miss does not stop the batch. */
  function DeleteManyStep(store: Store, keys: seq<string>): (out: (DeleteManyResult, Store))
    ensures out.0.EmptyList? <==> keys == []
    ensures out.0.EmptyList? ==> out.1 == store
    ensures out.0.Deleted? ==>
              && out.0.totalRequested == |keys|
              && out.0.deletedCount + |out.0.notFound| == out.0.totalRequested
              && out.0.deletedCount == |store.Keys * StrippedNames(keys)|
              && out.0.notFound == Misses(store, keys)
              && out.1.Keys == store.Keys - StrippedNames(keys)
              && (forall k :: k in out.1 ==> out.1[k] == store[k])
  {
    if keys == [] then (EmptyList, store)
    else
      DeletedCountIsFoundNames(store, keys);
      var loop := DeleteLoop(store, keys);
      (Deleted(loop.deletedCount, |keys|, loop.notFound), loop.store)
  }

  // --------------------------------------------------------- single delete

  datatype DeleteOneResult = KeyNotFound | KeyDeleted

  /** `delete_single_key`: remove the key if it is stored. The key is looked up
      exactly as given, without stripping. */
  function DeleteOneStep(store: Store, key: string): (out: (DeleteOneResult, Store))
    ensures out.0.KeyDeleted? <==> key in store
    ensures out.0.KeyNotFound? ==> out.1 == store
    ensures out.1.Keys == store.Keys - {key}
    ensures forall k :: k in out.1 ==> out.1[k] == store[k]
  {
    if key !in store then (KeyNotFound, store)
    else (KeyDeleted, store - {key})
  }

  // ----------------------------------------------------------------- stats

  datatype KeyStats = KeyStats(
    totalKeys: int,
    activeKeys: int,
    usedKeys: int,
    expiredKeys: int,
    unusedKeys: int)

  /** `expiry_date > now`: the keys `is_valid` accepts. */
  function ActiveSet(store: Store, now: int): set<string> {
    set k | k in store && IsValid(store[k], now)
  }

  /** `expiry_date <= now`. */
  function ExpiredSet(store: Store, now: int): set<string> {
    set k | k in store && store[k].expiryDate <= now
  }

  /** `used == True`, whether or not the key has expired. */
  function UsedSet(store: Store): set<string> {
    set k | k in store && store[k].used
  }

  function UnusedSet(store: Store): set<string> {
    set k | k in store && !store[k].used
  }

  /** Two disjoint sets that cover `u` add up to its size. */
  lemma DisjointCover<T>(a: set<T>, b: set<T>, u: set<T>)
    requires a + b == u && a * b == {}
    ensures |a| + |b| == |u|
  {
  }

  /** `get_stats` at the single instant `now`: four counts over the store and
      `unused_keys` derived as total minus used. */
  function Stats(store: Store, now: int): (s: KeyStats)
    ensures s.totalKeys == |store|
    ensures s.activeKeys == |ActiveSet(store, now)|
    ensures s.expiredKeys == |ExpiredSet(store, now)|
    ensures s.usedKeys == |UsedSet(store)|
    ensures s.activeKeys + s.expiredKeys == s.totalKeys
    ensures 0 <= s.usedKeys <= s.totalKeys
    ensures s.unusedKeys == |UnusedSet(store)|
  {
    var active := ActiveSet(store, now);
    var expired := ExpiredSet(store, now);
    var used := UsedSet(store);
    var unused := UnusedSet(store);
    DisjointCover(active, expired, store.Keys);
    DisjointCover(used, unused, store.Keys);
    KeyStats(|store|, |active|, |used|, |expired|, |store| - |used|)
  }

  // ------------------------------------------------------------------ list

  /** `v` is how `to_dict` shows one of the stored records at `now`. */
  predicate Shows(store: Store, now: int, v: KeyView) {
    v.keyValue in store && v == ToDict(v.keyValue, store[v.keyValue], now)
  }

  /** The records of the store as views, in some order. */
  ghost function Views(store: Store, now: int): (vs: seq<KeyView>)
    ensures |vs| == |store|
    ensures forall v :: v in vs ==> Shows(store, now, v)
    ensures forall k :: k in store ==> ToDict(k, store[k], now) in vs
    decreases |store|
  {
    if store == map[] then []
    else
      var k :| k in store;
      var rest := store - {k};
      assert rest.Keys == store.Keys - {k};
      var tail := Views(rest, now);
      var vs := [ToDict(k, store[k], now)] + tail;
      assert forall j :: j in store ==> ToDict(j, store[j], now) in vs by {
        forall j | j in store ensures ToDict(j, store[j], now) in vs {
          if j != k {
            assert j in rest && rest[j] == store[j];
          }
        }
      }
      vs
  }

  function CreatedAt(v: KeyView): int {
    v.createdAt
  }

  /** Newest first: `created_at` never increases along the list. */
  predicate NewestFirst(vs: seq<KeyView>) {
    Descending(CreatedAt, vs)
  }

  /** Sequences with the same multiset have the same length and the same members. */
  lemma SameMembers<T>(a: seq<T>, b: seq<T>)
    requires multiset(a) == multiset(b)
    ensures |a| == |b|
    ensures forall x :: x in a <==> x in b
  {
    assert |a| == |multiset(a)|;
    forall x ensures x in a <==> x in b {
      assert x in a <==> x in multiset(a);
      assert x in b <==> x in multiset(b);
    }
  }

  /** `get_all_keys`: every record, as `to_dict` shows it at `now`, newest first. */
  ghost function ListAll(store: Store, now: int): (r: seq<KeyView>)
    ensures |r| == |store|
    ensures NewestFirst(r)
    ensures forall v :: v in r ==> Shows(store, now, v)
    ensures forall k :: k in store ==> ToDict(k, store[k], now) in r
  {
    var vs := Views(store, now);
    var r := SortDescending(CreatedAt, vs);
    SameMembers(r, vs);
    forall v | v in r ensures Shows(store, now, v) {
      assert v in vs;
    }
    forall k | k in store ensures ToDict(k, store[k], now) in r {
      assert ToDict(k, store[k], now) in vs;
    }
    r
  }

  /** The retry loop of `create_key`: generate a key value from each draw in
      turn until one is not in the store, giving up after ten attempts. */
  method FindFreshKey(store: Store, draws: seq<seq<nat>>) returns (attempts: nat, keyValue: string)
    requires IsDrawSeries(draws)
    ensures attempts <= MAX_ATTEMPTS
    ensures attempts < MAX_ATTEMPTS ==>
              && FirstFresh(store, Candidates(draws), 0) == Some(attempts)
              && keyValue == GenerateKey(draws[attempts])
              && keyValue !in store
    ensures attempts == MAX_ATTEMPTS ==> FirstFresh(store, Candidates(draws), 0) == None
  {
    ghost var cands := Candidates(draws);
    attempts := 0;
    keyValue := "";
    while attempts < MAX_ATTEMPTS
      invariant 0 <= attempts <= MAX_ATTEMPTS
      invariant FirstFresh(store, cands, 0) == FirstFresh(store, cands, attempts)
    {
      keyValue := GenerateKey(draws[attempts]);
      if keyValue !in store {
        break;
      }
      attempts := attempts + 1;
    }
  }

  // ------------------------------------------------------- the store itself

  /** The key table, updated in place by the request handlers. */
  class KeyStore {
    var records: Store

    constructor ()
      ensures records == map[]
    {
      records := map[];
    }

    method CreateKey(days: Option<int>, createdBy: Option<string>, draws: seq<seq<nat>>, now: int)
      returns (res: CreateResult)
      requires IsDrawSeries(draws)
      modifies this
      ensures (res, records) == CreateStep(old(records), days, createdBy, draws, now)
    {
      var d := days.GetOr(DEFAULT_DAYS);
      var creator := createdBy.GetOr(DEFAULT_CREATOR);
      var store := records;
      if d <= 0 || d > MAX_DAYS {
        CreateStepRejects(store, days, createdBy, draws, now);
        res := InvalidDays;
      } else {
        var attempts, keyValue := FindFreshKey(store, draws);
        if attempts >= MAX_ATTEMPTS {
          CreateStepFails(store, days, createdBy, draws, now);
          res := GenerationFailed;
        } else {
          var r := NewRecord(now + d * DAY, now, creator);
          CreateStepCreates(store, days, createdBy, draws, now, attempts, keyValue, r);
          records := store[keyValue := r];
          res := Created(keyValue, ToDict(keyValue, r, now));
        }
      }
    }

    method ValidateKey(key: string, hwid: string, now: int) returns (res: ValidateResult)
      modifies this
      ensures (res, records) == ValidateStep(old(records), key, hwid, now)
    {
      if key == [] || hwid == [] {
        return MissingInput;
      }
      if key !in records {
        return NotFound;
      }
      var r := records[key];
      if !IsValid(r, now) {
        return Expired;
      }
      if r.hwid == None {
        r := r.(hwid := Some(hwid), used := true);
        records := records[key := r];
        res := Registered(ToDict(key, r, now));
      } else if r.hwid == Some(hwid) {
        res := SameDevice(ToDict(key, r, now));
      } else {
        res := OtherDevice;
      }
    }

    method DeleteKeys(keys: seq<string>) returns (res: DeleteManyResult)
      modifies this
      ensures (res, records) == DeleteManyStep(old(records), keys)
    {
      if keys == [] {
        return EmptyList;
      }
      var deletedCount: nat := 0;
      var notFound: seq<string> := [];
      for i := 0 to |keys|
        invariant Batch(records, deletedCount, notFound) == DeleteLoop(old(records), keys[..i])
      {
        assert keys[..i + 1] == keys[..i] + [keys[i]];
        var name := Strip(keys[i]);
        if name in records {
          records := records - {name};
          deletedCount := deletedCount + 1;
        } else {
          notFound := notFound + [keys[i]];
        }
      }
      assert keys[..|keys|] == keys;
      res := Deleted(deletedCount, |keys|, notFound);
    }

    method DeleteSingleKey(key: string) returns (res: DeleteOneResult)
      modifies this
      ensures (res, records) == DeleteOneStep(old(records), key)
    {
      if key !in records {
        return KeyNotFound;
      }
      records := records - {key};
      res := KeyDeleted;
    }
  }
}
