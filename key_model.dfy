/** The license-key record (`Key` in src/models/key.py) and the predicates the
    server evaluates on it. Instants are integers (seconds); each predicate
    takes the instant it is evaluated at as `now`. */
module KeyModel {

  datatype Option<T> = None | Some(value: T) {
    function GetOr(default: T): T {
      if Some? then value else default
    }
  }

  /** One stored key. The key value itself is the key of the store map. */
  datatype KeyRecord = KeyRecord(
    expiryDate: int,
    createdAt: int,
    hwid: Option<string>,
    used: bool,
    createdBy: string)

  /** The JSON view of a record, as `to_dict` builds it. */
  datatype KeyView = KeyView(
    keyValue: string,
    expiryDate: int,
    createdAt: int,
    hwid: Option<string>,
    used: bool,
    createdBy: string,
    isExpired: bool)

  /** A freshly constructed record: the column defaults leave it unbound and unused. */
  function NewRecord(expiryDate: int, createdAt: int, createdBy: string): (r: KeyRecord)
    ensures r.hwid == None && !r.used
    ensures r.expiryDate == expiryDate && r.createdAt == createdAt && r.createdBy == createdBy
  {
    KeyRecord(expiryDate, createdAt, None, false, createdBy)
  }

  /** `is_valid`: the key has not yet reached its expiry instant. */
  predicate IsValid(r: KeyRecord, now: int)
    ensures IsValid(r, now) <==> !IsExpired(r, now) && now != r.expiryDate
  {
    r.expiryDate > now
  }

  /** `can_be_used_by`: a valid key that is unbound or bound to `hwid`. */
  predicate CanBeUsedBy(r: KeyRecord, hwid: string, now: int)
    ensures CanBeUsedBy(r, hwid, now) ==> IsValid(r, now)
  {
    if !IsValid(r, now) then false
    else r.hwid == None || r.hwid == Some(hwid)
  }

  /** The `is_expired` flag of `to_dict`: a strict comparison. */
  predicate IsExpired(r: KeyRecord, now: int) {
    r.expiryDate < now
  }

  /** `to_dict`: copies the fields and adds `is_expired` at `now`. */
  function ToDict(keyValue: string, r: KeyRecord, now: int): (v: KeyView)
    ensures v.hwid == r.hwid
    ensures v.keyValue == keyValue && v.used == r.used && v.createdBy == r.createdBy
    ensures v.expiryDate == r.expiryDate && v.createdAt == r.createdAt
    ensures v.isExpired <==> r.expiryDate < now
    ensures v.isExpired ==> !IsValid(r, now)
  {
    KeyView(keyValue, r.expiryDate, r.createdAt, r.hwid, r.used, r.createdBy, IsExpired(r, now))
  }

  /** The binding state the create and validate paths keep: a record is used
      exactly when it carries a (non-empty) HWID. */
  predicate BindingConsistent(r: KeyRecord) {
    r.used == r.hwid.Some? && (r.hwid.Some? ==> r.hwid.value != [])
  }

  /** An expired key can be used by nobody. */
  lemma ExpiredUsableByNone(r: KeyRecord, hwid: string, now: int)
    requires !IsValid(r, now)
    ensures !CanBeUsedBy(r, hwid, now)
  {
  }

  /** On a valid key, use is allowed exactly when it is unbound or bound to the caller. */
  lemma UsableIffUnboundOrSame(r: KeyRecord, hwid: string, now: int)
    requires IsValid(r, now)
    ensures CanBeUsedBy(r, hwid, now) <==> (r.hwid == None || r.hwid.value == hwid)
  {
  }

  /** A bound key is usable by at most one HWID at any instant. */
  lemma BoundUsableByOne(r: KeyRecord, h1: string, h2: string, now: int)
    requires r.hwid.Some?
    requires CanBeUsedBy(r, h1, now) && CanBeUsedBy(r, h2, now)
    ensures h1 == h2 && h1 == r.hwid.value
  {
  }

  /** `is_valid` and `is_expired` never both hold; both fail exactly at the
      expiry instant itself. */
  lemma ValidityAndExpiryAtBoundary(r: KeyRecord, now: int)
    ensures !(IsValid(r, now) && IsExpired(r, now))
    ensures (!IsValid(r, now) && !IsExpired(r, now)) <==> now == r.expiryDate
  {
  }
}
