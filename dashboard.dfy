/** The pure helpers of the dashboard script: the status badge and the
    shortened HWID of a key card, the parsing of the bulk-delete field, and the
    guards the create and bulk-delete forms apply before sending a request. */
module Dashboard {
  import opened Text
  import opened KeyModel
  import KeyRoutes

  // ----------------------------------------------------------------- card

  /** The badge of a key card: "Expirada", "Em Uso" or "Ativa". */
  datatype Status = Expired | InUse | Active

  /** The badge for a listed key: the expiry flag wins over the used flag. */
  function StatusOf(v: KeyView): (s: Status)
    ensures s == Expired <==> v.isExpired
    ensures s == InUse <==> !v.isExpired && v.used
    ensures s == Active <==> !v.isExpired && !v.used
  {
    if v.isExpired then Expired
    else if v.used then InUse
    else Active
  }

  /** What the badge of a stored record says about its use: "Ativa" and "Em Uso"
      before the expiry instant mean the key is usable by any device and by its
      bound device only. */
  lemma StatusOfStoredKey(k: string, r: KeyRecord, now: int)
    requires BindingConsistent(r)
    ensures StatusOf(ToDict(k, r, now)) == Expired <==> now > r.expiryDate
    ensures StatusOf(ToDict(k, r, now)) == InUse <==> now <= r.expiryDate && r.hwid.Some?
    ensures StatusOf(ToDict(k, r, now)) == Active <==> now <= r.expiryDate && r.hwid == None
    ensures StatusOf(ToDict(k, r, now)) == Active && now < r.expiryDate ==>
              forall h :: CanBeUsedBy(r, h, now)
    ensures StatusOf(ToDict(k, r, now)) == InUse && now < r.expiryDate ==>
              forall h :: CanBeUsedBy(r, h, now) <==> h == r.hwid.value
  {
  }

  /** At its expiry instant a key is refused by validation, yet its card does
      not show it as expired. */
  lemma StatusAtExpiryInstant(k: string, r: KeyRecord)
    ensures !IsValid(r, r.expiryDate)
    ensures StatusOf(ToDict(k, r, r.expiryDate)) != Expired
  {
  }

  /** The HWID line of a card: shown only for a non-empty HWID, as its first
      twenty characters followed by "...". */
  function HwidDisplay(hwid: Option<string>): (d: Option<string>)
    ensures d.None? <==> hwid.None? || hwid.value == []
    ensures d.Some? ==>
              && 3 <= |d.value| <= 23
              && d.value[|d.value| - 3..] == "..."
              && d.value[..|d.value| - 3] <= hwid.value
              && (|hwid.value| <= 20 ==> d.value[..|d.value| - 3] == hwid.value)
              && (|hwid.value| > 20 ==> |d.value| == 23)
  {
    match hwid
    case None => None
    case Some(h) =>
      if h == [] then None
      else
        var shown := if |h| <= 20 then h else h[..20];
        Some(shown + "...")
  }

  /** On a record whose binding is consistent, the HWID line appears exactly
      when the key is used. */
  lemma HwidShownIffUsed(r: KeyRecord)
    requires BindingConsistent(r)
    ensures HwidDisplay(r.hwid).Some? <==> r.used
  {
  }

  // ------------------------------------------------------ key-list parsing

  /** Every part with its surrounding whitespace trimmed. */
  function StripAll(parts: seq<string>): (r: seq<string>)
    ensures |r| == |parts|
    ensures forall i :: 0 <= i < |r| ==> r[i] == Strip(parts[i])
  {
    if parts == [] then [] else [Strip(parts[0])] + StripAll(parts[1..])
  }

  /** The non-empty parts, in their order. */
  function NonEmpty(parts: seq<string>): (r: seq<string>)
    ensures |r| <= |parts|
    ensures forall i :: 0 <= i < |r| ==> r[i] != []
    ensures forall x :: x in r <==> x in parts && x != []
  {
    if parts == [] then []
    else (if parts[0] == [] then [] else [parts[0]]) + NonEmpty(parts[1..])
  }

  lemma {:induction false} StripAllAppend(a: seq<string>, b: seq<string>)
    ensures StripAll(a + b) == StripAll(a) + StripAll(b)
  {
    if a != [] {
      assert (a + b)[1..] == a[1..] + b;
      StripAllAppend(a[1..], b);
      assert StripAll(a + b) == [Strip(a[0])] + StripAll(a[1..] + b);
    } else {
      assert a + b == b;
    }
  }

  lemma {:induction false} NonEmptyAppend(a: seq<string>, b: seq<string>)
    ensures NonEmpty(a + b) == NonEmpty(a) + NonEmpty(b)
  {
    if a != [] {
      assert (a + b)[1..] == a[1..] + b;
      NonEmptyAppend(a[1..], b);
      assert NonEmpty(a + b) == (if a[0] == [] then [] else [a[0]]) + NonEmpty(a[1..] + b);
    } else {
      assert a + b == b;
    }
  }

  /** Filtering out empty parts keeps a list that has none. */
  lemma {:induction false} NonEmptyKeepsAll(parts: seq<string>)
    requires forall i :: 0 <= i < |parts| ==> parts[i] != []
    ensures NonEmpty(parts) == parts
  {
    if parts != [] {
      NonEmptyKeepsAll(parts[1..]);
    }
  }

  /** The bulk-delete field as a key list: split on commas, trim each piece,
      drop the empty ones. */
  function ParseKeyList(text: string): (keys: seq<string>)
    ensures forall i :: 0 <= i < |keys| ==> keys[i] != [] && IsStripped(keys[i]) && ',' !in keys[i]
  {
    var parts := Split(text, ',');
    var keys := NonEmpty(StripAll(parts));
    forall i | 0 <= i < |keys|
      ensures IsStripped(keys[i]) && ',' !in keys[i]
    {
      assert keys[i] in StripAll(parts);
      var j :| 0 <= j < |parts| && StripAll(parts)[j] == keys[i];
      assert ',' !in parts[j];
    }
    keys
  }

  /** Parsing distributes over a comma: each comma-separated field is parsed alone. */
  lemma ParseAround(a: string, b: string)
    ensures ParseKeyList(a + [','] + b) == ParseKeyList(a) + ParseKeyList(b)
  {
    SplitAround(a, ',', b);
    StripAllAppend(Split(a, ','), Split(b, ','));
    NonEmptyAppend(StripAll(Split(a, ',')), StripAll(Split(b, ',')));
  }

  /** A key list written out with commas between the keys parses back to itself. */
  lemma ParseJoin(keys: seq<string>)
    requires forall i :: 0 <= i < |keys| ==> keys[i] != [] && IsStripped(keys[i]) && ',' !in keys[i]
    ensures ParseKeyList(Join(keys, ',')) == keys
  {
    if keys == [] {
      assert Strip([]) == [];
    } else {
      SplitJoin(keys, ',');
      forall i | 0 <= i < |keys| ensures StripAll(keys)[i] == keys[i] {
        StripStripped(keys[i]);
      }
      assert StripAll(keys) == keys;
      NonEmptyKeepsAll(keys);
    }
  }

  /** A comma-separated list of clean keys has no whitespace at either end. */
  lemma {:induction false} JoinStripped(keys: seq<string>)
    requires forall i :: 0 <= i < |keys| ==> keys[i] != [] && IsStripped(keys[i])
    ensures IsStripped(Join(keys, ','))
    ensures keys != [] ==> Join(keys, ',') != []
  {
    if |keys| > 1 {
      JoinStripped(keys[1..]);
      var rest := Join(keys[1..], ',');
      assert Join(keys, ',') == keys[0] + [','] + rest;
      assert Join(keys, ',')[0] == keys[0][0];
      assert Join(keys, ',')[|Join(keys, ',')| - 1] == rest[|rest| - 1];
    }
  }

  // ----------------------------------------------------------------- forms

  /** The bulk-delete form: refuse a blank field, parse the trimmed field,
      refuse an empty list, and send only when the user confirms. */
  function BulkDeleteRequest(text: string, confirmed: bool): (r: Option<seq<string>>)
    ensures r.Some? <==> confirmed && ParseKeyList(Strip(text)) != []
    ensures r.Some? ==> r.value == ParseKeyList(Strip(text))
  {
    var trimmed := Strip(text);
    if trimmed == [] then None
    else
      var keys := ParseKeyList(trimmed);
      if |keys| == 0 then None
      else if !confirmed then None
      else Some(keys)
  }

  /** A batch the dashboard sends is never refused as empty, is counted as
      typed, and reaches the server already trimmed. */
  lemma BulkDeleteAccepted(store: KeyRoutes.Store, text: string)
    requires BulkDeleteRequest(text, true).Some?
    ensures var keys := BulkDeleteRequest(text, true).value;
            && KeyRoutes.DeleteManyStep(store, keys).0.Deleted?
            && KeyRoutes.DeleteManyStep(store, keys).0.totalRequested == |keys|
            && forall i :: 0 <= i < |keys| ==> Strip(keys[i]) == keys[i]
  {
    var keys := BulkDeleteRequest(text, true).value;
    forall i | 0 <= i < |keys| ensures Strip(keys[i]) == keys[i] {
      StripStripped(keys[i]);
    }
  }

  /** Typing a list of clean keys separated by commas, and confirming, sends
      exactly that list. */
  lemma BulkDeleteSendsTypedKeys(keys: seq<string>)
    requires keys != []
    requires forall i :: 0 <= i < |keys| ==> keys[i] != [] && IsStripped(keys[i]) && ',' !in keys[i]
    ensures BulkDeleteRequest(Join(keys, ','), true) == Some(keys)
  {
    JoinStripped(keys);
    StripStripped(Join(keys, ','));
    ParseJoin(keys);
  }

  /** The create form: the duration must lie in [1, 365] and the trimmed
      creator name must not be empty; the request carries both. */
  function CreateRequest(days: int, createdByInput: string): (r: Option<(int, string)>)
    ensures r.Some? <==> KeyRoutes.MIN_DAYS <= days <= KeyRoutes.MAX_DAYS && Strip(createdByInput) != []
    ensures r.Some? ==> r.value.0 == days && r.value.1 == Strip(createdByInput)
  {
    var createdBy := Strip(createdByInput);
    if days < 1 || days > 365 then None
    else if createdBy == [] then None
    else Some((days, createdBy))
  }

  /** The server never refuses the duration of a request the form sends, and a
      key it creates records a non-empty, trimmed creator. */
  lemma CreateRequestAccepted(store: KeyRoutes.Store, days: int, createdByInput: string,
                              draws: seq<seq<nat>>, now: int)
    requires KeyRoutes.IsDrawSeries(draws)
    requires CreateRequest(days, createdByInput).Some?
    ensures var req := CreateRequest(days, createdByInput).value;
            var out := KeyRoutes.CreateStep(store, Some(req.0), Some(req.1), draws, now);
            && !out.0.InvalidDays?
            && (out.0.Created? ==>
                  var creator := out.1[out.0.keyValue].createdBy;
                  creator != [] && IsStripped(creator))
  {
  }
}
