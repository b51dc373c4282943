/** `getSlotValues` (index.py:186-220): the platform's filled slots turned
    into records `{synonym, resolved, is_validated}`, keyed by slot name. */
module Slots {
  import opened Wrappers
  import opened Values
  import opened OrderedDicts

  /** Entity-resolution status codes of the voice platform. */
  datatype StatusCode =
    | SuccessMatch     // ER_SUCCESS_MATCH
    | SuccessNoMatch   // ER_SUCCESS_NO_MATCH
    | ErrorTimeout     // ER_ERROR_TIMEOUT
    | ErrorException   // ER_ERROR_EXCEPTION

  /** One resolution authority: its status and the canonical names of the
      values it resolved to (`values[i].value.name`), or None when the
      platform sent no value list. */
  datatype Authority = Authority(status: StatusCode, values: Option<seq<string>>)

  /** A filled slot: its name, the raw spoken value (None when unfilled) and
      the resolutions per authority (None when entity resolution is absent). */
  datatype Slot = Slot(name: string, value: Option<string>, resolutions: Option<seq<Authority>>)

  /** The `resolved` field: either a scalar (the raw value, possibly None) or
      a Python list of canonical names. The empty list the no-match branch
      stores for an empty value is `Names([])`. */
  datatype Resolved = Raw(text: Option<string>) | Names(names: seq<string>)

  datatype SlotRecord = SlotRecord(synonym: Option<string>, resolved: Resolved, isValidated: bool)

  /** What one loop iteration does with a slot. */
  datatype Extraction =
    | Record(rec: SlotRecord)   // slot_values[name] = rec
    | Skipped                   // the `pass` branch
    | Raised(error: Error)      // the iteration raises

  /** Python truthiness of the raw slot value (None and "" are false). */
  predicate ValueTruthy(value: Option<string>) {
    value.Some? && |value.value| > 0
  }

  /** The body of the loop for one slot. Only the first authority is read;
      an empty authority list raises IndexError, and a match without a value
      list raises TypeError when it is iterated (the `!= 'None'` guard
      compares with a string and never fails). */
  function ExtractSlot(s: Slot): Extraction {
    match s.resolutions
    case None => Record(SlotRecord(s.value, Raw(s.value), false))
    case Some(authorities) =>
      if authorities == [] then Raised(IndexError)
      else
        var first := authorities[0];
        match first.status
        case SuccessMatch =>
          (match first.values
           case None => Raised(TypeError)
           case Some(names) => Record(SlotRecord(s.value, Names(names), true)))
        case SuccessNoMatch =>
          Record(SlotRecord(s.value, if ValueTruthy(s.value) then Raw(s.value) else Names([]), false))
        case _ => Skipped
  }

  /** One iteration of the loop over the result so far. */
  function Store(acc: Result<Entries<SlotRecord>, Error>, slot: Slot): Result<Entries<SlotRecord>, Error> {
    match acc
    case Err(e) => Err(e)
    case Ok(d) =>
      match ExtractSlot(slot)
      case Record(rec) => Ok(Put(d, slot.name, rec))
      case Skipped => Ok(d)
      case Raised(e) => Err(e)
  }

  /** `getSlotValues(filled_slots)`: the loop over the slots in iteration
      order, storing each record under the slot's own name. The input keys
      are ignored. */
  function GetSlotValues(filled: Entries<Slot>): (r: Result<Entries<SlotRecord>, Error>)
    ensures r.Ok? ==> UniqueKeys(r.value)
    decreases |filled|
  {
    if filled == [] then Ok([])
    else Store(GetSlotValues(filled[..|filled| - 1]), filled[|filled| - 1].1)
  }

  /** The first resolution authority of a slot, when it has one. */
  function FirstAuthority(s: Slot): Option<Authority> {
    if s.resolutions.Some? && s.resolutions.value != [] then Some(s.resolutions.value[0]) else None
  }

  /** Slot `i` makes the loop raise. */
  predicate RaisesAt(filled: Entries<Slot>, i: nat)
    requires i < |filled|
  {
    ExtractSlot(filled[i].1).Raised?
  }

  /** Slot `i` is written into the result. */
  predicate StoresAt(filled: Entries<Slot>, i: nat)
    requires i < |filled|
  {
    ExtractSlot(filled[i].1).Record?
  }

  /** No later slot overwrites the entry slot `i` stored. */
  predicate LastWriter(filled: Entries<Slot>, i: nat)
    requires i < |filled|
  {
    forall j :: i < j < |filled| && StoresAt(filled, j) ==> filled[j].1.name != filled[i].1.name
  }

  /** Some slot named `k` had an exact match in its first authority, with
      the canonical names `names`. */
  predicate MatchedBy(filled: Entries<Slot>, k: string, names: seq<string>) {
    exists i :: 0 <= i < |filled| && filled[i].1.name == k &&
      FirstAuthority(filled[i].1) == Some(Authority(SuccessMatch, Some(names)))
  }

  /** Lists in `resolved` come from entity resolution: a validated entry
      holds the canonical names of an exact match of a slot of that name,
      and an unvalidated entry holds a list only as the empty `[]`. */
  predicate WellResolved(filled: Entries<Slot>, p: (string, SlotRecord)) {
    && (p.1.isValidated ==> p.1.resolved.Names? && MatchedBy(filled, p.0, p.1.resolved.names))
    && (!p.1.isValidated && p.1.resolved.Names? ==> p.1.resolved.names == [])
  }

  /** The call raises iff some slot raises, and then with the error of the
      first such slot. */
  lemma {:induction false} GetSlotValuesRaises(filled: Entries<Slot>)
    ensures GetSlotValues(filled).Err? <==> exists i :: 0 <= i < |filled| && RaisesAt(filled, i)
    ensures forall i ::
      (0 <= i < |filled| && RaisesAt(filled, i) && (forall j :: 0 <= j < i ==> !RaisesAt(filled, j)))
      ==> GetSlotValues(filled) == Err(ExtractSlot(filled[i].1).error)
    decreases |filled|
  {
    if filled != [] {
      var n := |filled|;
      var front := filled[..n - 1];
      GetSlotValuesRaises(front);
      assert forall i :: 0 <= i < n - 1 ==> RaisesAt(front, i) == RaisesAt(filled, i);
      match GetSlotValues(front)
      case Err(e) =>
        assert GetSlotValues(filled) == Err(e);
        var i :| 0 <= i < n - 1 && RaisesAt(front, i);
        assert RaisesAt(filled, i);
      case Ok(d0) =>
        assert forall i :: 0 <= i < n - 1 ==> !RaisesAt(filled, i);
        assert GetSlotValues(filled) == Store(Ok(d0), filled[n - 1].1);
        assert GetSlotValues(filled).Err? <==> RaisesAt(filled, n - 1);
    }
  }

  /** The result's keys are exactly the names of the slots that were stored:
      slots whose first authority reports another status leave no entry. */
  lemma {:induction false} GetSlotValuesKeys(filled: Entries<Slot>)
    requires GetSlotValues(filled).Ok?
    ensures forall k :: k in Keys(GetSlotValues(filled).value) <==>
      exists i :: 0 <= i < |filled| && StoresAt(filled, i) && filled[i].1.name == k
    decreases |filled|
  {
    if filled != [] {
      var n := |filled|;
      var front := filled[..n - 1];
      var last := filled[n - 1].1;
      GetSlotValuesKeys(front);
      var d0 := GetSlotValues(front).value;
      var d := GetSlotValues(filled).value;
      assert forall i :: 0 <= i < n - 1 ==> StoresAt(front, i) == StoresAt(filled, i);
      if StoresAt(filled, n - 1) {
        assert d == Put(d0, last.name, ExtractSlot(last).rec);
        assert forall k :: k in Keys(d) <==> k in Keys(d0) || k == last.name;
      } else {
        assert d == d0;
      }
      forall k | k in Keys(d0)
        ensures exists i :: 0 <= i < n && StoresAt(filled, i) && filled[i].1.name == k
      {
        var i :| 0 <= i < n - 1 && StoresAt(front, i) && front[i].1.name == k;
        assert StoresAt(filled, i) && filled[i].1.name == k;
      }
    }
  }

  /** Slot `i` is stored and no earlier slot of the same name was: it is the
      slot that gives its name a place in the result. */
  predicate FirstStoreAt(filled: Entries<Slot>, i: nat)
    requires i < |filled|
  {
    StoresAt(filled, i) &&
    forall j :: 0 <= j < i && StoresAt(filled, j) ==> filled[j].1.name != filled[i].1.name
  }

  /** The names of the first-storing slots, in input order. */
  function StoredNames(filled: Entries<Slot>): seq<string>
    decreases |filled|
  {
    if filled == [] then []
    else
      var n := |filled|;
      StoredNames(filled[..n - 1]) + (if FirstStoreAt(filled, n - 1) then [filled[n - 1].1.name] else [])
  }

  /** The result iterates its keys in the order in which their names were
      first stored: overwriting an entry later keeps its position. */
  lemma {:induction false} GetSlotValuesKeyOrder(filled: Entries<Slot>)
    requires GetSlotValues(filled).Ok?
    ensures Keys(GetSlotValues(filled).value) == StoredNames(filled)
    decreases |filled|
  {
    if filled != [] {
      var n := |filled|;
      var front := filled[..n - 1];
      var last := filled[n - 1].1;
      GetSlotValuesRaises(filled);
      GetSlotValuesRaises(front);
      assert forall i :: 0 <= i < n - 1 ==> RaisesAt(front, i) == RaisesAt(filled, i);
      GetSlotValuesKeyOrder(front);
      var d0 := GetSlotValues(front).value;
      if StoresAt(filled, n - 1) {
        GetSlotValuesKeys(front);
        assert forall j :: 0 <= j < n - 1 ==> StoresAt(front, j) == StoresAt(filled, j);
        assert last.name in Keys(d0) <==> !FirstStoreAt(filled, n - 1);
        assert GetSlotValues(filled).value == Put(d0, last.name, ExtractSlot(last).rec);
      } else {
        assert GetSlotValues(filled).value == d0;
      }
    }
  }

  /** Taking fewer slots gives a prefix of the stored names. */
  lemma {:induction false} StoredNamesPrefix(filled: Entries<Slot>, m: nat)
    requires m <= |filled|
    ensures StoredNames(filled[..m]) <= StoredNames(filled)
    decreases |filled|
  {
    if m < |filled| {
      var front := filled[..|filled| - 1];
      assert front[..m] == filled[..m];
      StoredNamesPrefix(front, m);
    } else {
      assert filled[..m] == filled;
    }
  }

  /** A first-storing slot's name follows the names stored before it. */
  lemma StoredNamesStep(filled: Entries<Slot>, i: nat)
    requires i < |filled| && FirstStoreAt(filled, i)
    ensures StoredNames(filled[..i + 1]) == StoredNames(filled[..i]) + [filled[i].1.name]
  {
    var p := filled[..i + 1];
    assert p[..i] == filled[..i];
    assert FirstStoreAt(p, i) by {
      forall j | 0 <= j < i && StoresAt(p, j)
        ensures p[j].1.name != p[i].1.name
      {
        assert StoresAt(filled, j);
      }
    }
  }

  /** Of two slots that each store a name first, the earlier slot's name
      comes first in the result, however often either name is overwritten
      later. With distinct slot names, the keys are the stored slots' names
      in input order. */
  lemma GetSlotValuesOrder(filled: Entries<Slot>, i: nat, j: nat)
    requires GetSlotValues(filled).Ok?
    requires i < j < |filled| && FirstStoreAt(filled, i) && FirstStoreAt(filled, j)
    ensures var ks := Keys(GetSlotValues(filled).value);
      exists a, b :: 0 <= a < b < |ks| && ks[a] == filled[i].1.name && ks[b] == filled[j].1.name
  {
    var ks := Keys(GetSlotValues(filled).value);
    GetSlotValuesKeyOrder(filled);
    StoredNamesStep(filled, i);
    StoredNamesStep(filled, j);
    StoredNamesPrefix(filled[..j], i + 1);
    assert filled[..j][..i + 1] == filled[..i + 1];
    StoredNamesPrefix(filled, j + 1);
    var a := |StoredNames(filled[..i])|;
    var b := |StoredNames(filled[..j])|;
    assert StoredNames(filled[..i + 1]) <= StoredNames(filled[..j]);
    assert ks[a] == filled[i].1.name;
    assert ks[b] == filled[j].1.name;
  }

  /** The entry for a slot's name is that slot's record, when no later slot
      of the same name overwrites it. */
  lemma {:induction false} GetSlotValuesLastWins(filled: Entries<Slot>, i: nat)
    requires GetSlotValues(filled).Ok?
    requires i < |filled| && StoresAt(filled, i) && LastWriter(filled, i)
    ensures Get(GetSlotValues(filled).value, filled[i].1.name) == Some(ExtractSlot(filled[i].1).rec)
    decreases |filled|
  {
    var n := |filled|;
    var front := filled[..n - 1];
    if i < n - 1 {
      assert StoresAt(front, i);
      assert LastWriter(front, i) by {
        forall j | i < j < |front| && StoresAt(front, j)
          ensures front[j].1.name != front[i].1.name
        {
          assert StoresAt(filled, j);
        }
      }
      GetSlotValuesLastWins(front, i);
    }
  }

  /** What the result holds for a slot that is not overwritten later:
      without resolutions, the raw value as both synonym and resolved value,
      unvalidated; on an exact match of the first authority, the list of its
      canonical names, validated; on no match, the raw value or `[]` when the
      value is empty, unvalidated. */
  lemma {:induction false} StoredRecord(filled: Entries<Slot>, i: nat)
    requires GetSlotValues(filled).Ok?
    requires i < |filled| && LastWriter(filled, i)
    ensures var s := filled[i].1;
      var got := Get(GetSlotValues(filled).value, s.name);
      && (s.resolutions.None? ==> got == Some(SlotRecord(s.value, Raw(s.value), false)))
      && (FirstAuthority(s).Some? && FirstAuthority(s).value.status == SuccessMatch ==>
            FirstAuthority(s).value.values.Some? &&
            got == Some(SlotRecord(s.value, Names(FirstAuthority(s).value.values.value), true)))
      && (FirstAuthority(s).Some? && FirstAuthority(s).value.status == SuccessNoMatch ==>
            got == Some(SlotRecord(s.value, if ValueTruthy(s.value) then Raw(s.value) else Names([]), false)))
  {
    GetSlotValuesRaises(filled);
    if StoresAt(filled, i) {
      GetSlotValuesLastWins(filled, i);
    }
  }

  /** Only the first authority is consulted: slots that agree on name,
      value, presence of entity resolution and first authority give the same
      result, whatever the later authorities and the input keys are. */
  lemma {:induction false} LaterAuthoritiesIgnored(f1: Entries<Slot>, f2: Entries<Slot>)
    requires |f1| == |f2|
    requires forall i :: 0 <= i < |f1| ==>
      && f1[i].1.name == f2[i].1.name
      && f1[i].1.value == f2[i].1.value
      && f1[i].1.resolutions.None? == f2[i].1.resolutions.None?
      && FirstAuthority(f1[i].1) == FirstAuthority(f2[i].1)
    ensures GetSlotValues(f1) == GetSlotValues(f2)
    decreases |f1|
  {
    if f1 != [] {
      var n := |f1|;
      LaterAuthoritiesIgnored(f1[..n - 1], f2[..n - 1]);
      assert ExtractSlot(f1[n - 1].1) == ExtractSlot(f2[n - 1].1);
    }
  }

  /** Every entry of the result is well resolved. */
  lemma {:induction false} ResolvedListsAreMatches(filled: Entries<Slot>)
    requires GetSlotValues(filled).Ok?
    ensures AllWellResolved(filled, GetSlotValues(filled).value)
    decreases |filled|
  {
    if filled != [] {
      var n := |filled|;
      var front := filled[..n - 1];
      ResolvedListsAreMatches(front);
      var d0 := GetSlotValues(front).value;
      var d := GetSlotValues(filled).value;
      assert Store(Ok(d0), filled[n - 1].1) == Ok(d);
      forall j | 0 <= j < |d|
        ensures WellResolved(filled, d[j])
      {
        StoreWellResolved(filled, d0, d, j);
      }
    }
  }

  /** Every entry of `d` is well resolved with respect to `filled`. */
  predicate AllWellResolved(filled: Entries<Slot>, d: Entries<SlotRecord>) {
    forall j :: 0 <= j < |d| ==> WellResolved(filled, d[j])
  }

  /** The inductive step: one more iteration keeps every entry well resolved. */
  lemma StoreWellResolved(filled: Entries<Slot>, d0: Entries<SlotRecord>, d: Entries<SlotRecord>, j: nat)
    requires filled != []
    requires AllWellResolved(filled[..|filled| - 1], d0)
    requires Store(Ok(d0), filled[|filled| - 1].1) == Ok(d)
    requires j < |d|
    ensures WellResolved(filled, d[j])
  {
    var n := |filled|;
    var last := filled[n - 1].1;
    match ExtractSlot(last)
    case Record(rec) =>
      assert d == Put(d0, last.name, rec);
      if d[j] == (last.name, rec) {
        NewEntryWellResolved(filled, rec);
      } else {
        InheritedWellResolved(filled, d0, d[j]);
      }
    case Skipped =>
      InheritedWellResolved(filled, d0, d[j]);
    case Raised(_) =>
  }

  /** The entry the last slot stores is well resolved. */
  lemma NewEntryWellResolved(filled: Entries<Slot>, rec: SlotRecord)
    requires filled != []
    requires ExtractSlot(filled[|filled| - 1].1) == Record(rec)
    ensures WellResolved(filled, (filled[|filled| - 1].1.name, rec))
  {
  }

  /** An entry carried over from the previous iteration stays well resolved. */
  lemma InheritedWellResolved(filled: Entries<Slot>, d0: Entries<SlotRecord>, p: (string, SlotRecord))
    requires filled != []
    requires AllWellResolved(filled[..|filled| - 1], d0)
    requires p in d0
    ensures WellResolved(filled, p)
  {
  }

  /** A no-match slot spoken as "spicy" keeps its raw value, unvalidated,
      under the slot's own name rather than the input key. */
  lemma SpicyNoMatchExample()
    ensures GetSlotValues([("flavour", Slot("flavor", Some("spicy"), Some([Authority(SuccessNoMatch, None)])))])
      == Ok([("flavor", SlotRecord(Some("spicy"), Raw(Some("spicy")), false))])
  {
  }
}
