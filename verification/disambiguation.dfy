/** `disambiguateSlot` (index.py:222-232) and the `requiredSlots` table
    (index.py:31-38): choosing a required slot whose resolution is ambiguous
    and the question that asks the user to pick one candidate. */
module Disambiguation {
  import opened Wrappers
  import opened Values
  import opened OrderedDicts
  import opened Slots

  /** `requiredSlots`: the six configured slot names, all required. */
  const RequiredSlots: map<string, bool> := map[
    "allergies" := true,
    "meal" := true,
    "cuisine" := true,
    "diet" := true,
    "deliveryOption" := true,
    "timeOfDay" := true
  ]

  /** The `{slotName, prompt}` dictionary; an empty dictionary is `None`. */
  datatype Choice = Choice(slotName: string, prompt: string)

  /** `sep.join(xs)`. */
  function Join(sep: string, xs: seq<string>): string {
    if xs == [] then ""
    else if |xs| == 1 then xs[0]
    else xs[0] + sep + Join(sep, xs[1..])
  }

  /** The clarifying question for a list of candidates. */
  function PromptFor(names: seq<string>): string {
    "Which one would you like " + Join(" or ", names) + "?"
  }

  /** `resolved` is a list with more than one element. */
  predicate Ambiguous(rec: SlotRecord) {
    rec.resolved.Names? && |rec.resolved.names| > 1
  }

  /** Entry `i` is ambiguous and its name is not a key of `required`, so the
      lookup `requiredSlots[key]` raises. */
  predicate LookupFailsAt(slots: Entries<SlotRecord>, required: map<string, bool>, i: nat)
    requires i < |slots|
  {
    Ambiguous(slots[i].1) && slots[i].0 !in required
  }

  /** Entry `i` passes all three tests of the condition. */
  predicate QualifiesAt(slots: Entries<SlotRecord>, required: map<string, bool>, i: nat)
    requires i < |slots|
  {
    Ambiguous(slots[i].1) && slots[i].0 in required && required[slots[i].0]
  }

  /** The choice entry `i` produces. */
  function ChoiceAt(slots: Entries<SlotRecord>, i: nat): Choice
    requires i < |slots|
    requires Ambiguous(slots[i].1)
  {
    Choice(slots[i].0, PromptFor(slots[i].1.resolved.names))
  }

  /** `disambiguateSlot(slots)` with the table `required`: the loop over the
      entries in iteration order, overwriting the result at every qualifying
      entry and never breaking. The table is looked up only after the list
      and length tests pass. */
  function DisambiguateSlot(slots: Entries<SlotRecord>, required: map<string, bool>): Result<Option<Choice>, Error>
    decreases |slots|
  {
    if slots == [] then Ok(None)
    else
      var (key, item) := slots[|slots| - 1];
      match DisambiguateSlot(slots[..|slots| - 1], required)
      case Err(e) => Err(e)
      case Ok(result) =>
        if !Ambiguous(item) then Ok(result)
        else if key !in required then Err(KeyError(Str(key)))
        else if required[key] then Ok(Some(Choice(key, PromptFor(item.resolved.names))))
        else Ok(result)
  }

  /** The call raises iff some ambiguous entry is missing from the table,
      and then with the KeyError of the first such entry, even when an
      earlier entry already qualified. */
  lemma {:induction false} DisambiguateSlotRaises(slots: Entries<SlotRecord>, required: map<string, bool>)
    ensures DisambiguateSlot(slots, required).Err? <==>
      exists i :: 0 <= i < |slots| && LookupFailsAt(slots, required, i)
    ensures forall i ::
      (0 <= i < |slots| && LookupFailsAt(slots, required, i) &&
       (forall j :: 0 <= j < i ==> !LookupFailsAt(slots, required, j)))
      ==> DisambiguateSlot(slots, required) == Err(KeyError(Str(slots[i].0)))
    decreases |slots|
  {
    if slots != [] {
      var n := |slots|;
      var front := slots[..n - 1];
      DisambiguateSlotRaises(front, required);
      assert forall i :: 0 <= i < n - 1 ==> LookupFailsAt(front, required, i) == LookupFailsAt(slots, required, i);
      match DisambiguateSlot(front, required)
      case Err(e) =>
        var i :| 0 <= i < n - 1 && LookupFailsAt(front, required, i);
        assert LookupFailsAt(slots, required, i);
      case Ok(r) =>
        assert forall i :: 0 <= i < n - 1 ==> !LookupFailsAt(slots, required, i);
        assert DisambiguateSlot(slots, required).Err? <==> LookupFailsAt(slots, required, n - 1);
    }
  }

  /** Without lookup failures, the result is the choice of the LAST
      qualifying entry: the loop overwrites earlier ones. */
  lemma {:induction false} DisambiguateSlotLastWins(slots: Entries<SlotRecord>, required: map<string, bool>, i: nat)
    requires forall j :: 0 <= j < |slots| ==> !LookupFailsAt(slots, required, j)
    requires i < |slots| && QualifiesAt(slots, required, i)
    requires forall j :: i < j < |slots| ==> !QualifiesAt(slots, required, j)
    ensures DisambiguateSlot(slots, required) == Ok(Some(ChoiceAt(slots, i)))
    decreases |slots|
  {
    var n := |slots|;
    var front := slots[..n - 1];
    DisambiguateSlotRaises(front, required);
    assert forall j :: 0 <= j < n - 1 ==> !LookupFailsAt(front, required, j) by {
      forall j | 0 <= j < n - 1
        ensures !LookupFailsAt(front, required, j)
      {
        assert !LookupFailsAt(slots, required, j);
      }
    }
    if i < n - 1 {
      assert QualifiesAt(front, required, i);
      assert forall j :: i < j < n - 1 ==> QualifiesAt(front, required, j) == QualifiesAt(slots, required, j);
      DisambiguateSlotLastWins(front, required, i);
      assert !QualifiesAt(slots, required, n - 1) && !LookupFailsAt(slots, required, n - 1);
    }
  }

  /** A choice is always the one of a qualifying entry that no later entry
      overrides. */
  lemma {:induction false} DisambiguateSlotChoice(slots: Entries<SlotRecord>, required: map<string, bool>)
    requires DisambiguateSlot(slots, required).Ok? && DisambiguateSlot(slots, required).value.Some?
    ensures exists i ::
      && 0 <= i < |slots| && QualifiesAt(slots, required, i)
      && DisambiguateSlot(slots, required).value.value == ChoiceAt(slots, i)
      && (forall j :: i < j < |slots| ==> !QualifiesAt(slots, required, j))
    decreases |slots|
  {
    var n := |slots|;
    var front := slots[..n - 1];
    if QualifiesAt(slots, required, n - 1) {
      assert DisambiguateSlot(slots, required).value.value == ChoiceAt(slots, n - 1);
    } else {
      assert DisambiguateSlot(slots, required) == DisambiguateSlot(front, required);
      DisambiguateSlotChoice(front, required);
      var i :| 0 <= i < n - 1 && QualifiesAt(front, required, i) &&
        DisambiguateSlot(front, required).value.value == ChoiceAt(front, i) &&
        forall j :: i < j < n - 1 ==> !QualifiesAt(front, required, j);
      assert QualifiesAt(slots, required, i);
      assert forall j :: i < j < n - 1 ==> QualifiesAt(front, required, j) == QualifiesAt(slots, required, j);
    }
  }

  /** Without lookup failures, the result is empty iff no entry is an
      ambiguous required slot. */
  lemma {:induction false} DisambiguateSlotEmpty(slots: Entries<SlotRecord>, required: map<string, bool>)
    requires forall j :: 0 <= j < |slots| ==> !LookupFailsAt(slots, required, j)
    ensures DisambiguateSlot(slots, required) == Ok(None) <==>
      forall i :: 0 <= i < |slots| ==> !QualifiesAt(slots, required, i)
    decreases |slots|
  {
    if slots != [] {
      var n := |slots|;
      var front := slots[..n - 1];
      assert forall j :: 0 <= j < n - 1 ==> !LookupFailsAt(front, required, j) by {
        forall j | 0 <= j < n - 1
          ensures !LookupFailsAt(front, required, j)
        {
          assert !LookupFailsAt(slots, required, j);
        }
      }
      DisambiguateSlotEmpty(front, required);
      DisambiguateSlotRaises(front, required);
      assert forall i :: 0 <= i < n - 1 ==> QualifiesAt(front, required, i) == QualifiesAt(slots, required, i);
      assert !LookupFailsAt(slots, required, n - 1);
      var r :| DisambiguateSlot(front, required) == Ok(r);
      if QualifiesAt(slots, required, n - 1) {
        assert DisambiguateSlot(slots, required).value.Some?;
      } else {
        assert DisambiguateSlot(slots, required) == Ok(r);
      }
    }
  }

  /** With the configured table, an entry qualifies iff it is ambiguous and
      named after one of the six slots; an ambiguous entry with any other
      name makes the lookup raise, an unambiguous one never does. */
  lemma ConfiguredTable(slots: Entries<SlotRecord>, i: nat)
    requires i < |slots|
    ensures QualifiesAt(slots, RequiredSlots, i) <==>
      Ambiguous(slots[i].1) && slots[i].0 in {"allergies", "meal", "cuisine", "diet", "deliveryOption", "timeOfDay"}
    ensures LookupFailsAt(slots, RequiredSlots, i) <==>
      Ambiguous(slots[i].1) && slots[i].0 !in {"allergies", "meal", "cuisine", "diet", "deliveryOption", "timeOfDay"}
  {
  }

  /** `b` occurs in `a` at offset `k`. */
  predicate InfixAt(b: string, a: string, k: int) {
    0 <= k <= |a| - |b| && a[k..k + |b|] == b
  }

  /** `b` occurs in `a` as a contiguous substring. */
  ghost predicate IsInfix(b: string, a: string) {
    exists k :: InfixAt(b, a, k)
  }

  /** An occurrence inside `y` is an occurrence inside `x + y`, shifted. */
  lemma InfixShift(b: string, x: string, y: string, k: int)
    requires InfixAt(b, y, k)
    ensures InfixAt(b, x + y, |x| + k)
  {
  }

  /** A prefix occurs at offset 0. */
  lemma InfixPrefix(b: string, y: string)
    ensures InfixAt(b, b + y, 0)
  {
  }

  /** Every candidate appears in the joined text. */
  lemma {:induction false} JoinContainsAll(sep: string, xs: seq<string>)
    ensures forall i :: 0 <= i < |xs| ==> IsInfix(xs[i], Join(sep, xs))
    decreases |xs|
  {
    if |xs| > 1 {
      JoinContainsAll(sep, xs[1..]);
      var rest := Join(sep, xs[1..]);
      var j := Join(sep, xs);
      assert j == xs[0] + (sep + rest);
      InfixPrefix(xs[0], sep + rest);
      forall i | 1 <= i < |xs|
        ensures IsInfix(xs[i], j)
      {
        assert xs[i] == xs[1..][i - 1];
        var k :| InfixAt(xs[i], rest, k);
        InfixShift(xs[i], xs[0] + sep, rest, k);
        assert xs[0] + sep + rest == j;
      }
    } else if |xs| == 1 {
      InfixPrefix(xs[0], "");
      assert xs[0] + "" == Join(sep, xs);
    }
  }

  /** The prompt names every candidate. */
  lemma PromptNamesAll(names: seq<string>)
    ensures forall i :: 0 <= i < |names| ==> IsInfix(names[i], PromptFor(names))
  {
    JoinContainsAll(" or ", names);
    var j := Join(" or ", names);
    forall i | 0 <= i < |names|
      ensures IsInfix(names[i], PromptFor(names))
    {
      var k :| InfixAt(names[i], j, k);
      InfixShift(names[i], "Which one would you like ", j + "?", k);
      assert InfixAt(names[i], j + "?", k) by {
        assert (j + "?")[k..k + |names[i]|] == j[k..k + |names[i]|];
      }
      InfixShift(names[i], "Which one would you like ", j + "?", k);
      assert "Which one would you like " + (j + "?") == PromptFor(names);
    }
  }

  /** An empty dictionary gives an empty result. */
  lemma EmptyInput(required: map<string, bool>)
    ensures DisambiguateSlot([], required) == Ok(None)
  {
  }

  /** Two exact-match candidates for the cuisine give the question naming both. */
  lemma CuisineExample()
    ensures DisambiguateSlot([("cuisine", SlotRecord(Some("italian or thai"), Names(["Italian", "Thai"]), true))], RequiredSlots)
      == Ok(Some(Choice("cuisine", "Which one would you like Italian or Thai?")))
  {
    var slots := [("cuisine", SlotRecord(Some("italian or thai"), Names(["Italian", "Thai"]), true))];
    assert slots[..0] == [];
    assert ["Italian", "Thai"][1..] == ["Thai"];
    assert PromptFor(["Italian", "Thai"]) == "Which one would you like Italian or Thai?";
  }
}
