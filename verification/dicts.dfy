/** `keysExists` (index.py:169-184): existence of a nested key path in a
    dictionary, raising on a non-dict argument or an empty path. */
module Dicts {
  import opened Wrappers
  import opened Values

  const NotADictMessage := "keysExists() expects dict as first argument."
  const NoKeysMessage := "keysExists() expects at least two arguments, one given."

  /** Where a walk `element[k0][k1]...` ends. */
  datatype Walk =
    | Reached(v: Value)   // every subscript succeeded
    | Missing             // some dict lacked its key (KeyError, caught)
    | NotSubscriptable    // some value on the way was not a dict (TypeError, not caught)

  /** One subscript `d[key]` with a string key. */
  function Step(d: Value, key: string): Walk {
    match d
    case Dict(m) => if key in m then Reached(m[key]) else Missing
    case _ => NotSubscriptable
  }

  /** The walk along `keys`, defined on the path's prefixes in the order the
      loop visits them. */
  function Follow(v: Value, keys: seq<string>): Walk
    decreases |keys|
  {
    if keys == [] then Reached(v)
    else
      match Follow(v, keys[..|keys| - 1])
      case Reached(d) => Step(d, keys[|keys| - 1])
      case stopped => stopped
  }

  /** `keysExists(element, *keys)`. */
  function KeysExists(element: Value, keys: seq<string>): Result<bool, Error> {
    if !element.Dict? then Err(AttributeError(NotADictMessage))
    else if keys == [] then Err(AttributeError(NoKeysMessage))
    else
      match Follow(element, keys)
      case Reached(_) => Ok(true)
      case Missing => Ok(false)
      case NotSubscriptable => Err(TypeError)
  }

  /** The `i`-th key is found: the walk along the keys before it reached a
      dict that holds it. */
  predicate KeyFoundAt(v: Value, keys: seq<string>, i: nat)
    requires i < |keys|
  {
    var w := Follow(v, keys[..i]);
    w.Reached? && w.v.Dict? && keys[i] in w.v.fields
  }

  /** The walk reached a dict at position `i` that lacks the `i`-th key. */
  predicate KeyMissingAt(v: Value, keys: seq<string>, i: nat)
    requires i < |keys|
  {
    var w := Follow(v, keys[..i]);
    w.Reached? && w.v.Dict? && keys[i] !in w.v.fields
  }

  /** The walk reached a value at position `i` that is not a dict. */
  predicate NotDictAt(v: Value, keys: seq<string>, i: nat)
    requires i < |keys|
  {
    var w := Follow(v, keys[..i]);
    w.Reached? && !w.v.Dict?
  }

  /** Following one more key is one more step. */
  lemma FollowSnoc(v: Value, keys: seq<string>, i: nat)
    requires i < |keys|
    ensures Follow(v, keys[..i + 1]) ==
      match Follow(v, keys[..i])
      case Reached(d) => Step(d, keys[i])
      case stopped => stopped
  {
    assert keys[..i + 1][..i] == keys[..i];
  }

  /** Once a walk has stopped, no further key changes its outcome. */
  lemma {:induction false} StoppedStaysStopped(v: Value, keys: seq<string>, i: nat)
    requires i <= |keys|
    requires !Follow(v, keys[..i]).Reached?
    ensures Follow(v, keys) == Follow(v, keys[..i])
    decreases |keys| - i
  {
    if i < |keys| {
      FollowSnoc(v, keys, i);
      StoppedStaysStopped(v, keys, i + 1);
    } else {
      assert keys[..i] == keys;
    }
  }

  /** A completed walk passed through every prefix, and found each key. */
  lemma {:induction false} ReachedThroughPrefixes(v: Value, keys: seq<string>)
    requires Follow(v, keys).Reached?
    ensures forall i :: 0 <= i < |keys| ==> KeyFoundAt(v, keys, i)
  {
    forall i | 0 <= i < |keys|
      ensures KeyFoundAt(v, keys, i)
    {
      if !Follow(v, keys[..i]).Reached? {
        StoppedStaysStopped(v, keys, i);
      }
      FollowSnoc(v, keys, i);
      if !Follow(v, keys[..i + 1]).Reached? {
        StoppedStaysStopped(v, keys, i + 1);
      }
    }
  }

  /** Finding every key completes the walk. */
  lemma {:induction false} FoundEverywhereReaches(v: Value, keys: seq<string>, n: nat)
    requires n <= |keys|
    requires forall i :: 0 <= i < n ==> KeyFoundAt(v, keys, i)
    ensures Follow(v, keys[..n]).Reached?
  {
    if n == 0 {
      assert keys[..0] == [];
    } else {
      FoundEverywhereReaches(v, keys, n - 1);
      assert KeyFoundAt(v, keys, n - 1);
      FollowSnoc(v, keys, n - 1);
    }
  }

  /** A stopped walk stopped at exactly one position: every earlier key was
      found and the walk reached that position. */
  lemma {:induction false} StopPosition(v: Value, keys: seq<string>) returns (d: nat)
    requires !Follow(v, keys).Reached?
    ensures d < |keys|
    ensures Follow(v, keys[..d]).Reached?
    ensures Follow(v, keys[..d + 1]) == Follow(v, keys)
    decreases |keys|
  {
    var n := |keys|;
    assert n > 0;
    var front := keys[..n - 1];
    FollowSnoc(v, keys, n - 1);
    assert keys[..n] == keys;
    if Follow(v, front).Reached? {
      d := n - 1;
    } else {
      d := StopPosition(v, front);
      assert front[..d] == keys[..d];
      assert front[..d + 1] == keys[..d + 1];
    }
  }

  /** The contract of `keysExists`: an AttributeError for a non-dict element
      or an empty path; otherwise true iff every successive lookup succeeds,
      false iff some lookup misses after all earlier ones succeeded (the
      first missing key), and a TypeError iff the walk meets a non-dict
      first. */
  lemma KeysExistsContract(element: Value, keys: seq<string>)
    ensures !element.Dict? ==> KeysExists(element, keys) == Err(AttributeError(NotADictMessage))
    ensures element.Dict? && keys == [] ==> KeysExists(element, keys) == Err(AttributeError(NoKeysMessage))
    ensures element.Dict? && keys != [] ==>
      (KeysExists(element, keys) == Ok(true) <==>
        forall i :: 0 <= i < |keys| ==> KeyFoundAt(element, keys, i))
    ensures element.Dict? && keys != [] ==>
      (KeysExists(element, keys) == Ok(false) <==>
        exists d :: 0 <= d < |keys| && KeyMissingAt(element, keys, d) &&
          forall i :: 0 <= i < d ==> KeyFoundAt(element, keys, i))
    ensures element.Dict? && keys != [] ==>
      (KeysExists(element, keys) == Err(TypeError) <==>
        exists d :: 0 <= d < |keys| && NotDictAt(element, keys, d) &&
          forall i :: 0 <= i < d ==> KeyFoundAt(element, keys, i))
  {
    if element.Dict? && keys != [] {
      if Follow(element, keys).Reached? {
        ReachedThroughPrefixes(element, keys);
        forall d | 0 <= d < |keys|
          ensures !KeyMissingAt(element, keys, d) && !NotDictAt(element, keys, d)
        {
          assert KeyFoundAt(element, keys, d);
        }
      } else {
        var d := StopPosition(element, keys);
        FollowSnoc(element, keys, d);
        ReachedPrefixFound(element, keys, d);
        assert !KeyFoundAt(element, keys, d);
        assert Follow(element, keys) == Missing <==> KeyMissingAt(element, keys, d);
        assert Follow(element, keys) == NotSubscriptable <==> NotDictAt(element, keys, d);
        forall e | 0 <= e < |keys| && e != d
          ensures !KeyMissingAt(element, keys, e) && !NotDictAt(element, keys, e)
        {
          if e < d {
            assert KeyFoundAt(element, keys, e);
          } else {
            assert keys[..e][..d + 1] == keys[..d + 1];
            StoppedStaysStopped(element, keys[..e], d + 1);
          }
        }
      }
    }
  }

  /** A walk that reached position `d` found every key before it. */
  lemma ReachedPrefixFound(v: Value, keys: seq<string>, d: nat)
    requires d <= |keys|
    requires Follow(v, keys[..d]).Reached?
    ensures forall i :: 0 <= i < d ==> KeyFoundAt(v, keys, i)
  {
    ReachedThroughPrefixes(v, keys[..d]);
    forall i | 0 <= i < d
      ensures KeyFoundAt(v, keys, i)
    {
      assert keys[..d][..i] == keys[..i];
      assert KeyFoundAt(v, keys[..d], i);
    }
  }

  /** If a path exists, so does every non-empty prefix of it; in particular
      the `permissions` test before the `consentToken` test (index.py:59-60)
      never changes the outcome on a dict. */
  lemma KeysExistsPrefix(element: Value, keys: seq<string>, n: nat)
    requires 0 < n <= |keys|
    requires KeysExists(element, keys) == Ok(true)
    ensures KeysExists(element, keys[..n]) == Ok(true)
  {
    ReachedThroughPrefixes(element, keys);
    FoundEverywhereReaches(element, keys, n);
  }
}
