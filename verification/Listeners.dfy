/** Range scans over keys in byte order: the listeners whose prefix a changed key has, and the entries under a
    prefix. */
module Listeners {
  import opened Types

  // ---------- the order of keys ----------

  /** Strings are compared byte by byte, a proper prefix first. */
  predicate Leq(a: Text, b: Text) {
    if a == [] then true
    else if b == [] then false
    else a[0] < b[0] || (a[0] == b[0] && Leq(a[1..], b[1..]))
  }

  /** At their first difference a has the smaller byte. */
  predicate SmallerAt(a: Text, b: Text, i: nat) {
    i < |a| && i < |b| && a[..i] == b[..i] && a[i] < b[i]
  }

  lemma SmallerLater(a: Text, b: Text, i: nat)
    requires a != [] && b != [] && a[0] == b[0]
    ensures SmallerAt(a[1..], b[1..], i) ==> SmallerAt(a, b, i + 1)
    ensures i > 0 && SmallerAt(a, b, i) ==> SmallerAt(a[1..], b[1..], i - 1)
  {
    if SmallerAt(a[1..], b[1..], i) {
      assert a[..i + 1] == [a[0]] + a[1..][..i] && b[..i + 1] == [b[0]] + b[1..][..i];
    }
    if i > 0 && SmallerAt(a, b, i) {
      assert a[1..][..i - 1] == a[..i][1..] && b[1..][..i - 1] == b[..i][1..];
    }
  }

  /** The order of keys: a prefix first, otherwise by the first difference. */
  lemma {:induction false} LeqExactly(a: Text, b: Text)
    ensures Leq(a, b) <==> a <= b || exists i: nat :: SmallerAt(a, b, i)
  {
    if a != [] && b != [] && a[0] == b[0] {
      var x, y := a[1..], b[1..];
      LeqExactly(x, y);
      assert a <= b <==> x <= y;
      hide SmallerAt;
      if i: nat :| SmallerAt(x, y, i) {
        SmallerLater(a, b, i);
      }
      if i: nat :| SmallerAt(a, b, i) {
        SmallerLater(a, b, i);
        assert i > 0 by {
          NotAtOnce(a, b);
        }
      }
    } else {
      AtOnce(a, b);
    }
  }

  lemma NotAtOnce(a: Text, b: Text)
    requires a != [] && b != [] && a[0] == b[0]
    ensures !SmallerAt(a, b, 0)
  {
  }

  lemma AtOnce(a: Text, b: Text)
    requires a == [] || b == [] || a[0] != b[0]
    ensures Leq(a, b) <==> a <= b || exists i: nat :: SmallerAt(a, b, i)
  {
    if a != [] && b != [] && a[0] < b[0] {
      assert SmallerAt(a, b, 0);
    }
    if i: nat :| SmallerAt(a, b, i) {
      HeadsAgree(a, b, i);
    }
  }

  lemma HeadsAgree(a: Text, b: Text, i: nat)
    requires SmallerAt(a, b, i)
    ensures i > 0 ==> a[0] == b[0]
  {
    assert i > 0 ==> a[..i][0] == b[..i][0];
  }

  lemma {:induction false} LeqIsTotal(a: Text, b: Text)
    ensures Leq(a, b) || Leq(b, a)
    ensures Leq(a, b) && Leq(b, a) ==> a == b
  {
    if a != [] && b != [] && a[0] == b[0] {
      LeqIsTotal(a[1..], b[1..]);
      assert a == [a[0]] + a[1..] && b == [b[0]] + b[1..];
    }
  }

  lemma {:induction false} LeqIsTransitive(a: Text, b: Text, c: Text)
    requires Leq(a, b) && Leq(b, c)
    ensures Leq(a, c)
  {
    if a != [] && a[0] == c[0] {
      LeqIsTransitive(a[1..], b[1..], c[1..]);
    }
  }

  /** A prefix does not come after what it is a prefix of. */
  lemma {:induction false} PrefixesComeFirst(prefix: Text, key: Text)
    requires prefix <= key
    ensures Leq(prefix, key)
  {
    if prefix != [] {
      PrefixesComeFirst(prefix[1..], key[1..]);
    }
  }

  /** Between a prefix and a key that has it there are only keys that have it. */
  lemma {:induction false} PrefixedKeysAreContiguous(prefix: Text, between: Text, key: Text)
    requires prefix <= key && Leq(prefix, between) && Leq(between, key)
    ensures prefix <= between
  {
    if prefix != [] {
      PrefixedKeysAreContiguous(prefix[1..], between[1..], key[1..]);
    }
  }

  lemma PrefixesOfOneKey(a: Text, b: Text, key: Text)
    requires a <= key && b <= key && Leq(a, b)
    ensures |a| <= |b| && (|a| == |b| ==> a == b)
  {
    if |b| <= |a| {
      assert b == key[..|b|] == a[..|b|];
      PrefixesComeFirst(b, a);
      LeqIsTotal(a, b);
    }
  }

  predicate Least(keys: set<Text>, k: Text) {
    k in keys && forall other | other in keys :: Leq(k, other)
  }

  lemma {:induction false} LeastExists(keys: set<Text>) returns (least: Text)
    requires keys != {}
    ensures Least(keys, least)
    decreases |keys|
  {
    var k :| k in keys;
    if keys == {k} {
      LeqIsTotal(k, k);
      return k;
    }
    var rest := keys - {k};
    assert keys == rest + {k};
    least := LeastExists(rest);
    LeqIsTotal(least, k);
    if !Leq(least, k) {
      forall other | other in keys ensures Leq(k, other) {
        if other in rest {
          LeqIsTransitive(k, least, other);
        } else {
          LeqIsTotal(k, k);
        }
      }
      least := k;
    }
  }

  // ---------- listeners ----------

  /** A callback: who is called, subscribed to which prefix, with the key stripped of it. */
  datatype Call = Call(prefix: Text, idx: nat, strippedKey: Text)

  /** The calls for the prefixes in `done`: each listener whose prefix the key has, once, shorter prefixes first. */
  ghost predicate Dispatched(listeners: map<Text, set<nat>>, key: Text, done: set<Text>, calls: seq<Call>) {
    && (forall c :: c in calls <==>
          && c.prefix in done && c.prefix in listeners && c.idx in listeners[c.prefix]
          && c.prefix <= key && c.strippedKey == key[|c.prefix|..])
    && (forall i, j | 0 <= i < j < |calls| :: calls[i] != calls[j])
    && (forall i, j | 0 <= i < j < |calls| :: |calls[i].prefix| <= |calls[j].prefix|)
  }

  /** What the change of `key` must call. */
  ghost predicate IsDispatch(listeners: map<Text, set<nat>>, key: Text, calls: seq<Call>) {
    Dispatched(listeners, key, listeners.Keys, calls)
  }

  /** The calls of all listeners of one prefix. */
  ghost predicate CallsAll(prefix: Text, ids: set<nat>, key: Text, calls: seq<Call>)
    requires prefix <= key
  {
    && (forall c :: c in calls <==> c.prefix == prefix && c.idx in ids && c.strippedKey == key[|prefix|..])
    && (forall i, j | 0 <= i < j < |calls| :: calls[i] != calls[j])
  }

  method CallAll(prefix: Text, ids: set<nat>, key: Text) returns (calls: seq<Call>)
    requires prefix <= key
    ensures CallsAll(prefix, ids, key, calls)
  {
    calls := [];
    var todo := ids;
    while todo != {}
      invariant todo <= ids && CallsAll(prefix, ids - todo, key, calls)
      decreases todo
    {
      var idx :| idx in todo;
      todo := todo - {idx};
      calls := calls + [Call(prefix, idx, key[|prefix|..])];
    }
    assert ids - {} == ids;
  }

  lemma MoreDispatched(listeners: map<Text, set<nat>>, key: Text, done: set<Text>, calls: seq<Call>, p: Text, more: seq<Call>)
    requires Dispatched(listeners, key, done, calls) && p in listeners && p !in done
    requires forall q | q in done && q <= key :: Leq(q, p)
    requires if p <= key then CallsAll(p, listeners[p], key, more) else more == []
    ensures Dispatched(listeners, key, done + {p}, calls + more)
  {
    var all := calls + more;
    assert forall c :: c in all <==> c in calls || c in more;
    forall i, j | 0 <= i < j < |all| ensures all[i] != all[j] && |all[i].prefix| <= |all[j].prefix| {
      assert i < |calls| ==> all[i] in calls;
      assert j >= |calls| ==> all[j] in more && (i >= |calls| ==> all[i] in more);
      if i < |calls| <= j {
        PrefixesOfOneKey(all[i].prefix, p, key);
      }
    }
  }

  /** Every prefix a key has is empty or in the range from its first byte to the key itself. */
  lemma RangeHasThePrefixes(key: Text, p: Text)
    requires key != [] && p <= key && p != []
    ensures Leq(key[0..1], p) && Leq(p, key)
  {
    assert p[0..1] == key[0..1];
    PrefixesComeFirst(p[0..1], p);
    PrefixesComeFirst(p, key);
  }

  class InnerListeners {
    var listeners: map<Text, set<nat>>
    var listenerIdx: nat

    /** No two listeners share a number, and none has one yet to be given. */
    ghost predicate Valid()
      reads this
    {
      && (forall p, i | p in listeners && i in listeners[p] :: i < listenerIdx)
      && (forall p, q, i | p in listeners && q in listeners && i in listeners[p] && i in listeners[q] :: p == q)
    }

    constructor ()
      ensures Valid() && listeners == map[]
    {
      listeners, listenerIdx := map[], 0;
    }

    method SubscribeEvent(prefix: Text) returns (idx: nat)
      requires Valid()
      modifies this
      ensures Valid()
      ensures forall p, i :: p in listeners && i in listeners[p] <==>
                               (old(p in listeners) && i in old(listeners)[p]) || (p == prefix && i == idx)
      ensures forall p | p in old(listeners) :: idx !in old(listeners)[p]
    {
      idx := listenerIdx;
      listenerIdx := listenerIdx + 1;
      if prefix in listeners {
        listeners := listeners[prefix := listeners[prefix] + {idx}];
      } else {
        listeners := listeners[prefix := {idx}];
      }
    }

    method RemoveListener(prefix: Text, idx: nat)
      requires Valid()
      modifies this
      ensures Valid()
      ensures forall p, i :: p in listeners && i in listeners[p] <==>
                               old(p in listeners) && i in old(listeners)[p] && !(p == prefix && i == idx)
    {
      if prefix in listeners {
        listeners := listeners[prefix := listeners[prefix] - {idx}];
      }
    }

    /** Calls the listeners of a key.  The first byte of the key is sliced off as a string, which panics exactly when
        it is not a whole character; then only the listeners of the empty prefix have been called. */
    method TriggerEvent(key: Text) returns (calls: seq<Call>, panicked: bool)
      ensures panicked <==> key != [] && key[0] >= 128
      ensures if panicked then Dispatched(listeners, key, {[]}, calls) else IsDispatch(listeners, key, calls)
    {
      calls, panicked := [], false;
      ghost var done: set<Text> := {};
      if [] in listeners {
        calls := CallAll([], listeners[[]], key);
        MoreDispatched(listeners, key, {}, [], [], calls);
        done := {[]};
      }
      if key == [] {
        return;
      }
      if key[0] >= 128 {
        return calls, true;
      }
      var todo := set p | p in listeners && Leq(key[0..1], p) && Leq(p, key);
      forall p | p in listeners && p <= key && p != [] ensures p in todo {
        RangeHasThePrefixes(key, p);
      }
      while todo != {}
        invariant Dispatched(listeners, key, done, calls)
        invariant done <= listeners.Keys && todo <= listeners.Keys && todo !! done && [] !in todo
        invariant forall q, p | q in done && p in todo :: Leq(q, p)
        invariant forall p | p in listeners && p <= key :: p in done || p in todo
        decreases todo
      {
        ghost var least := LeastExists(todo);
        var p :| p in todo && forall other | other in todo :: Leq(p, other);
        var more := [];
        if p <= key {
          more := CallAll(p, listeners[p], key);
        }
        MoreDispatched(listeners, key, done, calls, p, more);
        calls := calls + more;
        todo, done := todo - {p}, done + {p};
      }
    }
  }

  // ---------- entries under a prefix ----------

  ghost predicate InOrder(found: seq<(Text, VersionedValue)>) {
    forall i, j | 0 <= i < j < |found| :: found[i].0 != found[j].0 && Leq(found[i].0, found[j].0)
  }

  /** The entries under `prefix` that are not deleted, in order of their keys: the scan starts at the prefix and stops
      at the first key without it. */
  method IterPrefix(keyValues: map<Text, VersionedValue>, prefix: Text) returns (found: seq<(Text, VersionedValue)>)
    ensures forall e :: e in found <==>
              e.0 in keyValues && e.1 == keyValues[e.0] && prefix <= e.0 && !keyValues[e.0].status.Deleted?
    ensures InOrder(found)
  {
    found := [];
    var todo := set k | k in keyValues && Leq(prefix, k);
    forall k | k in keyValues && prefix <= k ensures k in todo {
      PrefixesComeFirst(prefix, k);
    }
    while todo != {}
      invariant todo <= keyValues.Keys && forall k | k in todo :: Leq(prefix, k)
      invariant forall e :: e in found <==>
                  e.0 in keyValues && e.1 == keyValues[e.0] && prefix <= e.0 && !keyValues[e.0].status.Deleted? && e.0 !in todo
      invariant InOrder(found)
      invariant forall e, k | e in found && k in todo :: Leq(e.0, k)
      decreases todo
    {
      ghost var least := LeastExists(todo);
      var k :| k in todo && forall other | other in todo :: Leq(k, other);
      if !(prefix <= k) {
        forall other | other in todo ensures !(prefix <= other) {
          if prefix <= other {
            PrefixedKeysAreContiguous(prefix, k, other);
          }
        }
        break;
      }
      todo := todo - {k};
      if !keyValues[k].status.Deleted? {
        AppendInOrder(found, (k, keyValues[k]));
        found := found + [(k, keyValues[k])];
      }
    }
  }

  lemma AppendInOrder(found: seq<(Text, VersionedValue)>, e: (Text, VersionedValue))
    requires InOrder(found) && forall f | f in found :: f.0 != e.0 && Leq(f.0, e.0)
    ensures InOrder(found + [e])
  {
  }
}
