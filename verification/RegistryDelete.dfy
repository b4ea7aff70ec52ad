/**
 * Deleting a registry key with everything below it (registry.c). The registry
 * is a tree of keys that other code owns: its three calls are given by what
 * they do to the tree.
 */
module RegistryDelete {

  /** The names from the hive down to the key. */
  type Key = seq<string>

  /** What a call returns; Never if it goes round for ever. */
  datatype Code = Success | FileNotFound | AccessDenied | Never

  /** What an enumeration says; a failure is any other error. */
  datatype Enumerated = NoMoreItems | Item(name: string) | Failure

  predicate IsChild(k: Key, p: Key) {
    |k| == |p| + 1 && p <= k
  }

  ghost predicate HasChild(keys: set<Key>, p: Key) {
    exists k :: k in keys && IsChild(k, p)
  }

  /** The key and all keys below it. */
  function Below(keys: set<Key>, p: Key): set<Key> {
    set k | k in keys && p <= k
  }

  ghost predicate IsTree(keys: set<Key>) {
    forall k :: k in keys && k != [] ==> k[..|k| - 1] in keys
  }

  lemma {:induction false} AncestorsExist(keys: set<Key>, p: Key, k: Key)
    requires IsTree(keys) && k in keys && p < k
    ensures k[..|p| + 1] in keys && IsChild(k[..|p| + 1], p) && HasChild(keys, p)
    decreases |k|
  {
    if |k| == |p| + 1 {
      assert k[..|k|] == k;
    } else {
      var up := k[..|k| - 1];
      AncestorsExist(keys, p, up);
      assert up[..|p| + 1] == k[..|p| + 1];
    }
  }

  lemma {:induction false} PrefixExists(keys: set<Key>, p: Key, k: Key)
    requires IsTree(keys) && k in keys && p <= k
    ensures p in keys
    decreases |k|
  {
    if p != k {
      PrefixExists(keys, p, k[..|k| - 1]);
    }
  }

  function BelowAny(ks: set<Key>, cs: set<Key>): set<Key> {
    set k, c | k in ks && c in cs && c <= k :: k
  }

  class Registry {
    var keys: set<Key>
    /** Keys that may not be deleted, keys that may not be opened, and keys whose subkeys cannot be enumerated. */
    const undeletable: set<Key>
    const unopenable: set<Key>
    const unlistable: set<Key>
    /** What the name buffer of the call for a key holds before it is set. */
    const unset: Key -> string

    constructor (keys: set<Key>, undeletable: set<Key>, unopenable: set<Key>, unlistable: set<Key>, unset: Key -> string)
      requires IsTree(keys)
      ensures Valid() && this.keys == keys && this.undeletable == undeletable && this.unopenable == unopenable
      ensures this.unlistable == unlistable && this.unset == unset
    {
      this.keys, this.undeletable, this.unopenable := keys, undeletable, unopenable;
      this.unlistable, this.unset := unlistable, unset;
    }

    ghost predicate Valid()
      reads this
    {
      IsTree(keys)
    }

    /** RegDeleteKeyW: deletes a key that has no subkeys. */
    method DeleteKey(k: Key) returns (rc: Code)
      requires Valid()
      modifies this
      ensures Valid()
      ensures rc == Success <==> k in old(keys) && !HasChild(old(keys), k) && k !in undeletable
      ensures keys == if rc == Success then old(keys) - {k} else old(keys)
      ensures rc == FileNotFound <==> k !in old(keys)
      ensures rc != Never
    {
      if k !in keys {
        rc := FileNotFound;
      } else if k in undeletable || exists c :: c in keys && IsChild(c, k) {
        rc := AccessDenied;
      } else {
        keys := keys - {k};
        rc := Success;
        assert !HasChild(old(keys), k);
        forall c | c in keys && c != []
          ensures c[..|c| - 1] in keys
        {
          assert c[..|c| - 1] == k ==> IsChild(c, k);
        }
      }
    }

    /** RegOpenKeyExW. */
    method OpenKey(k: Key) returns (rc: Code)
      ensures rc == if k !in keys then FileNotFound else if k in unopenable then AccessDenied else Success
    {
      rc := if k !in keys then FileNotFound else if k in unopenable then AccessDenied else Success;
    }

    /** RegEnumKeyExW with index 0: some subkey, if there is one. */
    method FirstSubKey(k: Key) returns (e: Enumerated)
      ensures e == Failure <==> k in unlistable
      ensures e == NoMoreItems <==> k !in unlistable && !HasChild(keys, k)
      ensures e.Item? ==> k + [e.name] in keys
    {
      if k in unlistable {
        return Failure;
      }
      var cs := set c | c in keys && IsChild(c, k);
      if cs == {} {
        assert forall c :: c in keys && IsChild(c, k) ==> c in cs;
        return NoMoreItems;
      }
      var c :| c in cs;
      assert c == k + [c[|k|]];
      assert IsChild(c, k);
      return Item(c[|k|]);
    }

    /** Nothing in the way of deleting this key once its subkeys are gone. */
    ghost predicate Removable(ks: set<Key>, k: Key) {
      k !in undeletable && (HasChild(ks, k) ==> k !in unopenable && k !in unlistable)
    }

    ghost predicate AllRemovable(ks: set<Key>, p: Key) {
      forall k :: k in ks && p <= k ==> Removable(ks, k)
    }

    lemma OnlyItself(ks: set<Key>, p: Key)
      requires IsTree(ks) && p in ks && !HasChild(ks, p)
      ensures Below(ks, p) == {p}
      ensures AllRemovable(ks, p) <==> p !in undeletable
    {
      forall k | k in ks && p <= k
        ensures k == p
      {
        if k != p {
          AncestorsExist(ks, p, k);
        }
      }
    }

    lemma NothingBelow(ks: set<Key>, p: Key)
      requires IsTree(ks) && p !in ks
      ensures Below(ks, p) == {} && AllRemovable(ks, p)
    {
      forall k | k in ks && p <= k
        ensures false
      {
        PrefixExists(ks, p, k);
      }
    }

    /** The subtree of a child that is still there is as it was at first. */
    lemma UntouchedBelow(ks: set<Key>, now: set<Key>, p: Key, gone: set<Key>, c: Key)
      requires now == ks - BelowAny(ks, gone) && (forall d :: d in gone ==> IsChild(d, p))
      requires c in now && IsChild(c, p)
      ensures c !in gone && Below(now, c) == Below(ks, c)
      ensures AllRemovable(now, c) <==> AllRemovable(ks, c)
    {
      forall k | k in ks && c <= k
        ensures k in now
      {
        forall d | IsChild(d, p) && d <= k
          ensures d == c
        {
          assert d == k[..|p| + 1] == c;
        }
      }
      forall k | k in ks && c <= k
        ensures HasChild(now, k) <==> HasChild(ks, k)
      {
        if d :| d in ks && IsChild(d, k) {
          assert c <= d;
        }
      }
    }

    lemma OneMoreGone(ks: set<Key>, now: set<Key>, gone: set<Key>, c: Key)
      requires now == ks - BelowAny(ks, gone)
      ensures now - Below(now, c) == ks - BelowAny(ks, gone + {c})
    {
    }

    lemma SmallerBelow(ks: set<Key>, now: set<Key>, p: Key, c: Key)
      requires now <= ks && p in ks && IsChild(c, p)
      ensures Below(now, c) < Below(ks, p)
    {
      assert p in Below(ks, p) && p !in Below(now, c);
    }

    /** When no child is left all of them are gone, and only the key itself remains to be judged. */
    lemma NoChildLeft(ks: set<Key>, p: Key, gone: set<Key>)
      requires IsTree(ks) && p in ks && p !in unopenable && p !in unlistable
      requires forall c :: c in gone ==> IsChild(c, p) && AllRemovable(ks, c)
      requires !HasChild(ks - BelowAny(ks, gone), p)
      ensures Below(ks, p) == {p} + BelowAny(ks, gone)
      ensures AllRemovable(ks, p) <==> p !in undeletable
    {
      forall k | k in ks && p <= k && k != p
        ensures k in BelowAny(ks, gone) && Removable(ks, k)
      {
        AncestorsExist(ks, p, k);
        var c := k[..|p| + 1];
        assert c !in ks - BelowAny(ks, gone);
        var d :| d in gone && d <= c;
        assert d == c;
      }
    }

    /** The key is opened, and its enumeration fails. */
    ghost predicate FailsToList(ks: set<Key>, k: Key) {
      k in ks && (k in undeletable || HasChild(ks, k)) && k !in unopenable && k in unlistable
    }

    ghost predicate SomeUnlistable(ks: set<Key>, p: Key) {
      exists k :: p <= k && FailsToList(ks, k)
    }

    /** And the name buffer names none of its subkeys. */
    ghost predicate GoesRound(ks: set<Key>, p: Key) {
      FailsToList(ks, p) && p + [unset(p)] !in ks
    }

    lemma FurtherUp(ks: set<Key>, now: set<Key>, p: Key, c: Key)
      requires now <= ks && IsChild(c, p)
      ensures SomeUnlistable(now, c) ==> SomeUnlistable(ks, p)
    {
      if k :| c <= k && FailsToList(now, k) {
        assert p <= k && FailsToList(ks, k);
      }
    }

    /**
     * What a call for the key p promises. It succeeds if and only if every key of
     * the subtree may be deleted and every one that has subkeys may be opened and
     * enumerated. Then exactly the subtree is gone. If it fails the key is still
     * there and nothing outside the subtree has changed. It goes round for ever
     * only if some enumeration in the subtree fails.
     */
    ghost predicate Outcome(ks: set<Key>, now: set<Key>, p: Key, rc: Code) {
      && (rc == Success <==> AllRemovable(ks, p))
      && (rc == Success ==> now == ks - Below(ks, p))
      && (rc != Success ==> (rc == AccessDenied || rc == Never) && p in now && now <= ks && ks - Below(ks, p) <= now)
      && (rc == Never ==> SomeUnlistable(ks, p))
      && (GoesRound(ks, p) ==> rc == Never)
    }

    /** The same with every condition written out. */
    lemma OutcomeMeans(ks: set<Key>, now: set<Key>, p: Key, rc: Code)
      requires Outcome(ks, now, p, rc)
      ensures rc == Success <==> forall k :: k in ks && p <= k ==>
        k !in undeletable &&
        (k in unopenable || k in unlistable ==> forall c :: c in ks && k <= c ==> |c| != |k| + 1)
      ensures rc == Success ==> forall k :: k in now <==> k in ks && !(p <= k)
      ensures rc != Success ==> rc != FileNotFound && p in now && now <= ks
      ensures rc != Success ==> forall k :: k in ks && !(p <= k) ==> k in now
      ensures rc == Never ==>
        exists k :: (k in ks && p <= k && k !in unopenable && k in unlistable &&
                     (k in undeletable || exists c :: c in ks && k <= c && |c| == |k| + 1))
      ensures p in ks && p in undeletable && p !in unopenable && p in unlistable && p + [unset(p)] !in ks ==> rc == Never
    {
      forall k | k in ks && p <= k
        ensures Removable(ks, k) <==>
          k !in undeletable &&
          (k in unopenable || k in unlistable ==> forall c :: c in ks && k <= c ==> |c| != |k| + 1)
      {
        ChildMeans(ks, k);
      }
      if rc == Never {
        var k :| p <= k && FailsToList(ks, k);
        ChildMeans(ks, k);
      }
    }

    lemma ChildMeans(ks: set<Key>, k: Key)
      ensures HasChild(ks, k) <==> exists c :: c in ks && k <= c && |c| == |k| + 1
    {
      if c :| c in ks && k <= c && |c| == |k| + 1 {
        assert IsChild(c, k);
      }
    }

    /** Between two rounds: these subkeys of p are gone with all that was below them. */
    ghost predicate Between(ks: set<Key>, now: set<Key>, p: Key, gone: set<Key>, name: string) {
      && p in ks && p in now && p !in unopenable && (p in undeletable || HasChild(ks, p))
      && (forall c :: c in gone ==> IsChild(c, p) && AllRemovable(ks, c))
      && now == ks - BelowAny(ks, gone)
      && (p in unlistable ==> name == unset(p))
    }

    /** The key has no subkeys, and nothing forbids to delete it. */
    lemma DeletedAtOnce(ks: set<Key>, p: Key)
      requires IsTree(ks) && p in ks && !HasChild(ks, p) && p !in undeletable
      ensures Outcome(ks, ks - {p}, p, Success)
    {
      OnlyItself(ks, p);
    }

    lemma NoSuchKey(ks: set<Key>, now: set<Key>, p: Key, rc: Code)
      requires IsTree(ks) && p !in ks && Outcome(ks, now, p, rc)
      ensures rc == Success && now == ks
    {
      NothingBelow(ks, p);
    }

    lemma Missing(ks: set<Key>, p: Key)
      requires IsTree(ks) && p !in ks
      ensures Outcome(ks, ks, p, Success)
    {
      NothingBelow(ks, p);
    }

    lemma Unopened(ks: set<Key>, p: Key)
      requires p in ks && (p in undeletable || HasChild(ks, p)) && p in unopenable
      ensures Outcome(ks, ks, p, AccessDenied)
    {
      if p !in undeletable {
        assert !Removable(ks, p);
      }
    }

    lemma NothingGone(ks: set<Key>, p: Key)
      requires p in ks && p !in unopenable && (p in undeletable || HasChild(ks, p))
      ensures Between(ks, ks, p, {}, unset(p))
    {
      assert BelowAny(ks, {}) == {};
    }

    /** The enumeration has come to its end. */
    lemma LastRound(ks: set<Key>, now: set<Key>, p: Key, gone: set<Key>, name: string)
      requires IsTree(ks) && Between(ks, now, p, gone, name) && p !in unlistable && !HasChild(now, p)
      ensures if p in undeletable then Outcome(ks, now, p, AccessDenied) else Outcome(ks, now - {p}, p, Success)
    {
      NoChildLeft(ks, p, gone);
    }

    /** The enumeration fails, and the name in the buffer is no subkey's. */
    lemma NameUnknown(ks: set<Key>, now: set<Key>, p: Key, gone: set<Key>, name: string)
      requires IsTree(ks) && Between(ks, now, p, gone, name) && p in unlistable
      ensures Outcome(ks, now, p, Never)
    {
      assert !Removable(ks, p) && FailsToList(ks, p);
      forall k | k in BelowAny(ks, gone)
        ensures k in Below(ks, p)
      {
        var c :| c in gone && c <= k;
      }
    }

    /** A subkey is gone with all that was below it. */
    lemma OneGone(ks: set<Key>, before: set<Key>, now: set<Key>, p: Key, gone: set<Key>, old_: string, name: string)
      requires IsTree(ks) && Between(ks, before, p, gone, old_) && (p in unlistable ==> name == unset(p))
      requires p + [name] in before && Outcome(before, now, p + [name], Success)
      ensures Between(ks, now, p, gone + {p + [name]}, name) && now < before
    {
      var c := p + [name];
      UntouchedBelow(ks, before, p, gone, c);
      OneMoreGone(ks, before, gone, c);
      assert c in before && c !in now;
    }

    /** A subkey could not be deleted, or goes round for ever. */
    lemma FailedBelow(ks: set<Key>, before: set<Key>, now: set<Key>, p: Key, gone: set<Key>, old_: string, name: string, rc: Code)
      requires IsTree(ks) && Between(ks, before, p, gone, old_) && (p in unlistable ==> name == unset(p)) && rc != Success
      requires p + [name] in before && Outcome(before, now, p + [name], rc)
      ensures Outcome(ks, now, p, rc)
    {
      var c := p + [name];
      UntouchedBelow(ks, before, p, gone, c);
      FurtherUp(ks, before, p, c);
    }

    /** For a key without subkeys this says exactly when the call does not return. */
    lemma NeverIff(ks: set<Key>, now: set<Key>, p: Key, rc: Code)
      requires IsTree(ks) && p in ks && !HasChild(ks, p) && Outcome(ks, now, p, rc)
      ensures rc == Never <==> p in undeletable && p !in unopenable && p in unlistable
    {
      OnlyItself(ks, p);
      assert p + [unset(p)] in ks ==> IsChild(p + [unset(p)], p);
      if k :| p <= k && FailsToList(ks, k) {
        assert k in Below(ks, p);
      }
    }

    /** One round of the loop; done says that it was the last. */
    method OneRound(p: Key, name: string, ghost ks: set<Key>, ghost gone: set<Key>)
        returns (done: bool, rc: Code, name': string, ghost gone': set<Key>)
      requires Valid() && IsTree(ks) && Between(ks, keys, p, gone, name)
      modifies this
      ensures Valid()
      ensures done ==> Outcome(ks, keys, p, rc)
      ensures !done ==> Between(ks, keys, p, gone', name') && keys < old(keys)
      decreases Below(ks, p), 0
    {
      name', gone', done := name, gone, true;
      ghost var before := keys;
      var e := FirstSubKey(p);
      if e == NoMoreItems {
        LastRound(ks, keys, p, gone, name);
        rc := DeleteKey(p);
        return;
      }
      if e.Item? {
        name' := e.name;
      }
      SmallerBelow(ks, keys, p, p + [name']);
      var there := p + [name'] in keys;
      rc := DeleteRecursive(p, [name']);
      if !there {
        NoSuchKey(before, keys, p + [name'], rc);
        NameUnknown(ks, keys, p, gone, name);
        rc := Never;
      } else if rc == Success {
        OneGone(ks, before, keys, p, gone, name, name');
        gone', done := gone + {p + [name']}, false;
      } else {
        FailedBelow(ks, before, keys, p, gone, name, name', rc);
      }
    }

    /**
     * apxDeleteRegistryRecursive. The source takes a failing enumeration for a
     * subkey and goes on with whatever its name buffer holds. When that names no
     * subkey, nothing is deleted and the next round is the same again.
     */
    method DeleteRecursive(root: Key, sub: Key) returns (rc: Code)
      requires Valid() && sub != []
      modifies this
      ensures Valid() && Outcome(old(keys), keys, root + sub, rc)
      decreases Below(keys, root + sub), 1
    {
      var p := root + sub;
      ghost var ks := keys;
      rc := DeleteKey(p);
      if rc == Success {
        DeletedAtOnce(ks, p);
        return Success;
      }
      rc := OpenKey(p);
      if rc != Success {
        if rc == FileNotFound {
          Missing(ks, p);
          return Success;
        } else {
          Unopened(ks, p);
          return rc;
        }
      }
      NothingGone(ks, p);
      var szName, done := unset(p), false;
      ghost var gone: set<Key> := {};
      while !done
        invariant Valid()
        invariant done ==> Outcome(ks, keys, p, rc)
        invariant !done ==> Between(ks, keys, p, gone, szName)
        decreases !done, keys
      {
        done, rc, szName, gone := OneRound(p, szName, ks, gone);
      }
    }
  }

  /** A key that may be opened but neither deleted nor enumerated: the call goes round for ever. */
  method GoingRound() returns (rc: Code)
    ensures rc == Never
  {
    var k := ["a"];
    var keys := {[], k};
    assert k[..0] == [];
    var r := new Registry(keys, {k}, {}, {k}, _ => "b");
    assert [] + k == k && k + ["b"] !in keys && r.GoesRound(keys, k);
    rc := r.DeleteRecursive([], k);
  }
}
