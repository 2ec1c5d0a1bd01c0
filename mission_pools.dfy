/** The three node pools MissionGraphGenerator drains, as values, and the
    invariant that lets GetNextNode always draw a node. */
module MissionPools {
  import opened Geometry
  import opened MissionGraph

  /** A loop `for (i = 0; i < n; i++)` runs this many times. */
  function Count(n: int): nat {
    if n > 0 then n else 0
  }

  /** The pool GetNextNode draws from, given the pool sizes. */
  datatype Pool = Explorations | Keys | Locks

  function SelectPool(explorations: nat, keys: nat, locks: nat): Pool {
    if explorations > keys then Explorations
    else if keys >= locks then Keys
    else Locks
  }

  /** The key numbers of the given nodes. */
  function KeyNrsOf(g: seq<MissionNodeData>, ids: seq<nat>): (r: seq<int>)
    requires forall i :: 0 <= i < |ids| ==> ids[i] < |g|
    ensures |r| == |ids| && forall i :: 0 <= i < |ids| ==> r[i] == g[ids[i]].keyNr
  {
    seq(|ids|, i requires 0 <= i < |ids| => g[ids[i]].keyNr)
  }

  /** The key numbers of the key nodes in `order`, in order: what placedKeys records. */
  function PlacedKeyNrs(g: seq<MissionNodeData>, order: seq<nat>): seq<int>
    requires forall i :: 0 <= i < |order| ==> order[i] < |g|
  {
    if order == [] then []
    else
      var n := order[|order| - 1];
      PlacedKeyNrs(g, order[..|order| - 1]) + (if g[n].kind == Key then [g[n].keyNr] else [])
  }

  /** A number recorded for `order` belongs to a key node of `order`. */
  lemma {:induction false} PlacedKeyNrsMember(g: seq<MissionNodeData>, order: seq<nat>, x: int)
    requires forall i :: 0 <= i < |order| ==> order[i] < |g|
    requires x in PlacedKeyNrs(g, order)
    ensures KeyPlacedBefore(g, order, x, |order|)
  {
    var m := |order| - 1;
    var pre := order[..m];
    if x in PlacedKeyNrs(g, pre) {
      PlacedKeyNrsMember(g, pre, x);
      var i :| 0 <= i < m && g[pre[i]].kind == Key && g[pre[i]].keyNr == x;
      assert order[i] == pre[i];
    } else {
      assert g[order[m]].kind == Key && g[order[m]].keyNr == x;
    }
  }

  /** Appending a node keeps keys before their locks when a lock is appended
      only if its key number is already recorded. */
  lemma KeysBeforeLocksAppend(g: seq<MissionNodeData>, order: seq<nat>, preset: seq<int>, n: nat)
    requires forall i :: 0 <= i < |order| ==> order[i] < |g|
    requires n < |g|
    requires KeysBeforeLocks(g, order, preset)
    requires g[n].kind == Lock ==> g[n].keyNr in preset + PlacedKeyNrs(g, order)
    ensures KeysBeforeLocks(g, order + [n], preset)
  {
    var o := order + [n];
    forall j | 0 <= j < |o| && g[o[j]].kind == Lock
      ensures g[o[j]].keyNr in preset || KeyPlacedBefore(g, o, g[o[j]].keyNr, j)
    {
      var x := g[o[j]].keyNr;
      if j < |order| {
        assert o[j] == order[j];
        if !(x in preset) {
          assert KeyPlacedBefore(g, order, x, j);
          var i :| 0 <= i < j && g[order[i]].kind == Key && g[order[i]].keyNr == x;
          assert o[i] == order[i];
        }
      } else if x !in preset {
        assert x in PlacedKeyNrs(g, order);
        PlacedKeyNrsMember(g, order, x);
        var i :| 0 <= i < |order| && g[order[i]].kind == Key && g[order[i]].keyNr == x;
        assert o[i] == order[i];
      }
    }
  }

  /** The values occurring in s. */
  function Elements(s: seq<int>): set<int> {
    set x | x in s
  }

  /** The numbers of s that are not in placed. */
  function Waiting(s: seq<int>, placed: seq<int>): set<int> {
    set x | x in s && x !in placed
  }

  /** The first position of s holding a number of placed; |s| when there is none. */
  function FirstPlaced(s: seq<int>, placed: seq<int>): (k: nat)
    ensures k <= |s|
    ensures k < |s| ==> s[k] in placed
    ensures forall i :: 0 <= i < k ==> s[i] !in placed
  {
    if s == [] then 0
    else if s[0] in placed then 0
    else 1 + FirstPlaced(s[1..], placed)
  }

  lemma NonePlaced(s: seq<int>, placed: seq<int>)
    ensures FirstPlaced(s, placed) == |s| ==> Elements(s) <= Waiting(s, placed)
  {
  }

  /** When there are more locks than keys left, some lock's key is already
      placed: each remaining lock's key is either placed or still in the key
      pool, and the locks carry as many key numbers as there are locks. */
  lemma LockWithPlacedKey(locks: seq<int>, keys: seq<int>, placedKeys: seq<int>)
    requires |Elements(locks)| == |locks|
    requires forall x :: x in locks ==> x in placedKeys || x in keys
    requires |locks| > |keys|
    ensures FirstPlaced(locks, placedKeys) < |locks|
    ensures exists j :: 0 <= j < |locks| && locks[j] in placedKeys
  {
    var waiting := Waiting(locks, placedKeys);
    forall x | x in waiting ensures x in Elements(keys) {
      assert x in locks;
    }
    SetSizeAtMost(keys);
    SubsetSize(waiting, Elements(keys));
    NonePlaced(locks, placedKeys);
    SubsetSizeIf(Elements(locks), waiting);
    var j := FirstPlaced(locks, placedKeys);
    assert j < |locks|;
    assert locks[j] in placedKeys;
  }

  lemma SubsetSize(a: set<int>, b: set<int>)
    requires a <= b
    ensures |a| <= |b|
  {
    DiffSize(b, a);
  }

  lemma SubsetSizeIf(a: set<int>, b: set<int>)
    ensures a <= b ==> |a| <= |b|
  {
    if a <= b {
      SubsetSize(a, b);
    }
  }

  lemma DiffSize(a: set<int>, w: set<int>)
    requires w <= a
    ensures |a - w| == |a| - |w|
  {
    assert a == (a - w) + w;
    assert (a - w) * w == {};
  }

  lemma {:induction false} DistinctSetSize(s: seq<int>)
    requires Distinct(s)
    ensures |Elements(s)| == |s|
  {
    if s != [] {
      var pre := s[..|s| - 1];
      DistinctSetSize(pre);
      assert s == pre + [s[|s| - 1]];
      assert s[|s| - 1] !in pre;
      assert Elements(s) == Elements(pre) + {s[|s| - 1]};
    }
  }

  lemma {:induction false} SetSizeAtMost(s: seq<int>)
    ensures |Elements(s)| <= |s|
  {
    if s != [] {
      var pre := s[..|s| - 1];
      SetSizeAtMost(pre);
      assert s == pre + [s[|s| - 1]];
      assert Elements(s) == Elements(pre) + {s[|s| - 1]};
    }
  }

  lemma PlacedKeyNrsAppend(g: seq<MissionNodeData>, order: seq<nat>, n: nat)
    requires forall i :: 0 <= i < |order| ==> order[i] < |g|
    requires n < |g|
    ensures PlacedKeyNrs(g, order + [n]) == PlacedKeyNrs(g, order) + (if g[n].kind == Key then [g[n].keyNr] else [])
  {
    assert (order + [n])[..|order|] == order;
  }

  /** Removing a node keeps the other nodes, and their kind, in the pool. */
  lemma RemoveKeepsKinds(g: seq<MissionNodeData>, pool: seq<nat>, n: nat, kind: MissionNodeType)
    requires forall i :: 0 <= i < |pool| ==> pool[i] < |g| && g[pool[i]].kind == kind
    ensures var r := RemoveFirst<nat>(pool, n);
      forall i :: 0 <= i < |r| ==> r[i] < |g| && g[r[i]].kind == kind
  {
    var r := RemoveFirst<nat>(pool, n);
    forall i | 0 <= i < |r| ensures r[i] < |g| && g[r[i]].kind == kind {
      assert r[i] in multiset(r);
    }
  }

  /** After removing n from a pool, its key numbers are the pool's, and all of
      them except possibly n's own remain. */
  lemma RemoveKeyNrs(g: seq<MissionNodeData>, pool: seq<nat>, n: nat)
    requires forall i :: 0 <= i < |pool| ==> pool[i] < |g|
    requires n < |g|
    ensures var r := RemoveFirst<nat>(pool, n);
      (forall i :: 0 <= i < |r| ==> r[i] < |g|) &&
      (forall x :: x in KeyNrsOf(g, r) ==> x in KeyNrsOf(g, pool)) &&
      (forall x :: x in KeyNrsOf(g, pool) && x != g[n].keyNr ==> x in KeyNrsOf(g, r))
  {
    var r := RemoveFirst<nat>(pool, n);
    RemoveWithin(g, pool, r, n);
    RemovedKeyNrs(g, pool, r);
    KeptKeyNrs(g, pool, r, n);
  }

  /** Removing a node from a pool of nodes of g leaves nodes of g. */
  lemma RemoveWithin(g: seq<MissionNodeData>, pool: seq<nat>, r: seq<nat>, n: nat)
    requires forall i :: 0 <= i < |pool| ==> pool[i] < |g|
    requires r == RemoveFirst<nat>(pool, n)
    ensures forall i :: 0 <= i < |r| ==> r[i] in pool
    ensures forall i :: 0 <= i < |r| ==> r[i] < |g|
  {
    forall i | 0 <= i < |r| ensures r[i] in pool {
      assert r[i] in multiset(r);
    }
  }

  /** The key numbers left after a removal were key numbers of the pool. */
  lemma RemovedKeyNrs(g: seq<MissionNodeData>, pool: seq<nat>, r: seq<nat>)
    requires forall i :: 0 <= i < |pool| ==> pool[i] < |g|
    requires forall i :: 0 <= i < |r| ==> r[i] in pool
    requires forall i :: 0 <= i < |r| ==> r[i] < |g|
    ensures forall x :: x in KeyNrsOf(g, r) ==> x in KeyNrsOf(g, pool)
  {
    forall x | x in KeyNrsOf(g, r) ensures x in KeyNrsOf(g, pool) {
      var i :| 0 <= i < |r| && KeyNrsOf(g, r)[i] == x;
      var j :| 0 <= j < |pool| && pool[j] == r[i];
      assert KeyNrsOf(g, pool)[j] == x;
    }
  }

  /** Every key number of the pool other than n's is still there after removing n. */
  lemma KeptKeyNrs(g: seq<MissionNodeData>, pool: seq<nat>, r: seq<nat>, n: nat)
    requires forall i :: 0 <= i < |pool| ==> pool[i] < |g|
    requires n < |g| && r == RemoveFirst<nat>(pool, n)
    requires forall i :: 0 <= i < |r| ==> r[i] < |g|
    ensures forall x :: x in KeyNrsOf(g, pool) && x != g[n].keyNr ==> x in KeyNrsOf(g, r)
  {
    forall x | x in KeyNrsOf(g, pool) && x != g[n].keyNr ensures x in KeyNrsOf(g, r) {
      var j :| 0 <= j < |pool| && KeyNrsOf(g, pool)[j] == x;
      assert pool[j] != n;
      assert pool[j] in multiset(pool);
      assert pool[j] in multiset(r);
      var i :| 0 <= i < |r| && r[i] == pool[j];
      assert KeyNrsOf(g, r)[i] == x;
    }
  }

  /** Removing a node of a pool whose nodes all carry different key numbers
      leaves such a pool. */
  lemma RemoveKeepsKeyNrCount(g: seq<MissionNodeData>, pool: seq<nat>, n: nat)
    requires forall i :: 0 <= i < |pool| ==> pool[i] < |g|
    requires n in pool
    requires |Elements(KeyNrsOf(g, pool))| == |pool|
    ensures var r := RemoveFirst<nat>(pool, n);
      (forall i :: 0 <= i < |r| ==> r[i] < |g|) && |Elements(KeyNrsOf(g, r))| == |r|
  {
    var r := RemoveFirst<nat>(pool, n);
    RemoveKeyNrs(g, pool, n);
    var before, after := Elements(KeyNrsOf(g, pool)), Elements(KeyNrsOf(g, r));
    var k := g[n].keyNr;
    var j :| 0 <= j < |pool| && pool[j] == n;
    assert KeyNrsOf(g, pool)[j] == k;
    SubsetSize(before - {k}, after);
    DiffSize(before, {k});
    SetSizeAtMost(KeyNrsOf(g, r));
  }

  /** Shuffling a pool keeps its nodes, their kinds and its key numbers. */
  lemma ShuffleKeepsPool(g: seq<MissionNodeData>, pool: seq<nat>, shuffled: seq<nat>)
    requires forall i :: 0 <= i < |pool| ==> pool[i] < |g| && g[pool[i]].kind == Lock
    requires multiset(shuffled) == multiset(pool)
    ensures |shuffled| == |pool|
    ensures forall i :: 0 <= i < |shuffled| ==> shuffled[i] < |g| && g[shuffled[i]].kind == Lock
    ensures Elements(KeyNrsOf(g, shuffled)) == Elements(KeyNrsOf(g, pool))
  {
    assert |shuffled| == |multiset(shuffled)|;
    forall i | 0 <= i < |shuffled| ensures shuffled[i] in pool {
      assert shuffled[i] in multiset(shuffled);
    }
    forall x | x in KeyNrsOf(g, shuffled) ensures x in KeyNrsOf(g, pool) {
      var i :| 0 <= i < |shuffled| && KeyNrsOf(g, shuffled)[i] == x;
      var j :| 0 <= j < |pool| && pool[j] == shuffled[i];
      assert KeyNrsOf(g, pool)[j] == x;
    }
    forall x | x in KeyNrsOf(g, pool) ensures x in KeyNrsOf(g, shuffled) {
      var j :| 0 <= j < |pool| && KeyNrsOf(g, pool)[j] == x;
      assert pool[j] in multiset(shuffled);
      var i :| 0 <= i < |shuffled| && shuffled[i] == pool[j];
      assert KeyNrsOf(g, shuffled)[i] == x;
    }
  }


  /** Every id names a node of g of the given kind. */
  predicate OfKind(g: seq<MissionNodeData>, ids: seq<nat>, kind: MissionNodeType) {
    forall i :: 0 <= i < |ids| ==> ids[i] < |g| && g[ids[i]].kind == kind
  }

  predicate Within(g: seq<MissionNodeData>, ids: seq<nat>) {
    forall i :: 0 <= i < |ids| ==> ids[i] < |g|
  }

  /** The pools hold nodes of their kinds; the locks carry pairwise different
      key numbers, each already placed or still held by a key in the pool;
      there are as many locks as keys, or one more; placedKeys holds the
      numbers recorded before the draws followed by those of the keys drawn;
      and no lock has been drawn before its key. */
  ghost predicate PoolsOk(g: seq<MissionNodeData>, keys: seq<nat>, locks: seq<nat>, explorations: seq<nat>,
                          placedKeys: seq<int>, placed: seq<nat>, preset: seq<int>)
  {
    OfKind(g, keys, Key) && OfKind(g, locks, Lock) && OfKind(g, explorations, Exploration) && Within(g, placed) &&
    |Elements(KeyNrsOf(g, locks))| == |locks| &&
    (forall x :: x in KeyNrsOf(g, locks) ==> x in placedKeys || x in KeyNrsOf(g, keys)) &&
    |keys| <= |locks| <= |keys| + 1 &&
    placedKeys == preset + PlacedKeyNrs(g, placed) &&
    KeysBeforeLocks(g, placed, preset)
  }

  /** Drawing an exploration node keeps the pools valid. */
  lemma DrawExploration(g: seq<MissionNodeData>, keys: seq<nat>, locks: seq<nat>, explorations: seq<nat>,
                        placedKeys: seq<int>, placed: seq<nat>, preset: seq<int>, n: nat)
    requires PoolsOk(g, keys, locks, explorations, placedKeys, placed, preset)
    requires n in explorations
    ensures PoolsOk(g, keys, locks, RemoveFirst<nat>(explorations, n), placedKeys, placed + [n], preset)
  {
    RemoveKeepsKinds(g, explorations, n, Exploration);
    KeysBeforeLocksAppend(g, placed, preset, n);
    PlacedKeyNrsAppend(g, placed, n);
  }

  /** Drawing a key node when there are at least as many keys as locks, and
      recording its number, keeps the pools valid. */
  lemma DrawKey(g: seq<MissionNodeData>, keys: seq<nat>, locks: seq<nat>, explorations: seq<nat>,
                placedKeys: seq<int>, placed: seq<nat>, preset: seq<int>, n: nat)
    requires PoolsOk(g, keys, locks, explorations, placedKeys, placed, preset)
    requires n in keys && |keys| >= |locks|
    ensures n < |g|
    ensures PoolsOk(g, RemoveFirst<nat>(keys, n), locks, explorations, placedKeys + [g[n].keyNr], placed + [n], preset)
  {
    RemoveKeepsKinds(g, keys, n, Key);
    RemoveKeyNrs(g, keys, n);
    KeysBeforeLocksAppend(g, placed, preset, n);
    PlacedKeyNrsAppend(g, placed, n);
    var r := RemoveFirst<nat>(keys, n);
    forall x | x in KeyNrsOf(g, locks)
      ensures x in placedKeys + [g[n].keyNr] || x in KeyNrsOf(g, r)
    {
    }
  }

  /** When there are more locks than keys, every order of the lock pool has a
      lock whose key number is placed. */
  lemma LockAvailable(g: seq<MissionNodeData>, keys: seq<nat>, locks: seq<nat>, explorations: seq<nat>,
                      placedKeys: seq<int>, placed: seq<nat>, preset: seq<int>, shuffled: seq<nat>)
    requires PoolsOk(g, keys, locks, explorations, placedKeys, placed, preset)
    requires |locks| > |keys| && multiset(shuffled) == multiset(locks)
    ensures OfKind(g, shuffled, Lock)
    ensures exists j :: 0 <= j < |shuffled| && g[shuffled[j]].keyNr in placedKeys
  {
    ShuffleKeepsPool(g, locks, shuffled);
    forall x | x in KeyNrsOf(g, shuffled)
      ensures x in placedKeys || x in KeyNrsOf(g, keys)
    {
      assert x in Elements(KeyNrsOf(g, locks));
    }
    LockWithPlacedKey(KeyNrsOf(g, shuffled), KeyNrsOf(g, keys), placedKeys);
    var j :| 0 <= j < |shuffled| && KeyNrsOf(g, shuffled)[j] in placedKeys;
  }

  /** Drawing, from a reordering of the lock pool, a lock whose key number is
      placed keeps the pools valid when there are more locks than keys. */
  lemma DrawLock(g: seq<MissionNodeData>, keys: seq<nat>, locks: seq<nat>, explorations: seq<nat>,
                 placedKeys: seq<int>, placed: seq<nat>, preset: seq<int>, shuffled: seq<nat>, n: nat)
    requires PoolsOk(g, keys, locks, explorations, placedKeys, placed, preset)
    requires |locks| > |keys| && multiset(shuffled) == multiset(locks)
    requires n in shuffled && n < |g| && g[n].keyNr in placedKeys
    ensures PoolsOk(g, keys, RemoveFirst<nat>(shuffled, n), explorations, placedKeys, placed + [n], preset)
  {
    ShuffleKeepsPool(g, locks, shuffled);
    RemoveKeepsKinds(g, shuffled, n, Lock);
    RemoveKeyNrs(g, shuffled, n);
    RemoveKeepsKeyNrCount(g, shuffled, n);
    KeysBeforeLocksAppend(g, placed, preset, n);
    PlacedKeyNrsAppend(g, placed, n);
    var r := RemoveFirst<nat>(shuffled, n);
    forall x | x in KeyNrsOf(g, r)
      ensures x in placedKeys || x in KeyNrsOf(g, keys)
    {
      assert x in Elements(KeyNrsOf(g, locks));
    }
  }

  /** The pools as AddChallengeNodes and AddExplorationNodes leave them: as
      many keys as locks, the locks carrying pairwise different key numbers,
      each held by a key of the pool. */
  predicate FreshPools(g: seq<MissionNodeData>, keys: seq<nat>, locks: seq<nat>, explorations: seq<nat>) {
    OfKind(g, keys, Key) && OfKind(g, locks, Lock) && OfKind(g, explorations, Exploration) &&
    Distinct(KeyNrsOf(g, locks)) &&
    (forall x :: x in KeyNrsOf(g, locks) ==> x in KeyNrsOf(g, keys)) &&
    |keys| == |locks|
  }

  /** Fresh pools are valid before the first draw, whatever placedKeys holds. */
  lemma FreshPoolsOk(g: seq<MissionNodeData>, keys: seq<nat>, locks: seq<nat>, explorations: seq<nat>, placedKeys: seq<int>)
    requires FreshPools(g, keys, locks, explorations)
    ensures PoolsOk(g, keys, locks, explorations, placedKeys, [], placedKeys)
  {
    assert PlacedKeyNrs(g, []) == [];
    assert placedKeys + [] == placedKeys;
    DistinctSetSize(KeyNrsOf(g, locks));
  }

  /** Removing a drawn node and adding it back gives the pool's contents. */
  lemma RemoveFirstRestores(s: seq<nat>, n: nat)
    requires n in s
    ensures multiset(RemoveFirst<nat>(s, n)) + multiset{n} == multiset(s)
  {
    assert n in multiset(s);
  }

  /** One pool lost node n, the other two are unchanged. */
  lemma DrawnFrom(keys: multiset<nat>, locks: multiset<nat>, explorations: multiset<nat>,
                  keys': multiset<nat>, locks': multiset<nat>, explorations': multiset<nat>, n: nat)
    requires (keys' + multiset{n} == keys && locks' == locks && explorations' == explorations) ||
             (keys' == keys && locks' + multiset{n} == locks && explorations' == explorations) ||
             (keys' == keys && locks' == locks && explorations' + multiset{n} == explorations)
    ensures keys' + locks' + explorations' + multiset{n} == keys + locks + explorations
  {
  }

  /** Moving a drawn node from the pools to the placed nodes keeps their union. */
  lemma PlaceOne(placed: multiset<nat>, pools: multiset<nat>, pools': multiset<nat>, n: nat)
    requires pools' + multiset{n} == pools
    ensures placed + multiset{n} + pools' == placed + pools
  {
  }
}
