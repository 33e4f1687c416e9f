/**
 * The memtable layers above the skip list: the active memtable that takes writes, the frozen
 * (immutable) memtables that only answer reads, and the handler that routes a lookup through
 * them. In the Rust source a lock wraps each skip list; here each memtable is its skip list.
 */
module Memtables {
  import opened Entries
  import opened Versions
  import opened SkipLists

  /**
   * The first hit of a lookup routed through several memtables in order: the answer of the
   * earliest one that has a visible version, or none when every one misses.
   */
  function FirstHit(hits: seq<Option<LogEntry>>): (r: Option<LogEntry>)
    ensures r.Some? ==> exists k :: 0 <= k < |hits| && hits[k] == r && forall j :: 0 <= j < k ==> hits[j].None?
    ensures r.None? <==> forall k :: 0 <= k < |hits| ==> hits[k].None?
  {
    if hits == [] then None
    else if hits[0].Some? then hits[0]
    else
      var r := FirstHit(hits[1..]);
      assert forall k :: 1 <= k < |hits| ==> hits[k] == hits[1..][k - 1];
      r
  }

  /** The answer of the first hit does not depend on the misses that come before it. */
  lemma {:induction false} FirstHitSkip(hits: seq<Option<LogEntry>>, k: nat)
    requires k <= |hits| && forall j :: 0 <= j < k ==> hits[j].None?
    ensures FirstHit(hits) == FirstHit(hits[k..])
  {
    if k > 0 {
      assert hits[1..][k - 1..] == hits[k..];
      FirstHitSkip(hits[1..], k - 1);
    }
  }

  /** `Memtable`: the active write buffer, a skip list (behind a mutex in Javelin). */
  class Memtable {
    const list: SkipList

    ghost predicate Valid()
      reads list
    {
      list.Valid()
    }

    /** `Memtable::new`, with the number of levels of its skip list given. */
    constructor (numLevels: nat)
      requires numLevels >= 1
      ensures Valid() && fresh(list) && list.numLevels == numLevels
      ensures forall j :: 0 <= j < numLevels ==> list.Levels()[j] == []
    {
      list := new SkipList(numLevels);
    }

    /** `Memtable::insert`: the insertion of the wrapped skip list, and nothing else. */
    method Insert(e: LogEntry, coin: nat -> bool) returns (r: Outcome)
      requires Valid()
      modifies list
      ensures Valid()
      ensures (r, list.Levels()) == InsertSpec(old(list.Levels()), e, Height(list.numLevels, coin))
    {
      r := list.Insert(e, coin);
    }

    /**
     * `Memtable::get`: the lookup of the wrapped skip list, in its corrected form: the newest
     * version of `key` visible at `bound`. It changes nothing.
     */
    method Get(key: Bytes, bound: u64) returns (r: Option<LogEntry>)
      requires Valid()
      ensures r == FirstVisible(list.Levels()[0], key, bound)
      ensures r.Some? ==> r.value in list.Levels()[0] && Visible(r.value, key, bound) &&
                          forall x :: x in list.Levels()[0] && Visible(x, key, bound) ==> x.logSeqNum <= r.value.logSeqNum
      ensures r.None? <==> forall x :: x in list.Levels()[0] ==> !Visible(x, key, bound)
    {
      r := list.GetNewest(key, bound);
    }
  }

  /** The levels of a skip list, level 0 first; a list has at least one level. */
  type Levels = v: seq<seq<LogEntry>> | |v| >= 1 witness [[]]

  /**
   * `ImmutableMemtable`: a frozen memtable that answers lookups only. Its skip list is never
   * written again, so its levels are fixed when it is made.
   */
  class ImmutableMemtable {
    const list: SkipList
    ghost const levels: Levels

    ghost predicate Valid()
      reads list
    {
      list.Valid() && list.Levels() == levels
    }

    /**
     * `ImmutableMemtable::new`: takes over the skip list of `memtable`, so every lookup answers
     * as the memtable did just before.
     */
    constructor (memtable: Memtable)
      requires memtable.Valid()
      ensures Valid() && list == memtable.list && levels == memtable.list.Levels()
    {
      list := memtable.list;
      levels := memtable.list.Levels();
    }

    /** `ImmutableMemtable::get`: the (corrected) lookup of its skip list; it changes nothing. */
    method Get(key: Bytes, bound: u64) returns (r: Option<LogEntry>)
      requires Valid()
      ensures r == FirstVisible(levels[0], key, bound)
      ensures r.Some? ==> r.value in levels[0] && Visible(r.value, key, bound) &&
                          forall x :: x in levels[0] && Visible(x, key, bound) ==> x.logSeqNum <= r.value.logSeqNum
      ensures r.None? <==> forall x :: x in levels[0] ==> !Visible(x, key, bound)
    {
      r := list.GetNewest(key, bound);
    }
  }

  /** The answers of the frozen memtables to one lookup, in vector order. */
  ghost function FrozenHits(frozen: seq<ImmutableMemtable>, key: Bytes, bound: u64): (hits: seq<Option<LogEntry>>)
    ensures |hits| == |frozen|
    ensures forall k :: 0 <= k < |frozen| ==> hits[k] == FirstVisible(frozen[k].levels[0], key, bound)
  {
    seq(|frozen|, k requires 0 <= k < |frozen| => FirstVisible(frozen[k].levels[0], key, bound))
  }

  /**
   * The loop of `MemtableHandler::get` over (a copy of) the frozen memtables: ask each in vector
   * order and return the first hit; none when all miss.
   */
  method FrozenGet(frozen: seq<ImmutableMemtable>, key: Bytes, bound: u64) returns (r: Option<LogEntry>)
    requires forall k :: 0 <= k < |frozen| ==> frozen[k].Valid()
    ensures r == FirstHit(FrozenHits(frozen, key, bound))
    ensures r.Some? ==> Visible(r.value, key, bound)
  {
    ghost var hits := FrozenHits(frozen, key, bound);
    var k := 0;
    while k < |frozen|
      invariant 0 <= k <= |frozen|
      invariant forall j :: 0 <= j < |frozen| ==> frozen[j].Valid()
      invariant forall j :: 0 <= j < k ==> hits[j].None?
    {
      r := frozen[k].Get(key, bound);
      if r.Some? {
        FirstHitSkip(hits, k);
        assert hits[k..][0] == r;
        return;
      }
      k := k + 1;
    }
    FirstHitSkip(hits, k);
    r := None;
  }

  /** `MemtableHandler`: the active memtable and the frozen ones, oldest routing last. */
  class MemtableHandler {
    const active: Memtable
    var immutables: seq<ImmutableMemtable>

    /** Every memtable is well formed, and no frozen memtable shares the active one's skip list. */
    ghost predicate Valid()
      reads this, active.list, set m | m in immutables :: m.list
    {
      && active.Valid()
      && forall k :: 0 <= k < |immutables| ==> immutables[k].Valid() && immutables[k].list != active.list
    }

    /** `MemtableHandler::new`: a fresh active memtable and no frozen ones. */
    constructor (numLevels: nat)
      requires numLevels >= 1
      ensures Valid() && fresh(active) && fresh(active.list) && immutables == []
      ensures active.list.numLevels == numLevels
      ensures forall j :: 0 <= j < numLevels ==> active.list.Levels()[j] == []
    {
      active := new Memtable(numLevels);
      immutables := [];
    }

    /** `MemtableHandler::insert`: inserts into the active memtable; the frozen ones are untouched. */
    method Insert(e: LogEntry, coin: nat -> bool) returns (r: Outcome)
      requires Valid()
      modifies active.list
      ensures Valid()
      ensures (r, active.list.Levels()) == InsertSpec(old(active.list.Levels()), e, Height(active.list.numLevels, coin))
      ensures immutables == old(immutables)
    {
      r := active.Insert(e, coin);
    }

    /**
     * `MemtableHandler::get`: the active memtable answers first; on a miss the frozen memtables
     * are asked in vector order and the first hit is returned; none when all miss.
     */
    method Get(key: Bytes, bound: u64) returns (r: Option<LogEntry>)
      requires Valid()
      ensures var hit := FirstVisible(active.list.Levels()[0], key, bound);
              && (hit.Some? ==> r == hit)
              && (hit.None? ==> r == FirstHit(FrozenHits(immutables, key, bound)))
      ensures r == FirstHit([FirstVisible(active.list.Levels()[0], key, bound)] + FrozenHits(immutables, key, bound))
      ensures r.Some? ==> Visible(r.value, key, bound)
    {
      r := active.Get(key, bound);
      if r.Some? {
        return;
      }
      r := FrozenGet(immutables, key, bound);
      assert ([None] + FrozenHits(immutables, key, bound))[1..] == FrozenHits(immutables, key, bound);
    }
  }
}
