/**
 * The abstract view of the multi-version index: each level of the skip list read as the
 * sequence of records it links, in order. The pointer-level structure in module SkipLists is
 * proved against the reference definitions here.
 */
module Versions {
  import opened Entries
  import opened KeyOrder

  /** The only way an insertion can fail: the `(key, sequence)` pair is already stored (the source panics). */
  datatype InsertError = DuplicateVersion

  datatype Outcome = Pass | Fail(error: InsertError)

  /** `x` lies strictly before `y` in the index: ascending key, and newest first within one key. */
  predicate Before(x: LogEntry, y: LogEntry)
  {
    Keyed(x) && Keyed(y) &&
    (Cmp(x.entry.key, y.entry.key) == Less ||
     (x.entry.key == y.entry.key && x.logSeqNum > y.logSeqNum))
  }

  /** Two records for the same key with the same sequence number. */
  predicate SameVersion(x: LogEntry, y: LogEntry)
  {
    Keyed(x) && Keyed(y) && x.entry.key == y.entry.key && x.logSeqNum == y.logSeqNum
  }

  /** A level in index order: every record keyed and each one strictly before every later one. */
  ghost predicate Sorted(s: seq<LogEntry>)
  {
    && (forall k :: 0 <= k < |s| ==> Keyed(s[k]))
    && (forall p, q :: 0 <= p < q < |s| ==> Before(s[p], s[q]))
  }

  /** Some record of `s` has the key and the sequence number of `e`. */
  ghost predicate Stores(s: seq<LogEntry>, e: LogEntry)
  {
    exists x :: x in s && SameVersion(x, e)
  }

  lemma BeforeStrict(x: LogEntry, y: LogEntry)
    requires Before(x, y)
    ensures !Before(y, x) && !SameVersion(x, y) && x != y
  {
    CmpFlip(x.entry.key, y.entry.key);
    CmpEqual(x.entry.key, y.entry.key);
  }

  lemma BeforeTrans(x: LogEntry, y: LogEntry, z: LogEntry)
    requires Before(x, y) && Before(y, z)
    ensures Before(x, z)
  {
    if Cmp(x.entry.key, y.entry.key) == Less && Cmp(y.entry.key, z.entry.key) == Less {
      CmpLessTrans(x.entry.key, y.entry.key, z.entry.key);
    }
  }

  /** Any two keyed records are ordered one way or the other, unless they are the same version. */
  lemma BeforeTotal(x: LogEntry, y: LogEntry)
    requires Keyed(x) && Keyed(y)
    ensures Before(x, y) || Before(y, x) || SameVersion(x, y)
  {
    CmpFlip(x.entry.key, y.entry.key);
    CmpFlip(y.entry.key, x.entry.key);
    CmpEqual(x.entry.key, y.entry.key);
  }

  /** The records of a sorted level are pairwise distinct. */
  lemma SortedDistinct(s: seq<LogEntry>, p: int, q: int)
    requires Sorted(s) && 0 <= p < q < |s|
    ensures s[p] != s[q] && !SameVersion(s[p], s[q])
  {
    BeforeStrict(s[p], s[q]);
  }

  // ---------------------------------------------------------------------------
  // Insertion into one level

  /** The level `s` with `e` placed where index order puts it: after every record before it. */
  function Place(s: seq<LogEntry>, e: LogEntry): (r: seq<LogEntry>)
    ensures |r| == |s| + 1
  {
    if s == [] || !Before(s[0], e) then [e] + s
    else [s[0]] + Place(s[1..], e)
  }

  /** Placing adds exactly the one record: the contents of the level grow by `e` and nothing else. */
  lemma {:induction false} PlaceContents(s: seq<LogEntry>, e: LogEntry)
    ensures multiset(Place(s, e)) == multiset(s) + multiset{e}
  {
    if s != [] && Before(s[0], e) {
      PlaceContents(s[1..], e);
      assert s == [s[0]] + s[1..];
    }
  }

  /** When the records before index `p` all lie before `e` and the one at `p` does not, `e` goes at index `p`. */
  lemma {:induction false} PlaceAt(s: seq<LogEntry>, e: LogEntry, p: nat)
    requires p <= |s|
    requires forall q :: 0 <= q < p ==> Before(s[q], e)
    requires p < |s| ==> !Before(s[p], e)
    ensures Place(s, e) == s[..p] + [e] + s[p..]
  {
    if p == 0 {
      assert s[..0] == [] && s[0..] == s;
    } else {
      var t := s[1..];
      assert Before(s[0], e);
      PlaceAt(t, e, p - 1);
      assert s[..p] == [s[0]] + t[..p - 1];
      assert s[p..] == t[p - 1..];
    }
  }

  /** A record before every record of a sorted level can head it. */
  lemma ConsSorted(x: LogEntry, t: seq<LogEntry>)
    requires Sorted(t) && Keyed(x) && forall q :: 0 <= q < |t| ==> Before(x, t[q])
    ensures Sorted([x] + t)
  {
    var r := [x] + t;
    forall p, q | 0 <= p < q < |r| ensures Before(r[p], r[q]) {
      assert r[q] == t[q - 1];
      if p > 0 { assert r[p] == t[p - 1]; }
    }
  }

  /** Every record of `Place(t, e)` comes from `t` or is `e`. */
  lemma PlaceMember(t: seq<LogEntry>, e: LogEntry, q: nat)
    requires q < |Place(t, e)|
    ensures Place(t, e)[q] == e || exists k :: 0 <= k < |t| && t[k] == Place(t, e)[q]
  {
    var r := Place(t, e);
    PlaceContents(t, e);
    assert r[q] in multiset(r);
    if r[q] != e {
      assert r[q] in multiset(t);
      assert r[q] in t;
    }
  }

  /** Placing a record that is not yet stored keeps a level sorted. */
  lemma {:induction false} PlaceSorted(s: seq<LogEntry>, e: LogEntry)
    requires Sorted(s) && Keyed(e) && !Stores(s, e)
    ensures Sorted(Place(s, e))
  {
    if s == [] {
      ConsSorted(e, s);
    } else if !Before(s[0], e) {
      BeforeTotal(s[0], e);
      assert s[0] in s;
      forall q | 0 <= q < |s| ensures Before(e, s[q]) {
        if q > 0 { BeforeTrans(e, s[0], s[q]); }
      }
      ConsSorted(e, s);
    } else {
      var t := s[1..];
      assert forall x :: x in t ==> x in s;
      PlaceSorted(t, e);
      var r := Place(t, e);
      forall q | 0 <= q < |r| ensures Before(s[0], r[q]) {
        PlaceMember(t, e, q);
        if r[q] != e {
          var k :| 0 <= k < |t| && t[k] == r[q];
          assert s[k + 1] == r[q];
        }
      }
      ConsSorted(s[0], r);
      assert Place(s, e) == [s[0]] + r;
    }
  }

  // ---------------------------------------------------------------------------
  // Lookup within one level

  /** `x` is a version of `key` visible at snapshot `bound`. */
  predicate Visible(x: LogEntry, key: Bytes, bound: u64)
  {
    Keyed(x) && x.entry.key == key && x.logSeqNum <= bound
  }

  /** `x` lies before every visible version of `key`: a smaller key, or `key` itself at a newer sequence. */
  predicate PrecedesQuery(x: LogEntry, key: Bytes, bound: u64)
  {
    Keyed(x) &&
    (Cmp(x.entry.key, key) == Less || (x.entry.key == key && x.logSeqNum > bound))
  }

  /** The first visible version of `key` met when a level is scanned from the head. */
  function FirstVisible(s: seq<LogEntry>, key: Bytes, bound: u64): (r: Option<LogEntry>)
    ensures r.Some? ==> r.value in s && Visible(r.value, key, bound)
    ensures r.None? <==> forall x :: x in s ==> !Visible(x, key, bound)
  {
    if s == [] then None
    else if Visible(s[0], key, bound) then Some(s[0])
    else
      assert s == [s[0]] + s[1..];
      FirstVisible(s[1..], key, bound)
  }

  /** On a sorted level the first visible version is the newest visible one. */
  lemma {:induction false} FirstVisibleIsNewest(s: seq<LogEntry>, key: Bytes, bound: u64)
    requires Sorted(s)
    ensures var r := FirstVisible(s, key, bound);
            r.Some? ==> forall x :: x in s && Visible(x, key, bound) ==> x.logSeqNum <= r.value.logSeqNum
  {
    if s != [] && !Visible(s[0], key, bound) {
      assert forall x :: x in s[1..] ==> x in s;
      FirstVisibleIsNewest(s[1..], key, bound);
    } else if s != [] {
      forall x | x in s && Visible(x, key, bound) ensures x.logSeqNum <= s[0].logSeqNum {
        var q :| 0 <= q < |s| && s[q] == x;
        if q > 0 { CmpEqual(x.entry.key, key); }
      }
    }
  }

  lemma PrecedesQueryNotVisible(x: LogEntry, key: Bytes, bound: u64)
    requires PrecedesQuery(x, key, bound)
    ensures !Visible(x, key, bound)
  {
    CmpEqual(x.entry.key, key);
  }

  /** Whatever lies before a record that precedes the query precedes it too. */
  lemma PrecedesQueryBefore(x: LogEntry, y: LogEntry, key: Bytes, bound: u64)
    requires Before(x, y) && PrecedesQuery(y, key, bound)
    ensures PrecedesQuery(x, key, bound)
  {
    if Cmp(x.entry.key, y.entry.key) == Less && Cmp(y.entry.key, key) == Less {
      CmpLessTrans(x.entry.key, y.entry.key, key);
    }
  }

  /** Whatever lies after a record with a greater key has a greater key too. */
  lemma GreaterAfter(x: LogEntry, y: LogEntry, key: Bytes)
    requires Before(x, y) && Cmp(x.entry.key, key) == Greater
    ensures Cmp(y.entry.key, key) == Greater
  {
    CmpFlip(key, x.entry.key);
    CmpFlip(key, y.entry.key);
    if Cmp(x.entry.key, y.entry.key) == Less {
      CmpLessTrans(key, x.entry.key, y.entry.key);
    }
  }

  /** A scan that passed only records preceding the query and stops at a visible one has found the first. */
  lemma {:induction false} FirstVisibleAt(s: seq<LogEntry>, k: nat, key: Bytes, bound: u64)
    requires k < |s| && Visible(s[k], key, bound)
    requires forall q :: 0 <= q < k ==> PrecedesQuery(s[q], key, bound)
    ensures FirstVisible(s, key, bound) == Some(s[k])
  {
    if k > 0 {
      PrecedesQueryNotVisible(s[0], key, bound);
      FirstVisibleAt(s[1..], k - 1, key, bound);
    }
  }

  /** A scan that passed only records preceding the query and stops at the end or at a greater key finds nothing. */
  lemma FirstVisibleNone(s: seq<LogEntry>, k: nat, key: Bytes, bound: u64)
    requires Sorted(s) && k <= |s|
    requires forall q :: 0 <= q < k ==> PrecedesQuery(s[q], key, bound)
    requires k < |s| ==> Cmp(s[k].entry.key, key) == Greater
    ensures FirstVisible(s, key, bound) == None
  {
    forall x | x in s ensures !Visible(x, key, bound) {
      var q :| 0 <= q < |s| && s[q] == x;
      if q < k {
        PrecedesQueryNotVisible(x, key, bound);
      } else {
        if q > k { GreaterAfter(s[k], x, key); }
        CmpEqual(x.entry.key, key);
      }
    }
  }

  // ---------------------------------------------------------------------------
  // The whole index: one view per level, level 0 first

  /**
   * The invariant of the levels: each is sorted and each holds only records of level 0
   * (a sorted subset of a sorted sequence is a sub-chain of it).
   */
  ghost predicate WellOrdered(views: seq<seq<LogEntry>>)
  {
    && |views| >= 1
    && (forall j :: 0 <= j < |views| ==> Sorted(views[j]))
    && (forall j, x :: 0 <= j < |views| && x in views[j] ==> x in views[0])
  }

  /**
   * The lookup as `SkipList::get` performs it: from the top level down, the first level that
   * holds a visible version of `key` answers with its first one.
   */
  function TopDown(views: seq<seq<LogEntry>>, key: Bytes, bound: u64): Option<LogEntry>
    decreases |views|
  {
    if views == [] then None
    else
      match FirstVisible(views[|views| - 1], key, bound)
      case Some(x) => Some(x)
      case None => TopDown(views[..|views| - 1], key, bound)
  }

  /** Looking up through levels `0..i` asks level `i` first and falls back to the levels below it. */
  lemma TopDownStep(views: seq<seq<LogEntry>>, i: nat, key: Bytes, bound: u64)
    requires i < |views|
    ensures var hit := FirstVisible(views[i], key, bound);
            TopDown(views[..i + 1], key, bound) == if hit.Some? then hit else TopDown(views[..i], key, bound)
  {
    assert views[..i + 1][i] == views[i] && views[..i + 1][..i] == views[..i];
  }

  /**
   * When every level above 0 misses, the top-down lookup reaches level 0 and answers with its
   * first visible version: the walk is right whenever the hit is found on level 0.
   */
  lemma {:induction false} TopDownLevelZero(views: seq<seq<LogEntry>>, key: Bytes, bound: u64)
    requires |views| >= 1
    requires forall j :: 1 <= j < |views| ==> FirstVisible(views[j], key, bound).None?
    ensures TopDown(views, key, bound) == FirstVisible(views[0], key, bound)
  {
    if |views| > 1 {
      TopDownLevelZero(views[..|views| - 1], key, bound);
    }
  }

  /**
   * On well-ordered levels the top-down lookup finds a stored visible version exactly when one
   * exists, and with a single level it finds the newest one.
   */
  lemma {:induction false} TopDownSound(views: seq<seq<LogEntry>>, key: Bytes, bound: u64)
    requires WellOrdered(views)
    ensures var r := TopDown(views, key, bound);
            && (r.Some? ==> r.value in views[0] && Visible(r.value, key, bound))
            && (r.None? <==> FirstVisible(views[0], key, bound).None?)
            && (|views| == 1 ==> r == FirstVisible(views[0], key, bound))
  {
    var n := |views|;
    if n > 1 {
      var lower := views[..n - 1];
      assert WellOrdered(lower) by {
        forall j, x | 0 <= j < |lower| && x in lower[j] ensures x in lower[0] {
          assert lower[j] == views[j];
        }
      }
      TopDownSound(lower, key, bound);
    } else {
      assert views[..0] == [];
    }
  }

  // ---------------------------------------------------------------------------
  // Insertion into the whole index

  /** Place `e` in the levels below `height`; the levels from `height` up are unchanged. */
  function InsertViews(views: seq<seq<LogEntry>>, e: LogEntry, height: nat): (r: seq<seq<LogEntry>>)
    ensures |r| == |views|
  {
    seq(|views|, j requires 0 <= j < |views| => if j < height then Place(views[j], e) else views[j])
  }

  /**
   * What `SkipList::insert` does to the levels: an `Empty` mutation is ignored, a version already
   * stored is refused before anything changes, and any other record is placed in the levels
   * below its height.
   */
  ghost function InsertSpec(views: seq<seq<LogEntry>>, e: LogEntry, height: nat): (Outcome, seq<seq<LogEntry>>)
  {
    if !Keyed(e) then (Pass, views)
    else if |views| > 0 && Stores(views[0], e) then (Fail(DuplicateVersion), views)
    else (Pass, InsertViews(views, e, height))
  }

  /**
   * Insertion keeps the levels well ordered; a successful insertion of a keyed record adds
   * exactly that record to level 0; it fails exactly on a duplicate version.
   */
  lemma InsertKeepsOrder(views: seq<seq<LogEntry>>, e: LogEntry, height: nat)
    requires WellOrdered(views) && height >= 1
    ensures var (r, after) := InsertSpec(views, e, height);
            && WellOrdered(after)
            && (r.Fail? <==> Keyed(e) && Stores(views[0], e))
            && (r.Pass? && Keyed(e) ==> multiset(after[0]) == multiset(views[0]) + multiset{e})
            && (!(r.Pass? && Keyed(e)) ==> after == views)
  {
    if Keyed(e) && !Stores(views[0], e) {
      var after := InsertViews(views, e, height);
      PlaceContents(views[0], e);
      forall j | 0 <= j < |views| ensures Sorted(after[j]) {
        if j < height {
          assert !Stores(views[j], e) by {
            forall x | x in views[j] ensures !SameVersion(x, e) { assert x in views[0]; }
          }
          PlaceSorted(views[j], e);
        }
      }
      forall j, x | 0 <= j < |after| && x in after[j] ensures x in after[0] {
        assert after[0] == Place(views[0], e);
        assert e in multiset(after[0]);
        if j < height {
          PlaceContents(views[j], e);
          assert x in multiset(after[j]);
          if x != e { assert x in multiset(views[j]); assert x in views[0]; assert x in multiset(after[0]); }
        } else {
          assert x in views[0];
          assert x in multiset(after[0]);
        }
      }
    }
  }

  /**
   * A record whose key was not stored yet is what the top-down lookup returns right after its
   * insertion, at its own sequence number, whatever its height.
   */
  lemma GetAfterInsertFreshKey(views: seq<seq<LogEntry>>, e: LogEntry, height: nat)
    requires WellOrdered(views) && height >= 1 && Keyed(e)
    requires forall x :: x in views[0] ==> !(Keyed(x) && x.entry.key == e.entry.key)
    ensures TopDown(InsertSpec(views, e, height).1, e.entry.key, e.logSeqNum) == Some(e)
  {
    assert !Stores(views[0], e);
    InsertKeepsOrder(views, e, height);
    var after := InsertSpec(views, e, height).1;
    TopDownSound(after, e.entry.key, e.logSeqNum);
    assert e in multiset(after[0]);
    assert e in after[0] && Visible(e, e.entry.key, e.logSeqNum);
    var r := TopDown(after, e.entry.key, e.logSeqNum);
    assert r.value in multiset(after[0]);
  }

  /**
   * The newest visible version of the key just inserted, at its own sequence number, is the
   * record itself: insertion places it ahead of every older version of its key.
   */
  lemma NewestAfterInsert(s: seq<LogEntry>, e: LogEntry)
    requires Sorted(s) && Keyed(e) && !Stores(s, e)
    ensures FirstVisible(Place(s, e), e.entry.key, e.logSeqNum) == Some(e)
  {
    var t := Place(s, e);
    PlaceSorted(s, e);
    PlaceContents(s, e);
    FirstVisibleIsNewest(t, e.entry.key, e.logSeqNum);
    assert e in multiset(t);
    assert e in t && Visible(e, e.entry.key, e.logSeqNum);
    var r := FirstVisible(t, e.entry.key, e.logSeqNum);
    assert r.value in multiset(t);
    if r.value != e {
      assert r.value in multiset(s);
      assert SameVersion(r.value, e);
    }
  }
}
