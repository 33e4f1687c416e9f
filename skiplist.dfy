/**
 * The multi-version skip list, as an arena of nodes: node `m` holds the record `entries[m]` and
 * one optional successor index per level it takes part in, `links[m]`. Node 0 is the head
 * sentinel, with one link per level of the list. The ghost `chains[i]` lists the nodes that
 * level `i` links, in order from the head.
 */
module SkipLists {
  import opened Entries
  import opened KeyOrder
  import opened Versions

  type Links = seq<seq<Option<nat>>>

  /** The link that leaves position `k` of a chain: the node at index `k`, or none after the last node. */
  function NextAt(c: seq<nat>, k: nat): Option<nat>
    requires k <= |c|
  {
    if k < |c| then Some(c[k]) else None
  }

  /** The node at position `k` of the path head, `c[0]`, `c[1]`, …; position 0 is the head, node 0. */
  function PathAt(c: seq<nat>, k: nat): (m: nat)
    requires k <= |c|
    ensures m == 0 || m in c
  {
    if k == 0 then 0 else c[k - 1]
  }

  /** No node occurs twice in a chain. */
  ghost predicate Distinct(c: seq<nat>)
  {
    forall a, b :: 0 <= a < b < |c| ==> c[a] != c[b]
  }

  /** Chain `c` with node `n` inserted at index `p`. */
  function Spliced(c: seq<nat>, p: nat, n: nat): (c': seq<nat>)
    requires p <= |c|
    ensures |c'| == |c| + 1 && c'[p] == n
    ensures forall k :: 0 <= k < p ==> c'[k] == c[k]
    ensures forall k :: p < k < |c'| ==> c'[k] == c[k - 1]
  {
    c[..p] + [n] + c[p..]
  }

  /** The links with the level-`lvl` link of node `m` set to `target`. */
  function Relink(links: Links, m: nat, lvl: nat, target: Option<nat>): (r: Links)
    requires m < |links| && lvl < |links[m]|
    ensures |r| == |links| && |r[m]| == |links[m]| && r[m][lvl] == target
    ensures forall m' :: 0 <= m' < |links| && m' != m ==> r[m'] == links[m']
    ensures forall j :: 0 <= j < |links[m]| && j != lvl ==> r[m][j] == links[m][j]
  {
    links[m := links[m][lvl := target]]
  }

  /**
   * Following level `lvl` from the head visits exactly the nodes of `c`, in order, and then
   * stops: the link leaving each position of the path leads to the next one.
   */
  ghost predicate IsChain(links: Links, lvl: nat, c: seq<nat>)
  {
    && |links| > 0 && lvl < |links[0]|
    && (forall m :: m in c ==> 0 < m < |links| && lvl < |links[m]|)
    && (forall k {:trigger PathAt(c, k)} :: 0 <= k <= |c| ==> links[PathAt(c, k)][lvl] == NextAt(c, k))
  }

  lemma ChainStep(links: Links, lvl: nat, c: seq<nat>, k: nat)
    requires IsChain(links, lvl, c) && k <= |c|
    ensures PathAt(c, k) < |links| && lvl < |links[PathAt(c, k)]|
    ensures links[PathAt(c, k)][lvl] == NextAt(c, k)
    ensures k < |c| ==> PathAt(c, k + 1) == c[k] && c[k] in c
  {
  }

  /** A chain is unaffected by link changes at other levels and by nodes appended to the arena. */
  lemma ChainFrame(links: Links, links': Links, lvl: nat, c: seq<nat>)
    requires IsChain(links, lvl, c) && |links'| >= |links|
    requires forall m :: 0 <= m < |links| ==>
               |links'[m]| == |links[m]| && (lvl < |links[m]| ==> links'[m][lvl] == links[m][lvl])
    ensures IsChain(links', lvl, c)
  {
    forall k | 0 <= k <= |c| ensures links'[PathAt(c, k)][lvl] == NextAt(c, k) {
      ChainStep(links, lvl, c, k);
    }
  }

  /**
   * The splice of `SkipList::insert` at one level: the new node `n` takes over the link of the
   * node at position `p`, which then points to `n`. The chain gains `n` at index `p`.
   */
  lemma SpliceChain(links: Links, lvl: nat, c: seq<nat>, p: nat, n: nat)
    requires IsChain(links, lvl, c) && p <= |c|
    requires 0 < n < |links| && lvl < |links[n]| && n !in c
    requires Distinct(c)
    ensures var u := PathAt(c, p);
            u < |links| && lvl < |links[u]| &&
            IsChain(Relink(Relink(links, n, lvl, links[u][lvl]), u, lvl, Some(n)), lvl, Spliced(c, p, n))
  {
    ChainStep(links, lvl, c, p);
    var u := PathAt(c, p);
    var l1 := Relink(links, n, lvl, links[u][lvl]);
    var l2 := Relink(l1, u, lvl, Some(n));
    var c' := Spliced(c, p, n);
    assert u != n;
    forall m | m in c' ensures 0 < m < |l2| && lvl < |l2[m]| {
      if m != n { assert m in c; }
    }
    forall k | 0 <= k <= |c'| ensures l2[PathAt(c', k)][lvl] == NextAt(c', k) {
      if k < p {
        ChainStep(links, lvl, c, k);
        var w := PathAt(c, k);
        assert PathAt(c', k) == w;
        assert w != u by {
          if k > 0 { assert c[k - 1] != c[p - 1]; }
        }
        assert NextAt(c', k) == NextAt(c, k);
      } else if k == p {
        assert PathAt(c', k) == u;
      } else if k == p + 1 {
        assert PathAt(c', k) == n;
        assert NextAt(c', k) == NextAt(c, p);
      } else {
        ChainStep(links, lvl, c, k - 1);
        var w := PathAt(c, k - 1);
        assert PathAt(c', k) == w == c[k - 2];
        assert w != u by {
          if p > 0 { assert c[k - 2] != c[p - 1]; }
        }
        assert NextAt(c', k) == NextAt(c, k - 1);
      }
    }
  }

  /** The records a chain links, in order. */
  ghost function View(entries: seq<LogEntry>, c: seq<nat>): (v: seq<LogEntry>)
    requires forall k :: 0 <= k < |c| ==> c[k] < |entries|
    ensures |v| == |c| && forall k :: 0 <= k < |c| ==> v[k] == entries[c[k]]
  {
    seq(|c|, k requires 0 <= k < |c| => entries[c[k]])
  }

  ghost predicate InRange(entries: seq<LogEntry>, chains: seq<seq<nat>>)
  {
    forall i, k :: 0 <= i < |chains| && 0 <= k < |chains[i]| ==> chains[i][k] < |entries|
  }

  /** The records of every level, level 0 first. */
  ghost function Views(entries: seq<LogEntry>, chains: seq<seq<nat>>): (v: seq<seq<LogEntry>>)
    requires InRange(entries, chains)
    ensures |v| == |chains| && forall i :: 0 <= i < |chains| ==> v[i] == View(entries, chains[i])
  {
    seq(|chains|, i requires 0 <= i < |chains| => View(entries, chains[i]))
  }

  /**
   * The skip list invariant: the head holds the default record and one link per level; every
   * other node holds a keyed record and between 1 and `numLevels` links; level `i` links, in
   * index order, exactly the nodes with more than `i` links.
   */
  ghost predicate WellFormed(entries: seq<LogEntry>, links: Links, chains: seq<seq<nat>>, numLevels: nat)
  {
    && numLevels >= 1
    && |entries| == |links| >= 1
    && entries[0] == Default()
    && |links[0]| == numLevels
    && |chains| == numLevels
    && (forall m :: 0 < m < |links| ==> 1 <= |links[m]| <= numLevels && Keyed(entries[m]))
    && (forall i {:trigger IsChain(links, i, chains[i])} :: 0 <= i < numLevels ==> IsChain(links, i, chains[i]))
    && (forall i, m {:trigger m in chains[i]} :: 0 <= i < numLevels && 0 < m < |links| ==> (m in chains[i] <==> i < |links[m]|))
    && InRange(entries, chains)
    && (forall i {:trigger View(entries, chains[i])} :: 0 <= i < numLevels ==> Sorted(View(entries, chains[i])))
  }

  /** The nodes of a chain are distinct, since their records are strictly ordered. */
  lemma ChainDistinct(entries: seq<LogEntry>, links: Links, chains: seq<seq<nat>>, numLevels: nat, i: nat)
    requires WellFormed(entries, links, chains, numLevels) && i < numLevels
    ensures Distinct(chains[i])
  {
    var v := View(entries, chains[i]);
    forall a, b | 0 <= a < b < |chains[i]| ensures chains[i][a] != chains[i][b] {
      SortedDistinct(v, a, b);
    }
  }

  /** Every level's records are sorted and belong to level 0. */
  lemma ViewsWellOrdered(entries: seq<LogEntry>, links: Links, chains: seq<seq<nat>>, numLevels: nat)
    requires WellFormed(entries, links, chains, numLevels)
    ensures WellOrdered(Views(entries, chains))
  {
    var v := Views(entries, chains);
    forall j, x | 0 <= j < |v| && x in v[j] ensures x in v[0] {
      var k :| 0 <= k < |v[j]| && v[j][k] == x;
      var m := chains[j][k];
      assert m in chains[j];
      assert m in chains[0];
      var k0 :| 0 <= k0 < |chains[0]| && chains[0][k0] == m;
      assert v[0][k0] == x;
    }
  }

  /** Appending record `e` as node `|entries|` and splicing that node into a chain at index `p`. */
  lemma SpliceView(entries: seq<LogEntry>, c: seq<nat>, p: nat, e: LogEntry)
    requires p <= |c| && forall k :: 0 <= k < |c| ==> c[k] < |entries|
    ensures View(entries + [e], c) == View(entries, c)
    ensures View(entries + [e], Spliced(c, p, |entries|)) == View(entries, c)[..p] + [e] + View(entries, c)[p..]
  {
    var v := View(entries, c);
    var c' := Spliced(c, p, |entries|);
    var w := View(entries + [e], c');
    assert |w| == |v[..p] + [e] + v[p..]|;
    forall k | 0 <= k < |w| ensures w[k] == (v[..p] + [e] + v[p..])[k] {
      if k < p {
        assert c'[k] == c[k];
      } else if k > p {
        assert c'[k] == c[k - 1];
      }
    }
  }

  /** Splicing node `n` into chain `c` at index `p` adds `n` and nothing else to its members. */
  lemma SpliceMembers(c: seq<nat>, p: nat, n: nat)
    requires p <= |c|
    ensures forall m :: m in Spliced(c, p, n) <==> m in c || m == n
  {
    assert c == c[..p] + c[p..];
  }

  /**
   * One level after the splice: chain `c'` is `c` with the new node `|entries|` at index `p` when
   * `spliced`, and `c` itself otherwise. Its records are then `Place`d or unchanged.
   */
  lemma SpliceLevel(entries: seq<LogEntry>, c: seq<nat>, e: LogEntry, spliced: bool, p: nat, c': seq<nat>)
    requires forall k :: 0 <= k < |c| ==> c[k] < |entries|
    requires spliced ==> p <= |c| && c' == Spliced(c, p, |entries|)
    requires spliced ==> forall q :: 0 <= q < p ==> Before(entries[c[q]], e)
    requires spliced ==> forall q :: p <= q < |c| ==> Before(e, entries[c[q]])
    requires !spliced ==> c' == c
    ensures forall k :: 0 <= k < |c'| ==> c'[k] < |entries| + 1
    ensures forall m :: m in c' <==> m in c || (spliced && m == |entries|)
    ensures View(entries + [e], c') == if spliced then Place(View(entries, c), e) else View(entries, c)
  {
    if spliced {
      SpliceView(entries, c, p, e);
      SpliceMembers(c, p, |entries|);
      if p < |c| {
        BeforeStrict(e, View(entries, c)[p]);
      }
      PlaceAt(View(entries, c), e, p);
    } else {
      SpliceView(entries, c, 0, e);
    }
    forall k | 0 <= k < |c'| ensures c'[k] < |entries| + 1 {
      assert c'[k] in c';
      if c'[k] in c {
        var q :| 0 <= q < |c| && c[q] == c'[k];
      }
    }
  }

  /**
   * The state of the splice loop after `i` of its `level` rounds: node `n == |links0|` is appended
   * with `level` links, the chains below `i` hold `n` at their split positions, the others are
   * untouched, and every chain is still followed by the links.
   */
  ghost predicate SpliceInv(links0: Links, chains0: seq<seq<nat>>, numLevels: nat, level: nat, pos: seq<nat>,
                            i: nat, links: Links, chains: seq<seq<nat>>)
  {
    var n := |links0|;
    && 1 <= level <= numLevels && |pos| == level && i <= level
    && n >= 1 && |links| == n + 1 && |links[n]| == level
    && (forall m :: 0 <= m < n ==> |links[m]| == |links0[m]|)
    && |chains0| == numLevels && |chains| == numLevels
    && (forall j :: 0 <= j < level ==> pos[j] <= |chains0[j]|)
    && (forall j :: 0 <= j < numLevels ==> Distinct(chains0[j]) && forall m :: m in chains0[j] ==> m < n)
    && (forall j :: 0 <= j < i ==> chains[j] == Spliced(chains0[j], pos[j], n))
    && (forall j :: i <= j < numLevels ==> chains[j] == chains0[j])
    && (forall j :: 0 <= j < numLevels ==> IsChain(links, j, chains[j]))
  }

  /** Appending the new node, with no links yet, starts the splice loop. */
  lemma SpliceBegin(entries: seq<LogEntry>, links: Links, chains: seq<seq<nat>>, numLevels: nat,
                    level: nat, pos: seq<nat>, links': Links)
    requires WellFormed(entries, links, chains, numLevels) && 1 <= level <= numLevels && |pos| == level
    requires forall j :: 0 <= j < level ==> pos[j] <= |chains[j]|
    requires links' == links + [seq(level, _ => None)]
    ensures SpliceInv(links, chains, numLevels, level, pos, 0, links', chains)
  {
    forall j | 0 <= j < numLevels
      ensures Distinct(chains[j]) && (forall m :: m in chains[j] ==> m < |links|)
      ensures IsChain(links', j, chains[j])
    {
      ChainDistinct(entries, links, chains, numLevels, j);
      assert IsChain(links, j, chains[j]);
      ChainFrame(links, links', j, chains[j]);
    }
  }

  /** One round of the splice loop, at level `i` after node `u`, keeps the loop state. */
  lemma SpliceNext(links0: Links, chains0: seq<seq<nat>>, numLevels: nat, level: nat, pos: seq<nat>,
                   i: nat, links: Links, chains: seq<seq<nat>>, u: nat)
    requires SpliceInv(links0, chains0, numLevels, level, pos, i, links, chains) && i < level
    requires u == PathAt(chains0[i], pos[i])
    ensures u < |links0| && i < |links[u]| && i < |links[|links0|]|
    ensures var n := |links0|;
            SpliceInv(links0, chains0, numLevels, level, pos, i + 1,
                      Relink(Relink(links, n, i, links[u][i]), u, i, Some(n)),
                      chains[i := Spliced(chains0[i], pos[i], n)])
  {
    var n := |links0|;
    assert IsChain(links, i, chains[i]);
    ChainStep(links, i, chains[i], pos[i]);
    SpliceChain(links, i, chains[i], pos[i], n);
    var l2 := Relink(Relink(links, n, i, links[u][i]), u, i, Some(n));
    forall j | 0 <= j < numLevels && j != i ensures IsChain(l2, j, chains[j]) {
      assert IsChain(links, j, chains[j]);
      ChainFrame(links, l2, j, chains[j]);
    }
  }

  /**
   * The state the splice loop of `SkipList::insert` leaves behind is well formed again, and its
   * levels are the old ones with `e` placed in the levels below `level`.
   */
  lemma SpliceWellFormed(entries: seq<LogEntry>, links: Links, chains: seq<seq<nat>>, numLevels: nat,
                         e: LogEntry, level: nat, pos: seq<nat>,
                         entries': seq<LogEntry>, links': Links, chains': seq<seq<nat>>)
    requires WellFormed(entries, links, chains, numLevels)
    requires Keyed(e) && !Stores(Views(entries, chains)[0], e) && entries' == entries + [e]
    requires SpliceInv(links, chains, numLevels, level, pos, level, links', chains')
    requires forall j, q :: 0 <= j < level && 0 <= q < pos[j] ==> Before(entries[chains[j][q]], e)
    requires forall j, q :: 0 <= j < level && pos[j] <= q < |chains[j]| ==> Before(e, entries[chains[j][q]])
    ensures WellFormed(entries', links', chains', numLevels)
    ensures Views(entries', chains') == InsertViews(Views(entries, chains), e, level)
  {
    var n := |links|;
    var before := Views(entries, chains);
    var after := InsertViews(before, e, level);
    ViewsWellOrdered(entries, links, chains, numLevels);
    InsertKeepsOrder(before, e, level);
    assert WellOrdered(after);
    forall j | 0 <= j < numLevels
      ensures forall k :: 0 <= k < |chains'[j]| ==> chains'[j][k] < |entries'|
      ensures forall m :: m in chains'[j] <==> m in chains[j] || (j < level && m == n)
      ensures View(entries', chains'[j]) == after[j]
    {
      if j < level {
        SpliceLevel(entries, chains[j], e, true, pos[j], chains'[j]);
      } else {
        SpliceLevel(entries, chains[j], e, false, 0, chains'[j]);
      }
    }
    assert InRange(entries', chains');
    forall i, m | 0 <= i < numLevels && 0 < m < |links'| ensures m in chains'[i] <==> i < |links'[m]| {
      if m == n {
        assert m !in chains[i];
      }
    }
    forall i | 0 <= i < numLevels ensures Sorted(View(entries', chains'[i])) {
      assert View(entries', chains'[i]) == after[i];
    }
    assert Views(entries', chains') == after;
  }

  /** `random_level`, driven by the outcomes of the coin: climb while below `numLevels` and the coin says so. */
  function Climb(numLevels: nat, coin: nat -> bool, lvl: nat): (h: nat)
    requires lvl >= 1
    ensures lvl <= h && (h == lvl || h <= numLevels)
    ensures forall j: nat :: lvl - 1 <= j < h - 1 ==> coin(j)
    ensures h < numLevels ==> !coin(h - 1)
    decreases numLevels - lvl
  {
    if lvl < numLevels && coin(lvl - 1) then Climb(numLevels, coin, lvl + 1) else lvl
  }

  /**
   * The level `random_level` draws: one more than the number of leading successful flips, at
   * least 1 and at most `max(1, numLevels)`.
   */
  function Height(numLevels: nat, coin: nat -> bool): (h: nat)
    ensures 1 <= h <= if numLevels >= 1 then numLevels else 1
    ensures forall j: nat :: j < h - 1 ==> coin(j)
    ensures h < numLevels ==> !coin(h - 1)
  {
    Climb(numLevels, coin, 1)
  }

  class SkipList {
    var entries: seq<LogEntry>
    var links: Links
    ghost var chains: seq<seq<nat>>
    const numLevels: nat

    ghost predicate Valid()
      reads this
    {
      WellFormed(entries, links, chains, numLevels)
    }

    /** The records of each level, level 0 first. */
    ghost function Levels(): (v: seq<seq<LogEntry>>)
      reads this
      requires Valid()
      ensures |v| == numLevels
    {
      Views(entries, chains)
    }

    /** `SkipList::new`, given the number of levels: a head with `numLevels` empty links. */
    constructor (numLevels: nat)
      requires numLevels >= 1
      ensures Valid() && this.numLevels == numLevels
      ensures entries == [Default()]
      ensures |links| == 1 && forall j :: 0 <= j < numLevels ==> links[0][j] == None
      ensures forall j :: 0 <= j < numLevels ==> Levels()[j] == []
    {
      this.numLevels := numLevels;
      entries := [Default()];
      links := [seq(numLevels, _ => None)];
      chains := seq(numLevels, _ => []);
    }

    /** `random_level`, with the coin flips as an oracle (`coin(j)` is the outcome of the j-th flip). */
    method RandomLevel(coin: nat -> bool) returns (lvl: nat)
      ensures lvl == Height(numLevels, coin)
    {
      lvl := 1;
      while lvl < numLevels && coin(lvl - 1)
        invariant 1 <= lvl
        invariant Climb(numLevels, coin, lvl) == Height(numLevels, coin)
        decreases numLevels - lvl
      {
        lvl := lvl + 1;
      }
    }

    /** The split positions of the search, unpacked level by level. */
    lemma SplitFacts(e: LogEntry, level: nat, update: seq<nat>, pos: seq<nat>)
      requires Valid() && 1 <= level <= numLevels && |update| == level && |pos| == level
      requires forall j :: 0 <= j < level ==> SplitAt(j, e, update[j], pos[j])
      ensures forall j :: 0 <= j < level ==> pos[j] <= |chains[j]| && update[j] == PathAt(chains[j], pos[j])
      ensures forall j, q :: 0 <= j < level && 0 <= q < pos[j] ==> Before(entries[chains[j][q]], e)
      ensures forall j, q :: 0 <= j < level && pos[j] <= q < |chains[j]| ==> Before(e, entries[chains[j][q]])
    {
      forall j, q | 0 <= j < level && 0 <= q < pos[j] ensures Before(entries[chains[j][q]], e) {
        assert SplitAt(j, e, update[j], pos[j]);
      }
      forall j, q | 0 <= j < level && pos[j] <= q < |chains[j]| ensures Before(e, entries[chains[j][q]]) {
        assert SplitAt(j, e, update[j], pos[j]);
      }
    }

    /**
     * The splice loop of `SkipList::insert`: a new node with `level` links takes, at each level
     * below `level`, the link of the node the search stopped at, which then points to it.
     */
    method Splice(e: LogEntry, level: nat, update: seq<nat>, ghost pos: seq<nat>)
      requires Valid() && Keyed(e) && 1 <= level <= numLevels && !Stores(Levels()[0], e)
      requires |update| == level && |pos| == level
      requires forall j :: 0 <= j < level ==> SplitAt(j, e, update[j], pos[j])
      modifies this
      ensures Valid()
      ensures entries == old(entries) + [e]
      ensures Levels() == InsertViews(old(Levels()), e, level)
    {
      ghost var entries0, links0, chains0 := entries, links, chains;
      SplitFacts(e, level, update, pos);
      var n := |links|;
      entries := entries + [e];
      links := links + [seq(level, _ => None)];
      SpliceBegin(entries0, links0, chains0, numLevels, level, pos, links);
      var i := 0;
      while i < level
        invariant entries == entries0 + [e]
        invariant SpliceInv(links0, chains0, numLevels, level, pos, i, links, chains)
        decreases level - i
      {
        var u := update[i];
        SpliceNext(links0, chains0, numLevels, level, pos, i, links, chains, u);
        links := Relink(links, n, i, links[u][i]);
        links := Relink(links, u, i, Some(n));
        chains := chains[i := Spliced(chains0[i], pos[i], n)];
        i := i + 1;
      }
      SpliceWellFormed(entries0, links0, chains0, numLevels, e, level, pos, entries, links, chains);
    }

    /**
     * `SkipList::insert`, with the coin flips of `random_level` as an oracle: an `Empty` mutation
     * is ignored; otherwise the level is drawn, the search runs, and a version already stored is
     * refused before any link changes (the source panics there); any other record is spliced in.
     */
    method Insert(e: LogEntry, coin: nat -> bool) returns (r: Outcome)
      requires Valid()
      modifies this
      ensures Valid()
      ensures (r, Levels()) == InsertSpec(old(Levels()), e, Height(numLevels, coin))
      ensures r.Pass? && Keyed(e) ==> entries == old(entries) + [e]
      ensures !(r.Pass? && Keyed(e)) ==> entries == old(entries) && links == old(links) && chains == old(chains)
    {
      var key := KeyOf(e.entry);
      if key.None? {
        return Pass;
      }
      var level := RandomLevel(coin);
      var update, dup, pos := FindPredecessors(e, level);
      if dup {
        return Fail(DuplicateVersion);
      }
      Splice(e, level, update, pos);
      r := Pass;
    }


    /** Entering level `i` at node `cur` during a lookup: its position there, past records that all precede the query. */
    lemma EnterScan(i: nat, cur: nat, key: Bytes, bound: u64) returns (k: nat)
      requires Valid() && i < numLevels && cur < |links|
      requires cur != 0 ==> i < |links[cur]| && PrecedesQuery(entries[cur], key, bound)
      ensures k <= |chains[i]| && cur == PathAt(chains[i], k)
      ensures forall q :: 0 <= q < k ==> PrecedesQuery(entries[chains[i][q]], key, bound)
    {
      var c := chains[i];
      var v := Levels()[i];
      k := 0;
      if cur != 0 {
        assert cur in c;
        var j :| 0 <= j < |c| && c[j] == cur;
        k := j + 1;
        forall q | 0 <= q < k ensures PrecedesQuery(v[q], key, bound) {
          if q < k - 1 {
            assert Before(v[q], v[k - 1]);
            PrecedesQueryBefore(v[q], v[k - 1], key, bound);
          }
        }
      }
    }

    /** A lookup walk that stops at index `k` of level `i` on a visible version has found the level's first one. */
    lemma ScanHit(i: nat, k: nat, key: Bytes, bound: u64)
      requires Valid() && i < numLevels && k < |chains[i]|
      requires forall q :: 0 <= q < k ==> PrecedesQuery(entries[chains[i][q]], key, bound)
      requires Visible(entries[chains[i][k]], key, bound)
      ensures FirstVisible(Levels()[i], key, bound) == Some(entries[chains[i][k]])
    {
      FirstVisibleAt(Levels()[i], k, key, bound);
    }

    /** A lookup walk that stops at index `k` of level `i`, at the end or before a greater key, finds nothing there. */
    lemma ScanMiss(i: nat, k: nat, key: Bytes, bound: u64)
      requires Valid() && i < numLevels && k <= |chains[i]|
      requires forall q :: 0 <= q < k ==> PrecedesQuery(entries[chains[i][q]], key, bound)
      requires k < |chains[i]| ==> Keyed(entries[chains[i][k]]) && Cmp(entries[chains[i][k]].entry.key, key) == Greater
      ensures FirstVisible(Levels()[i], key, bound) == None
    {
      FirstVisibleNone(Levels()[i], k, key, bound);
    }

    /**
     * The walk of one level in `SkipList::get`, from node `start`: advance past smaller keys and
     * past versions of `key` newer than `bound`; stop at the end or at a greater key, or report
     * the visible version met. `cur` is the last node passed.
     */
    method ScanLevel(key: Bytes, bound: u64, i: nat, start: nat) returns (cur: nat, hit: Option<LogEntry>)
      requires Valid() && i < numLevels && start < |links|
      requires start != 0 ==> i < |links[start]| && PrecedesQuery(entries[start], key, bound)
      ensures hit == FirstVisible(Levels()[i], key, bound)
      ensures cur < |links| && (cur != 0 ==> i < |links[cur]| && PrecedesQuery(entries[cur], key, bound))
    {
      ghost var c := chains[i];
      cur, hit := start, None;
      ghost var k := EnterScan(i, cur, key, bound);
      while true
        invariant k <= |c| && cur == PathAt(c, k)
        invariant forall q :: 0 <= q < k ==> PrecedesQuery(entries[c[q]], key, bound)
        decreases |c| - k
      {
        ChainStep(links, i, c, k);
        var next := links[cur][i];
        if next.None? {
          ScanMiss(i, k, key, bound);
          break;
        }
        var nx := next.value;
        assert k < |c| && nx == c[k] && PathAt(c, k + 1) == nx;
        assert nx in c;
        assert Keyed(entries[nx]);
        match Cmp(entries[nx].entry.key, key)
        case Less =>
          cur, k := nx, k + 1;
        case Equal =>
          CmpEqual(entries[nx].entry.key, key);
          if entries[nx].logSeqNum <= bound {
            hit := Some(entries[nx]);
            ScanHit(i, k, key, bound);
            break;
          }
          cur, k := nx, k + 1;
        case Greater =>
          ScanMiss(i, k, key, bound);
          break;
      }
      if cur != 0 {
        assert cur == c[k - 1];
      }
    }

    /**
     * `SkipList::get`, as written: from the top level down, the first visible version of `key`
     * met on any level is returned at once. With a single level that is the newest visible
     * version; with more levels it can be an older one (see `GetNewest`).
     */
    method Get(key: Bytes, bound: u64) returns (r: Option<LogEntry>)
      requires Valid()
      ensures r == TopDown(Levels(), key, bound)
      ensures r.Some? ==> r.value in Levels()[0] && Visible(r.value, key, bound)
      ensures r.None? <==> forall x :: x in Levels()[0] ==> !Visible(x, key, bound)
      ensures numLevels == 1 ==> r == FirstVisible(Levels()[0], key, bound)
      ensures (forall j :: 1 <= j < numLevels ==> FirstVisible(Levels()[j], key, bound).None?) ==>
                r == FirstVisible(Levels()[0], key, bound)
    {
      ghost var views := Levels();
      LookupSound(key, bound);
      assert views[..numLevels] == views;
      var cur: nat := 0;
      var i: nat := numLevels;
      while i > 0
        invariant Valid() && Levels() == views
        invariant i <= numLevels && cur < |links|
        invariant cur != 0 ==> i <= |links[cur]| && PrecedesQuery(entries[cur], key, bound)
        invariant TopDown(views, key, bound) == TopDown(views[..i], key, bound)
      {
        i := i - 1;
        var hit;
        cur, hit := ScanLevel(key, bound, i, cur);
        TopDownStep(views, i, key, bound);
        if hit.Some? {
          return hit;
        }
      }
      r := None;
    }

    /** What the top-down lookup over the levels of a well-formed list can answer. */
    lemma LookupSound(key: Bytes, bound: u64)
      requires Valid()
      ensures var r := TopDown(Levels(), key, bound);
              && (r.Some? ==> r.value in Levels()[0] && Visible(r.value, key, bound))
              && (r.None? <==> forall x :: x in Levels()[0] ==> !Visible(x, key, bound))
              && (numLevels == 1 ==> r == FirstVisible(Levels()[0], key, bound))
              && ((forall j :: 1 <= j < numLevels ==> FirstVisible(Levels()[j], key, bound).None?) ==>
                    r == FirstVisible(Levels()[0], key, bound))
    {
      ViewsWellOrdered(entries, links, chains, numLevels);
      TopDownSound(Levels(), key, bound);
      if forall j :: 1 <= j < numLevels ==> FirstVisible(Levels()[j], key, bound).None? {
        TopDownLevelZero(Levels(), key, bound);
      }
    }

    /**
     * The lookup `SkipList::get` is evidently meant to be: a visible version met above level 0
     * only ends that level's walk, and the answer is read at level 0, where every version is
     * linked; it is the newest version of `key` with a sequence number at most `bound`.
     */
    method GetNewest(key: Bytes, bound: u64) returns (r: Option<LogEntry>)
      requires Valid()
      ensures r == FirstVisible(Levels()[0], key, bound)
      ensures r.Some? ==> r.value in Levels()[0] && Visible(r.value, key, bound) &&
                          forall x :: x in Levels()[0] && Visible(x, key, bound) ==> x.logSeqNum <= r.value.logSeqNum
      ensures r.None? <==> forall x :: x in Levels()[0] ==> !Visible(x, key, bound)
    {
      ghost var views := Levels();
      FirstVisibleIsNewest(views[0], key, bound);
      var cur: nat := 0;
      var i: nat := numLevels;
      r := None;
      while i > 0
        invariant i <= numLevels && cur < |links|
        invariant cur != 0 ==> i <= |links[cur]| && PrecedesQuery(entries[cur], key, bound)
        invariant |views| == numLevels
        invariant i < numLevels ==> r == FirstVisible(views[i], key, bound)
      {
        i := i - 1;
        cur, r := ScanLevel(key, bound, i, cur);
      }
    }


    lemma StoredNode(m: nat)
      requires Valid() && 0 < m < |links|
      ensures entries[m] in Levels()[0]
    {
      assert 0 < |links[m]|;
      assert m in chains[0];
      var k :| 0 <= k < |chains[0]| && chains[0][k] == m;
      assert Levels()[0][k] == entries[m];
    }

    /**
     * The search position of `e` at level `j`: node `u` sits at position `p` of the chain, every
     * record before position `p` lies before `e` and `e` lies before every record after it.
     */
    ghost predicate SplitAt(j: nat, e: LogEntry, u: nat, p: nat)
      reads this
      requires Valid() && j < numLevels
    {
      && p <= |chains[j]| && u == PathAt(chains[j], p)
      && (forall q :: 0 <= q < p ==> Before(entries[chains[j][q]], e))
      && (forall q :: p <= q < |chains[j]| ==> Before(e, entries[chains[j][q]]))
    }

    /**
     * The search loop of `SkipList::insert`: from level `level - 1` down to 0, walk each level
     * and record where it stopped. Meeting the same version stops the search (the source
     * panics there, before any link is rewritten).
     */
    method FindPredecessors(e: LogEntry, level: nat) returns (update: seq<nat>, dup: bool, ghost pos: seq<nat>)
      requires Valid() && Keyed(e) && 1 <= level <= numLevels
      ensures dup <==> Stores(Levels()[0], e)
      ensures !dup ==> |update| == level && |pos| == level &&
                       forall j :: 0 <= j < level ==> SplitAt(j, e, update[j], pos[j])
    {
      update := seq(level, _ => 0);
      pos := seq(level, _ => 0);
      var cur: nat := 0;
      var i := level;
      while i > 0
        invariant 0 <= i <= level
        invariant |update| == level && |pos| == level
        invariant cur < |links| && (cur != 0 ==> i <= |links[cur]| && Before(entries[cur], e))
        invariant forall j :: i <= j < level ==> SplitAt(j, e, update[j], pos[j])
      {
        i := i - 1;
        ghost var k;
        cur, dup, k := SeekLevel(e, i, cur);
        if dup {
          return;
        }
        update := update[i := cur];
        pos := pos[i := k];
      }
      dup := false;
      NoDuplicate(e, update[0], pos[0]);
    }

    /**
     * The inner loop of the search in `SkipList::insert`, at level `i` from node `start`: advance
     * while the next record has a smaller key, or the same key and a newer sequence number;
     * stop at a greater key, an older version or the end; report the same version.
     */
    method SeekLevel(e: LogEntry, i: nat, start: nat) returns (cur: nat, dup: bool, ghost k: nat)
      requires Valid() && Keyed(e) && i < numLevels && start < |links|
      requires start != 0 ==> i < |links[start]| && Before(entries[start], e)
      ensures dup ==> Stores(Levels()[0], e)
      ensures !dup ==> cur < |links| && (cur != 0 ==> i < |links[cur]| && Before(entries[cur], e))
      ensures !dup ==> SplitAt(i, e, cur, k)
    {
      ghost var c := chains[i];
      cur, dup := start, false;
      k := EnterLevel(i, cur, e);
      assert cur == PathAt(c, k);
      while true
        invariant k <= |c|
        invariant cur == PathAt(c, k)
        invariant forall q :: 0 <= q < k ==> Before(entries[c[q]], e)
        decreases |c| - k
      {
        ChainStep(links, i, c, k);
        var next := links[cur][i];
        if next.None? {
          break;
        }
        var nx := next.value;
        assert k < |c| && nx == c[k] && PathAt(c, k + 1) == nx;
        assert nx in c;
        assert Keyed(entries[nx]);
        match Cmp(entries[nx].entry.key, e.entry.key)
        case Less =>
          assert Before(entries[nx], e);
          cur, k := nx, k + 1;
          assert cur == PathAt(c, k);
        case Equal =>
          CmpEqual(entries[nx].entry.key, e.entry.key);
          if e.logSeqNum > entries[nx].logSeqNum {
            assert Before(e, entries[nx]);
            break;
          } else if e.logSeqNum == entries[nx].logSeqNum {
            StoredNode(nx);
            assert SameVersion(entries[nx], e);
            dup := true;
            return;
          } else {
            assert Before(entries[nx], e);
            cur, k := nx, k + 1;
          }
        case Greater =>
          CmpFlip(e.entry.key, entries[nx].entry.key);
          assert Before(e, entries[nx]);
          break;
      }
      if cur != 0 {
        assert cur == c[k - 1];
      }
      LeaveLevel(i, e, cur, k);
    }

    /** Entering level `i` at node `cur`: its position there, with every record before it lying before `e`. */
    lemma EnterLevel(i: nat, cur: nat, e: LogEntry) returns (k: nat)
      requires Valid() && i < numLevels && cur < |links|
      requires cur != 0 ==> i < |links[cur]| && Before(entries[cur], e)
      ensures k <= |chains[i]| && cur == PathAt(chains[i], k)
      ensures forall q :: 0 <= q < k ==> Before(entries[chains[i][q]], e)
    {
      var c := chains[i];
      k := 0;
      if cur != 0 {
        assert cur in c;
        var j :| 0 <= j < |c| && c[j] == cur;
        k := j + 1;
        forall q | 0 <= q < k ensures Before(entries[c[q]], e) {
          if q < k - 1 {
            assert Before(View(entries, c)[q], View(entries, c)[k - 1]);
            BeforeTrans(entries[c[q]], entries[cur], e);
          }
        }
      }
    }

    /** Leaving level `i` where the walk stopped: the end of the chain, or a record `e` lies before. */
    lemma LeaveLevel(i: nat, e: LogEntry, cur: nat, k: nat)
      requires Valid() && i < numLevels && k <= |chains[i]| && cur == PathAt(chains[i], k)
      requires forall q :: 0 <= q < k ==> Before(entries[chains[i][q]], e)
      requires k < |chains[i]| ==> Before(e, entries[chains[i][k]])
      ensures SplitAt(i, e, cur, k)
    {
      var c := chains[i];
      forall q | k <= q < |c| ensures Before(e, entries[c[q]]) {
        if q > k {
          assert Before(View(entries, c)[k], View(entries, c)[q]);
          BeforeTrans(e, entries[c[k]], entries[c[q]]);
        }
      }
    }

    /** A split position at level 0 shows that no stored record is the same version as `e`. */
    lemma NoDuplicate(e: LogEntry, u: nat, p: nat)
      requires Valid() && SplitAt(0, e, u, p)
      ensures !Stores(Levels()[0], e)
    {
      forall x | x in Levels()[0] ensures !SameVersion(x, e) {
        var q :| 0 <= q < |chains[0]| && Levels()[0][q] == x;
        if q < p {
          BeforeStrict(x, e);
        } else {
          BeforeStrict(e, x);
        }
      }
    }
  }

  /** The levels of the list built by `StaleLookupWitness`, insertion by insertion. */
  lemma StaleLevels(older: LogEntry, newer: LogEntry)
    requires older == LogEntry(Put([0, 0, 0, 1], [0, 0, 0, 1]), 1) && newer == LogEntry(Del([0, 0, 0, 1]), 3)
    ensures InsertSpec([[], [], []], older, 2) == (Pass, [[older], [older], []])
    ensures InsertSpec([[older], [older], []], newer, 1) == (Pass, [[newer, older], [older], []])
  {
    assert !Stores([], older);
    var v1 := InsertViews([[], [], []], older, 2);
    assert v1[0] == Place([], older) == [older] && v1[1] == [older] && v1[2] == [];
    assert v1 == [[older], [older], []];
    assert !Before(older, newer);
    assert !Stores([older], newer) by {
      forall x | x in [older] ensures !SameVersion(x, newer) { }
    }
    var v2 := InsertViews([[older], [older], []], newer, 1);
    assert v2[0] == Place([older], newer) == [newer, older] && v2[1] == [older] && v2[2] == [];
    assert v2 == [[newer, older], [older], []];
  }

  /**
   * A reduced form of `test_skiplist_insert_and_delete`, without its put of key 2, in a
   * three-level list where `SkipList::get` answers with a stale version: the put of key 1 at sequence 1 draws level 2, the delete of
   * key 1 at sequence 3 draws level 1. A lookup of key 1 at snapshot 3 meets the put on level 2
   * and returns it, while the newest visible version, which the test expects, is the delete.
   */
  method StaleLookupWitness() returns (got: Option<LogEntry>, newest: Option<LogEntry>)
    ensures got == Some(LogEntry(Put([0, 0, 0, 1], [0, 0, 0, 1]), 1))
    ensures newest == Some(LogEntry(Del([0, 0, 0, 1]), 3))
  {
    var key: Bytes := [0, 0, 0, 1];
    var older := LogEntry(Put(key, key), 1);
    var newer := LogEntry(Del(key), 3);
    StaleLevels(older, newer);
    var list := new SkipList(3);
    assert list.Levels() == [[], [], []];
    var r1 := list.Insert(older, j => j == 0);
    assert Height(3, j => j == 0) == 2;
    var r2 := list.Insert(newer, _ => false);
    assert Height(3, _ => false) == 1;
    got := list.Get(key, 3);
    newest := list.GetNewest(key, 3);
  }
}
