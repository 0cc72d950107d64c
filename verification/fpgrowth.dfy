/** FP-tree construction: the weighted header table, the canonical item order of a
    transaction, and the insertion of ordered transactions into a prefix tree whose
    nodes of one item are chained from the header.

    Items are integers (the item type's default comparer becomes `<=` on `int`).  A
    node is named by its path from the root, the items on the way down, so a
    node-link is a path; a header's chain is the sequence of those paths, newest
    first.  The parent of a node is its path without the last item.
 */
module FPGrowth {

  import Utility

  datatype TreeNode = TreeNode(name: int, count: int, children: map<int, TreeNode>)

  /** A header entry: the item's total weight and its node-link chain. */
  datatype HeaderItem = HeaderItem(count: int, links: seq<seq<int>>)

  datatype FPTree = FPTree(root: TreeNode, header: map<int, HeaderItem>)

  /** The root: the item type's default name, count 0, no children. */
  const EmptyRoot := TreeNode(0, 0, map[])

  // ---------------------------------------------------------------------------
  // Paths

  /** There is a node at path p. */
  predicate Exists(t: TreeNode, p: seq<int>)
    decreases |p|
  {
    |p| == 0 || (p[0] in t.children && Exists(t.children[p[0]], p[1..]))
  }

  /** The count of the node at path p. */
  function CountAt(t: TreeNode, p: seq<int>): int
    requires Exists(t, p)
    decreases |p|
  {
    if |p| == 0 then t.count else CountAt(t.children[p[0]], p[1..])
  }

  /** p is a leading part of items, the empty path included. */
  predicate IsPrefix(p: seq<int>, items: seq<int>)
  {
    |p| <= |items| && p == items[..|p|]
  }

  /** Every child is named by the key it hangs under. */
  predicate Named(t: TreeNode)
  {
    forall k :: k in t.children ==> t.children[k].name == k && Named(t.children[k])
  }

  // ---------------------------------------------------------------------------
  // Inserting one ordered transaction

  /** `UpdateFPTree`, the tree part: walk down along items, adding the weight to each
      node that is there and creating each node that is not with the weight. */
  function Insert(t: TreeNode, items: seq<int>, w: int): (r: TreeNode)
    ensures r.name == t.name && r.count == t.count
    ensures |items| == 0 ==> r.children == t.children
    ensures |items| > 0 ==> r.children.Keys == t.children.Keys + {items[0]}
    ensures forall k :: k in t.children && (|items| == 0 || k != items[0]) ==> r.children[k] == t.children[k]
    decreases |items|
  {
    if |items| == 0 then t
    else
      var child :=
        if items[0] in t.children then t.children[items[0]].(count := t.children[items[0]].count + w)
        else TreeNode(items[0], w, map[]);
      t.(children := t.children[items[0] := Insert(child, items[1..], w)])
  }

  /** After insertion the nodes are the old ones and the prefixes of items; each
      non-root prefix gains the weight (a new one starts from it); nothing else
      changes. */
  lemma {:induction false} InsertSpec(t: TreeNode, items: seq<int>, w: int, p: seq<int>)
    ensures Exists(Insert(t, items, w), p) <==> Exists(t, p) || IsPrefix(p, items)
    ensures Exists(Insert(t, items, w), p) ==>
      CountAt(Insert(t, items, w), p) ==
        (if Exists(t, p) then CountAt(t, p) else 0) + (if 1 <= |p| && IsPrefix(p, items) then w else 0)
    decreases |items|
  {
    if |items| > 0 && |p| > 0 {
      var child :=
        if items[0] in t.children then t.children[items[0]].(count := t.children[items[0]].count + w)
        else TreeNode(items[0], w, map[]);
      if p[0] == items[0] {
        InsertSpec(child, items[1..], w, p[1..]);
        assert IsPrefix(p, items) <==> IsPrefix(p[1..], items[1..]);
        if |p| > 1 && items[0] !in t.children {
          assert !Exists(child, p[1..]);
        }
      } else {
        assert !IsPrefix(p, items);
      }
    }
  }

  /** Insertion keeps every child named by its key. */
  lemma {:induction false} InsertNamed(t: TreeNode, items: seq<int>, w: int)
    requires Named(t)
    ensures Named(Insert(t, items, w))
    decreases |items|
  {
    if |items| > 0 {
      var x := items[0];
      var child := if x in t.children then t.children[x].(count := t.children[x].count + w) else TreeNode(x, w, map[]);
      if x in t.children {
        assert Named(t.children[x]);
      }
      InsertNamed(child, items[1..], w);
    }
  }

  /** The number of leading items whose path is already in the tree: the walk
      reuses nodes for these and creates a node for each later one. */
  function ExistingDepth(t: TreeNode, items: seq<int>): (m: nat)
    ensures m <= |items|
    decreases |items|
  {
    if |items| == 0 || items[0] !in t.children then 0
    else 1 + ExistingDepth(t.children[items[0]], items[1..])
  }

  /** The prefixes of items that are in the tree are exactly the first m + 1. */
  lemma {:induction false} ExistingPrefixes(t: TreeNode, items: seq<int>, j: nat)
    requires j <= |items|
    ensures Exists(t, items[..j]) <==> j <= ExistingDepth(t, items)
    decreases |items|
  {
    if |items| > 0 && j > 0 {
      var x := items[0];
      assert items[..j][0] == x && items[..j][1..] == items[1..][..j - 1];
      if x in t.children {
        ExistingPrefixes(t.children[x], items[1..], j - 1);
      }
    }
  }

  // ---------------------------------------------------------------------------
  // Node-link chains

  /** No path appears twice in a chain. */
  predicate NoDup(links: seq<seq<int>>)
  {
    forall i, j :: 0 <= i < j < |links| ==> links[i] != links[j]
  }

  /** p is a node of the tree that carries item x. */
  predicate NodeOf(t: TreeNode, p: seq<int>, x: int)
  {
    1 <= |p| && Exists(t, p) && p[|p| - 1] == x
  }

  /** The chain of x holds every node of x once and nothing else. */
  ghost predicate ChainOf(t: TreeNode, links: seq<seq<int>>, x: int)
  {
    NoDup(links) && forall p :: p in links <==> NodeOf(t, p, x)
  }

  /** The tree and its header agree: every node's item has a header entry and each
      entry's chain is exactly the nodes of its item. */
  ghost predicate Linked(tree: FPTree)
  {
    Named(tree.root) &&
    (forall p :: Exists(tree.root, p) && 1 <= |p| ==> p[|p| - 1] in tree.header) &&
    forall x :: x in tree.header ==> ChainOf(tree.root, tree.header[x].links, x)
  }

  /** The paths created for x by a walk along items at positions lo ..< hi, newest
      (deepest) first. */
  function NewLinks(items: seq<int>, x: int, lo: nat, hi: nat): seq<seq<int>>
    requires lo <= hi <= |items|
    decreases hi - lo
  {
    if lo == hi then []
    else NewLinks(items, x, lo + 1, hi) + (if items[lo] == x then [items[..lo + 1]] else [])
  }

  /** The created paths for x are the prefixes of items longer than lo and at most hi
      long that end in x, each once. */
  lemma {:induction false} NewLinksSpec(items: seq<int>, x: int, lo: nat, hi: nat)
    requires lo <= hi <= |items|
    ensures forall p :: p in NewLinks(items, x, lo, hi) <==> lo < |p| <= hi && IsPrefix(p, items) && p[|p| - 1] == x
    ensures NoDup(NewLinks(items, x, lo, hi))
    decreases hi - lo
  {
    if lo < hi {
      NewLinksSpec(items, x, lo + 1, hi);
      var rest := NewLinks(items, x, lo + 1, hi);
      var r := NewLinks(items, x, lo, hi);
      if items[lo] == x {
        assert r == rest + [items[..lo + 1]];
        assert forall p :: p in r <==> p in rest || p == items[..lo + 1];
      } else {
        assert r == rest;
      }
    }
  }

  /** `UpdateFPTree`, the header part: each node created at position k (from the
      existing depth on) becomes the head of its item's chain, its link the old head. */
  function Relink(header: map<int, HeaderItem>, items: seq<int>, k: nat): (h: map<int, HeaderItem>)
    requires k <= |items|
    requires forall i :: 0 <= i < |items| ==> items[i] in header
    ensures forall x :: x in h <==> x in header
    ensures forall x :: x in header ==>
      h[x] == HeaderItem(header[x].count, NewLinks(items, x, k, |items|) + header[x].links)
    decreases |items| - k
  {
    if k == |items| then header
    else
      var x := items[k];
      var h1 := header[x := HeaderItem(header[x].count, [items[..k + 1]] + header[x].links)];
      var h := Relink(h1, items, k + 1);
      assert forall y :: y in header ==>
        NewLinks(items, y, k + 1, |items|) + h1[y].links == NewLinks(items, y, k, |items|) + header[y].links
      by {
        forall y | y in header
          ensures NewLinks(items, y, k + 1, |items|) + h1[y].links == NewLinks(items, y, k, |items|) + header[y].links
        {
          var later := NewLinks(items, y, k + 1, |items|);
          if y == x {
            assert later + ([items[..k + 1]] + header[y].links) == (later + [items[..k + 1]]) + header[y].links;
          }
        }
      }
      h
  }

  /** `UpdateFPTree`: insert the ordered items with weight w and chain the nodes
      the walk creates. */
  function Update(tree: FPTree, items: seq<int>, w: int): (r: FPTree)
    requires forall i :: 0 <= i < |items| ==> items[i] in tree.header
    ensures forall x :: x in r.header <==> x in tree.header
    ensures forall x :: x in tree.header ==> r.header[x].count == tree.header[x].count
  {
    FPTree(Insert(tree.root, items, w), Relink(tree.header, items, ExistingDepth(tree.root, items)))
  }

  lemma NoDupAppend(a: seq<seq<int>>, b: seq<seq<int>>)
    requires NoDup(a) && NoDup(b)
    requires forall p :: p in a ==> p !in b
    ensures NoDup(a + b)
  {
    forall i, j | 0 <= i < j < |a + b|
      ensures (a + b)[i] != (a + b)[j]
    {
      if i < |a| && |a| <= j {
        assert (a + b)[i] in a && (a + b)[j] in b;
      }
    }
  }

  /** After an update the chain of x is still exactly the nodes of x. */
  lemma UpdateChain(tree: FPTree, items: seq<int>, w: int, x: int)
    requires forall i :: 0 <= i < |items| ==> items[i] in tree.header
    requires x in tree.header && ChainOf(tree.root, tree.header[x].links, x)
    ensures ChainOf(Update(tree, items, w).root, Update(tree, items, w).header[x].links, x)
  {
    var m := ExistingDepth(tree.root, items);
    var created := NewLinks(items, x, m, |items|);
    var before := tree.header[x].links;
    var t' := Insert(tree.root, items, w);
    NewLinksSpec(items, x, m, |items|);
    forall p | p in created
      ensures !Exists(tree.root, p)
    {
      ExistingPrefixes(tree.root, items, |p|);
    }
    NoDupAppend(created, before);
    forall p
      ensures p in created + before <==> NodeOf(t', p, x)
    {
      InsertSpec(tree.root, items, w, p);
      if IsPrefix(p, items) && !Exists(tree.root, p) {
        ExistingPrefixes(tree.root, items, |p|);
      }
    }
  }

  /** An update keeps the tree and its header linked. */
  lemma UpdateLinked(tree: FPTree, items: seq<int>, w: int)
    requires forall i :: 0 <= i < |items| ==> items[i] in tree.header
    requires Linked(tree)
    ensures Linked(Update(tree, items, w))
  {
    var r := Update(tree, items, w);
    InsertNamed(tree.root, items, w);
    forall p | Exists(r.root, p) && 1 <= |p|
      ensures p[|p| - 1] in r.header
    {
      InsertSpec(tree.root, items, w, p);
      if !Exists(tree.root, p) {
        assert p[|p| - 1] == items[|p| - 1];
      }
    }
    forall x | x in r.header
      ensures ChainOf(r.root, r.header[x].links, x)
    {
      UpdateChain(tree, items, w, x);
    }
  }

  // ---------------------------------------------------------------------------
  // Conservation of weight along a chain

  /** w for each occurrence of x in s: the weight a transaction s of weight w adds
      to x. */
  function Occurrences(s: seq<int>, x: int, w: int): int
  {
    if |s| == 0 then 0 else (if s[0] == x then w else 0) + Occurrences(s[1..], x, w)
  }

  lemma {:induction false} OccurrencesAppend(a: seq<int>, b: seq<int>, x: int, w: int)
    ensures Occurrences(a + b, x, w) == Occurrences(a, x, w) + Occurrences(b, x, w)
  {
    if |a| > 0 {
      assert (a + b)[1..] == a[1..] + b;
      OccurrencesAppend(a[1..], b, x, w);
    } else {
      assert a + b == b;
    }
  }

  lemma OccurrencesSplit(s: seq<int>, m: nat, x: int, w: int)
    requires m <= |s|
    ensures Occurrences(s, x, w) == Occurrences(s[..m], x, w) + Occurrences(s[m..|s|], x, w)
  {
    assert s == s[..m] + s[m..|s|];
    OccurrencesAppend(s[..m], s[m..|s|], x, w);
  }

  /** The count of the node at p, 0 when there is none. */
  function NodeCount(t: TreeNode, p: seq<int>): int
  {
    if Exists(t, p) then CountAt(t, p) else 0
  }

  /** The sum of the counts along a chain. */
  function ChainSum(t: TreeNode, links: seq<seq<int>>): int
  {
    if |links| == 0 then 0 else NodeCount(t, links[0]) + ChainSum(t, links[1..])
  }

  lemma {:induction false} ChainSumAppend(t: TreeNode, a: seq<seq<int>>, b: seq<seq<int>>)
    ensures ChainSum(t, a + b) == ChainSum(t, a) + ChainSum(t, b)
  {
    if |a| > 0 {
      assert (a + b)[1..] == a[1..] + b;
      ChainSumAppend(t, a[1..], b);
    } else {
      assert a + b == b;
    }
  }

  lemma {:induction false} ChainSumAbsent(t: TreeNode, links: seq<seq<int>>)
    requires forall p :: p in links ==> !Exists(t, p)
    ensures ChainSum(t, links) == 0
  {
    if |links| > 0 {
      assert links[0] in links;
      ChainSumAbsent(t, links[1..]);
    }
  }

  /** The weight an insertion of items with weight w adds along a chain: w for each
      path on it that is a non-empty prefix of items at most n long. */
  function Gain(links: seq<seq<int>>, items: seq<int>, n: nat, w: int): int
  {
    if |links| == 0 then 0
    else
      var p := links[0];
      (if 1 <= |p| <= n && IsPrefix(p, items) then w else 0) + Gain(links[1..], items, n, w)
  }

  lemma {:induction false} GainAppend(a: seq<seq<int>>, b: seq<seq<int>>, items: seq<int>, n: nat, w: int)
    ensures Gain(a + b, items, n, w) == Gain(a, items, n, w) + Gain(b, items, n, w)
  {
    if |a| > 0 {
      assert (a + b)[1..] == a[1..] + b;
      GainAppend(a[1..], b, items, n, w);
    } else {
      assert a + b == b;
    }
  }

  /** Inserting items with weight w adds exactly the gain to any chain's sum. */
  lemma {:induction false} InsertChainSum(t: TreeNode, items: seq<int>, w: int, links: seq<seq<int>>)
    ensures ChainSum(Insert(t, items, w), links) == ChainSum(t, links) + Gain(links, items, |items|, w)
  {
    if |links| > 0 {
      InsertSpec(t, items, w, links[0]);
      InsertChainSum(t, items, w, links[1..]);
    }
  }

  /** w for each path on the chain equal to q. */
  function Hits(links: seq<seq<int>>, q: seq<int>, w: int): int
  {
    if |links| == 0 then 0 else (if links[0] == q then w else 0) + Hits(links[1..], q, w)
  }

  lemma {:induction false} HitsNoDup(links: seq<seq<int>>, q: seq<int>, w: int)
    requires NoDup(links)
    ensures Hits(links, q, w) == if q in links then w else 0
  {
    if |links| > 0 {
      assert NoDup(links[1..]) by {
        forall i, j | 0 <= i < j < |links[1..]|
          ensures links[1..][i] != links[1..][j]
        {
          assert links[1..][i] == links[i + 1] && links[1..][j] == links[j + 1];
        }
      }
      HitsNoDup(links[1..], q, w);
      if links[0] == q {
        assert q !in links[1..] by {
          forall j | 0 <= j < |links[1..]|
            ensures links[1..][j] != q
          {
            assert links[1..][j] == links[j + 1];
          }
        }
      } else {
        assert q in links <==> q in links[1..];
      }
    }
  }

  /** Raising the length bound by one adds the hits on the next prefix. */
  lemma {:induction false} GainStep(links: seq<seq<int>>, items: seq<int>, n: nat, w: int)
    requires n < |items|
    ensures Gain(links, items, n + 1, w) == Gain(links, items, n, w) + Hits(links, items[..n + 1], w)
  {
    if |links| > 0 {
      GainStep(links[1..], items, n, w);
    }
  }

  /** On a chain of the tree, the paths that are prefixes of items are the first m
      prefixes that end in x, so the gain is the weight of those occurrences. */
  lemma {:induction false} ChainGain(t: TreeNode, links: seq<seq<int>>, x: int, items: seq<int>, n: nat, w: int)
    requires ChainOf(t, links, x) && n <= |items|
    ensures var m := ExistingDepth(t, items);
      Gain(links, items, n, w) == Occurrences(items[..if n <= m then n else m], x, w)
  {
    var m := ExistingDepth(t, items);
    if n == 0 {
      assert Gain(links, items, 0, w) == 0 by { GainZero(links, items, w); }
    } else {
      ChainGain(t, links, x, items, n - 1, w);
      GainStep(links, items, n - 1, w);
      HitsNoDup(links, items[..n], w);
      ExistingPrefixes(t, items, n);
      if n <= m {
        assert items[..n] == items[..n - 1] + [items[n - 1]];
        OccurrencesAppend(items[..n - 1], [items[n - 1]], x, w);
        assert items[..n] in links <==> items[n - 1] == x by {
          assert NodeOf(t, items[..n], x) <==> items[n - 1] == x;
        }
      } else {
        assert items[..n] !in links by {
          assert !NodeOf(t, items[..n], x);
        }
      }
    }
  }

  lemma {:induction false} GainZero(links: seq<seq<int>>, items: seq<int>, w: int)
    ensures Gain(links, items, 0, w) == 0
  {
    if |links| > 0 {
      GainZero(links[1..], items, w);
    }
  }

  /** The created paths gain w for each occurrence of x at positions lo ..< hi. */
  lemma {:induction false} NewLinksGain(items: seq<int>, x: int, lo: nat, hi: nat, w: int)
    requires lo <= hi <= |items|
    ensures Gain(NewLinks(items, x, lo, hi), items, |items|, w) == Occurrences(items[lo..hi], x, w)
    decreases hi - lo
  {
    if lo < hi {
      NewLinksGain(items, x, lo + 1, hi, w);
      var single := if items[lo] == x then [items[..lo + 1]] else [];
      GainAppend(NewLinks(items, x, lo + 1, hi), single, items, |items|, w);
      assert items[lo..hi][1..] == items[lo + 1..hi];
    }
  }

  /** An update adds to the chain of x exactly the weight of x's occurrences in the
      inserted items. */
  lemma UpdateConserves(tree: FPTree, items: seq<int>, w: int, x: int)
    requires forall i :: 0 <= i < |items| ==> items[i] in tree.header
    requires x in tree.header && ChainOf(tree.root, tree.header[x].links, x)
    ensures var r := Update(tree, items, w);
      ChainSum(r.root, r.header[x].links) == ChainSum(tree.root, tree.header[x].links) + Occurrences(items, x, w)
  {
    var m := ExistingDepth(tree.root, items);
    var created := NewLinks(items, x, m, |items|);
    var before := tree.header[x].links;
    InsertChainSum(tree.root, items, w, created + before);
    ChainSumAppend(tree.root, created, before);
    NewLinksSpec(items, x, m, |items|);
    forall p | p in created
      ensures !Exists(tree.root, p)
    {
      ExistingPrefixes(tree.root, items, |p|);
    }
    ChainSumAbsent(tree.root, created);
    GainAppend(created, before, items, |items|, w);
    NewLinksGain(items, x, m, |items|, w);
    ChainGain(tree.root, before, x, items, |items|, w);
    OccurrencesSplit(items, m, x, w);
  }

  // ---------------------------------------------------------------------------
  // The header table

  /** int.MaxValue, the length of the default run of unit weights. */
  const IntMax: nat := 0x7fff_ffff

  /** The weights paired with the transactions: the given counts, or unit weights
      when there are none, cut to the shorter of the two sequences as a zip does. */
  function Weights(trans: seq<seq<int>>, count: Utility.Option<seq<int>>): (ws: seq<int>)
    ensures count.Some? ==> |ws| == if |trans| <= |count.value| then |trans| else |count.value|
    ensures count.None? ==> |ws| == if |trans| <= IntMax then |trans| else IntMax
    ensures forall i :: 0 <= i < |ws| ==> ws[i] == if count.Some? then count.value[i] else 1
  {
    var c := if count.Some? then count.value else seq(IntMax, _ => 1);
    c[..if |trans| <= |c| then |trans| else |c|]
  }

  /** Adds w to the tally of x, starting it at w when x is new. */
  function Bump(table: map<int, int>, x: int, w: int): map<int, int>
  {
    table[x := if x in table then table[x] + w else w]
  }

  /** Tallies every item occurrence of one transaction with its weight. */
  function AddItems(table: map<int, int>, items: seq<int>, w: int): map<int, int>
    decreases |items|
  {
    if |items| == 0 then table else AddItems(Bump(table, items[0], w), items[1..], w)
  }

  /** After tallying a transaction, y is tallied iff it was or it occurs in the
      transaction, and its tally grew by its weighted occurrences. */
  lemma {:induction false} AddItemsSpec(table: map<int, int>, items: seq<int>, w: int, y: int)
    ensures y in AddItems(table, items, w) <==> y in table || y in items
    ensures y in AddItems(table, items, w) ==>
      AddItems(table, items, w)[y] == (if y in table then table[y] else 0) + Occurrences(items, y, w)
    decreases |items|
  {
    if |items| > 0 {
      AddItemsSpec(Bump(table, items[0], w), items[1..], w, y);
      assert y in items <==> y == items[0] || y in items[1..];
    }
  }

  /** The tally of the first n transactions. */
  function Tally(trans: seq<seq<int>>, ws: seq<int>, n: nat): map<int, int>
    requires n <= |ws| <= |trans|
  {
    if n == 0 then map[] else AddItems(Tally(trans, ws, n - 1), trans[n - 1], ws[n - 1])
  }

  /** x occurs in one of the first n transactions. */
  predicate Occurs(trans: seq<seq<int>>, n: nat, x: int)
    requires n <= |trans|
  {
    exists i :: 0 <= i < n && x in trans[i]
  }

  /** The total weight of x over the first n transactions. */
  function Weight(trans: seq<seq<int>>, ws: seq<int>, n: nat, x: int): int
    requires n <= |ws| <= |trans|
  {
    if n == 0 then 0 else Weight(trans, ws, n - 1, x) + Occurrences(trans[n - 1], x, ws[n - 1])
  }

  /** The tally holds exactly the items that occur, each with its total weight. */
  lemma {:induction false} TallySpec(trans: seq<seq<int>>, ws: seq<int>, n: nat, x: int)
    requires n <= |ws| <= |trans|
    ensures x in Tally(trans, ws, n) <==> Occurs(trans, n, x)
    ensures x in Tally(trans, ws, n) ==> Tally(trans, ws, n)[x] == Weight(trans, ws, n, x)
  {
    if n > 0 {
      TallySpec(trans, ws, n - 1, x);
      AddItemsSpec(Tally(trans, ws, n - 1), trans[n - 1], ws[n - 1], x);
      if !Occurs(trans, n - 1, x) {
        assert Weight(trans, ws, n - 1, x) == 0 by { NoOccurrenceNoWeight(trans, ws, n - 1, x); }
      }
      if Occurs(trans, n, x) && !(x in trans[n - 1]) {
        var i :| 0 <= i < n && x in trans[i];
        assert Occurs(trans, n - 1, x);
      }
    }
  }

  lemma {:induction false} NoOccurrenceNoWeight(trans: seq<seq<int>>, ws: seq<int>, n: nat, x: int)
    requires n <= |ws| <= |trans| && !Occurs(trans, n, x)
    ensures Weight(trans, ws, n, x) == 0
  {
    if n > 0 {
      assert x !in trans[n - 1];
      NoOccurrenceNoWeight(trans, ws, n - 1, x);
      OccurrencesAbsent(trans[n - 1], x, ws[n - 1]);
    }
  }

  lemma {:induction false} OccurrencesAbsent(s: seq<int>, x: int, w: int)
    requires x !in s
    ensures Occurrences(s, x, w) == 0
  {
    if |s| > 0 {
      OccurrencesAbsent(s[1..], x, w);
    }
  }

  /** `InitHeaderTable`: the items whose total weight reaches minSupport, each with
      that weight and an empty chain. */
  function InitHeaderTable(trans: seq<seq<int>>, ws: seq<int>, minSupport: int): (header: map<int, HeaderItem>)
    requires |ws| <= |trans|
    ensures forall x :: x in header <==> Occurs(trans, |ws|, x) && Weight(trans, ws, |ws|, x) >= minSupport
    ensures forall x :: x in header ==> header[x] == HeaderItem(Weight(trans, ws, |ws|, x), [])
  {
    var tally := Tally(trans, ws, |ws|);
    assert forall x :: x in tally <==> Occurs(trans, |ws|, x) by {
      forall x
        ensures x in tally <==> Occurs(trans, |ws|, x)
      {
        TallySpec(trans, ws, |ws|, x);
      }
    }
    assert forall x :: x in tally ==> tally[x] == Weight(trans, ws, |ws|, x) by {
      forall x | x in tally
        ensures tally[x] == Weight(trans, ws, |ws|, x)
      {
        TallySpec(trans, ws, |ws|, x);
      }
    }
    map x | x in tally && tally[x] >= minSupport :: HeaderItem(tally[x], [])
  }

  // ---------------------------------------------------------------------------
  // The order of a transaction's items

  /** a may come before b: both are header items and a has the higher count, or the
      same count and the smaller (or same) item. */
  predicate Precedes(header: map<int, HeaderItem>, a: int, b: int)
  {
    a in header && b in header &&
    (header[a].count > header[b].count || (header[a].count == header[b].count && a <= b))
  }

  /** Header items only, by descending count, then ascending item. */
  predicate Sorted(header: map<int, HeaderItem>, s: seq<int>)
  {
    (forall i :: 0 <= i < |s| ==> s[i] in header) &&
    forall i, j :: 0 <= i < j < |s| ==> Precedes(header, s[i], s[j])
  }

  /** The items of s that have a header entry, in their order. */
  function KeepFrequent(s: seq<int>, header: map<int, HeaderItem>): (r: seq<int>)
    ensures forall i :: 0 <= i < |r| ==> r[i] in header
    ensures forall x :: multiset(r)[x] == if x in header then multiset(s)[x] else 0
  {
    if |s| == 0 then []
    else
      assert s == [s[0]] + s[1..];
      (if s[0] in header then [s[0]] else []) + KeepFrequent(s[1..], header)
  }

  /** Places x among the sorted s. */
  function InsertInOrder(header: map<int, HeaderItem>, x: int, s: seq<int>): (r: seq<int>)
    requires x in header && Sorted(header, s)
    ensures multiset(r) == multiset(s) + multiset{x}
    ensures Sorted(header, r)
  {
    if |s| == 0 then [x]
    else if Precedes(header, x, s[0]) then
      SortedCons(header, x, s);
      [x] + s
    else
      SortedTail(header, s);
      var rest := InsertInOrder(header, x, s[1..]);
      assert s == [s[0]] + s[1..];
      HeadPrecedesInsert(header, s, x, rest);
      SortedCons(header, s[0], rest);
      [s[0]] + rest
  }

  /** The tail of a sorted sequence is sorted. */
  lemma SortedTail(header: map<int, HeaderItem>, s: seq<int>)
    requires Sorted(header, s) && |s| > 0
    ensures Sorted(header, s[1..])
  {
    forall i, j | 0 <= i < j < |s| - 1
      ensures Precedes(header, s[1..][i], s[1..][j])
    {
      assert s[1..][i] == s[i + 1] && s[1..][j] == s[j + 1];
    }
  }

  /** An item that may precede every element of a sorted sequence can head it. */
  lemma SortedCons(header: map<int, HeaderItem>, x: int, s: seq<int>)
    requires x in header && Sorted(header, s)
    requires forall k :: 0 <= k < |s| ==> Precedes(header, x, s[k])
    ensures Sorted(header, [x] + s)
  {
    var r := [x] + s;
    forall i, j | 0 <= i < j < |r|
      ensures Precedes(header, r[i], r[j])
    {
      assert r[j] == s[j - 1];
      if i > 0 {
        assert r[i] == s[i - 1];
      }
    }
  }

  /** The head of s may precede x and every element of s, so it may precede every
      element of rest, which holds exactly those. */
  lemma HeadPrecedesInsert(header: map<int, HeaderItem>, s: seq<int>, x: int, rest: seq<int>)
    requires Sorted(header, s) && |s| > 0 && x in header && !Precedes(header, x, s[0])
    requires multiset(rest) == multiset(s[1..]) + multiset{x}
    ensures forall k :: 0 <= k < |rest| ==> Precedes(header, s[0], rest[k])
  {
    forall k | 0 <= k < |rest|
      ensures Precedes(header, s[0], rest[k])
    {
      assert rest[k] in multiset(rest);
      if rest[k] != x {
        assert rest[k] in multiset(s[1..]);
        var j :| 0 <= j < |s[1..]| && s[1..][j] == rest[k];
        assert s[j + 1] == rest[k];
      }
    }
  }

  /** Insertion sort by the header order. */
  function SortByHeader(header: map<int, HeaderItem>, s: seq<int>): (r: seq<int>)
    requires forall i :: 0 <= i < |s| ==> s[i] in header
    ensures multiset(r) == multiset(s)
    ensures Sorted(header, r)
  {
    if |s| == 0 then []
    else
      assert s == [s[0]] + s[1..];
      InsertInOrder(header, s[0], SortByHeader(header, s[1..]))
  }

  /** The ordered items of a transaction: its frequent items by descending count,
      ties by ascending item. */
  function OrderItems(s: seq<int>, header: map<int, HeaderItem>): (r: seq<int>)
    ensures forall i :: 0 <= i < |r| ==> r[i] in header
    ensures forall x :: multiset(r)[x] == if x in header then multiset(s)[x] else 0
    ensures Sorted(header, r)
  {
    SortByHeader(header, KeepFrequent(s, header))
  }

  /** The order is canonical: two sorted arrangements of the same items are the same
      sequence, so every transaction with the same frequent items follows the same
      path. */
  lemma {:induction false} SortedUnique(header: map<int, HeaderItem>, a: seq<int>, b: seq<int>)
    requires Sorted(header, a) && Sorted(header, b) && multiset(a) == multiset(b)
    ensures a == b
  {
    if |a| == 0 {
      assert |b| == |multiset(b)|;
    } else {
      SameHead(header, a, b);
      TailMultiset(a);
      TailMultiset(b);
      SortedTail(header, a);
      SortedTail(header, b);
      SortedUnique(header, a[1..], b[1..]);
      assert a == [a[0]] + a[1..] && b == [b[0]] + b[1..];
    }
  }

  /** Two sorted sequences with the same elements start with the same item: each
      head may precede the other, so they are equal. */
  lemma SameHead(header: map<int, HeaderItem>, a: seq<int>, b: seq<int>)
    requires Sorted(header, a) && Sorted(header, b) && multiset(a) == multiset(b) && |a| > 0
    ensures |b| > 0 && a[0] == b[0]
  {
    assert |b| == |multiset(b)| == |multiset(a)| == |a|;
    var x, y := a[0], b[0];
    assert x in multiset(b) && y in multiset(a);
    FirstPrecedes(header, b, x);
    FirstPrecedes(header, a, y);
  }

  lemma TailMultiset(s: seq<int>)
    requires |s| > 0
    ensures multiset(s[1..]) == multiset(s) - multiset{s[0]}
  {
    assert s == [s[0]] + s[1..];
  }

  /** The head of a sorted sequence may precede each of its elements. */
  lemma FirstPrecedes(header: map<int, HeaderItem>, s: seq<int>, x: int)
    requires Sorted(header, s) && x in s
    ensures Precedes(header, s[0], x)
  {
    var i :| 0 <= i < |s| && s[i] == x;
    if i > 0 {
      assert Precedes(header, s[0], s[i]);
    }
  }

  /** w added once per copy: the weight of n occurrences. */
  function Times(n: nat, w: int): int
  {
    if n == 0 then 0 else w + Times(n - 1, w)
  }

  /** The weighted occurrences depend on the number of copies of x only. */
  lemma {:induction false} OccurrencesCount(s: seq<int>, x: int, w: int)
    ensures Occurrences(s, x, w) == Times(multiset(s)[x], w)
  {
    if |s| > 0 {
      OccurrencesCount(s[1..], x, w);
      assert s == [s[0]] + s[1..];
      assert multiset(s)[x] == (if s[0] == x then 1 else 0) + multiset(s[1..])[x];
    }
  }

  /** Ordering keeps the weighted occurrences of every header item. */
  lemma OrderKeepsOccurrences(s: seq<int>, header: map<int, HeaderItem>, x: int, w: int)
    requires x in header
    ensures Occurrences(OrderItems(s, header), x, w) == Occurrences(s, x, w)
  {
    OccurrencesCount(OrderItems(s, header), x, w);
    OccurrencesCount(s, x, w);
  }

  // ---------------------------------------------------------------------------
  // Building the tree

  /** The tree after the first n weighted transactions, each ordered by the header
      and inserted in turn. */
  function Build(trans: seq<seq<int>>, ws: seq<int>, header: map<int, HeaderItem>, n: nat): (tree: FPTree)
    requires n <= |ws| <= |trans|
    ensures forall x :: x in tree.header <==> x in header
    ensures forall x :: x in header ==> tree.header[x].count == header[x].count
  {
    if n == 0 then FPTree(EmptyRoot, header)
    else Update(Build(trans, ws, header, n - 1), OrderItems(trans[n - 1], header), ws[n - 1])
  }

  /** The build invariant after n transactions: the tree is linked to its header,
      the root keeps name 0 and count 0, and each item's chain carries the item's
      weight over those transactions. */
  ghost predicate Built(trans: seq<seq<int>>, ws: seq<int>, header: map<int, HeaderItem>, n: nat, tree: FPTree)
    requires n <= |ws| <= |trans|
  {
    Linked(tree) && tree.root.name == 0 && tree.root.count == 0 &&
    forall x :: x in header ==> x in tree.header && ChainSum(tree.root, tree.header[x].links) == Weight(trans, ws, n, x)
  }

  lemma BuildStep(trans: seq<seq<int>>, ws: seq<int>, header: map<int, HeaderItem>, n: nat)
    requires 0 < n <= |ws| <= |trans|
    requires Built(trans, ws, header, n - 1, Build(trans, ws, header, n - 1))
    ensures Built(trans, ws, header, n, Build(trans, ws, header, n))
  {
    BuildStepLinked(trans, ws, header, n);
    forall x | x in header
      ensures var tree := Build(trans, ws, header, n);
        x in tree.header && ChainSum(tree.root, tree.header[x].links) == Weight(trans, ws, n, x)
    {
      BuildStepChain(trans, ws, header, n, x);
    }
  }

  /** One build step keeps the tree linked and the root as it was. */
  lemma BuildStepLinked(trans: seq<seq<int>>, ws: seq<int>, header: map<int, HeaderItem>, n: nat)
    requires 0 < n <= |ws| <= |trans|
    requires var prev := Build(trans, ws, header, n - 1);
      Linked(prev) && prev.root.name == 0 && prev.root.count == 0
    ensures var tree := Build(trans, ws, header, n);
      Linked(tree) && tree.root.name == 0 && tree.root.count == 0
  {
    var prev := Build(trans, ws, header, n - 1);
    var items := OrderItems(trans[n - 1], header);
    StepLinked(prev, Build(trans, ws, header, n), items, ws[n - 1]);
  }

  lemma StepLinked(prev: FPTree, tree: FPTree, items: seq<int>, w: int)
    requires forall i :: 0 <= i < |items| ==> items[i] in prev.header
    requires tree == Update(prev, items, w)
    requires Linked(prev)
    ensures Linked(tree) && tree.root.name == prev.root.name && tree.root.count == prev.root.count
  {
    UpdateLinked(prev, items, w);
  }

  /** One build step adds the item's weight in the new transaction to its chain. */
  lemma BuildStepChain(trans: seq<seq<int>>, ws: seq<int>, header: map<int, HeaderItem>, n: nat, x: int)
    requires 0 < n <= |ws| <= |trans| && x in header
    requires var prev := Build(trans, ws, header, n - 1);
      ChainOf(prev.root, prev.header[x].links, x) &&
      ChainSum(prev.root, prev.header[x].links) == Weight(trans, ws, n - 1, x)
    ensures var tree := Build(trans, ws, header, n);
      x in tree.header && ChainSum(tree.root, tree.header[x].links) == Weight(trans, ws, n, x)
  {
    var prev := Build(trans, ws, header, n - 1);
    var items := OrderItems(trans[n - 1], header);
    var w := ws[n - 1];
    StepConserves(prev, Build(trans, ws, header, n), items, w, x);
    OrderKeepsOccurrences(trans[n - 1], header, x, w);
  }

  lemma StepConserves(prev: FPTree, tree: FPTree, items: seq<int>, w: int, x: int)
    requires forall i :: 0 <= i < |items| ==> items[i] in prev.header
    requires tree == Update(prev, items, w)
    requires x in prev.header && ChainOf(prev.root, prev.header[x].links, x)
    ensures x in tree.header
    ensures ChainSum(tree.root, tree.header[x].links) == ChainSum(prev.root, prev.header[x].links) + Occurrences(items, x, w)
  {
    UpdateConserves(prev, items, w, x);
  }

  lemma BuildBase(trans: seq<seq<int>>, ws: seq<int>, header: map<int, HeaderItem>)
    requires |ws| <= |trans|
    requires forall x :: x in header ==> header[x].links == []
    ensures Built(trans, ws, header, 0, Build(trans, ws, header, 0))
  {
    forall p | 1 <= |p|
      ensures !Exists(EmptyRoot, p)
    {
    }
    forall x | x in header
      ensures ChainOf(EmptyRoot, header[x].links, x)
    {
      forall p
        ensures p !in header[x].links && !NodeOf(EmptyRoot, p, x)
      {
        if 1 <= |p| {
          assert p[0] !in EmptyRoot.children;
        }
      }
    }
  }

  /** The invariant holds throughout the build. */
  lemma {:induction false} BuildInvariant(trans: seq<seq<int>>, ws: seq<int>, header: map<int, HeaderItem>, n: nat)
    requires n <= |ws| <= |trans|
    requires forall x :: x in header ==> header[x].links == []
    ensures Built(trans, ws, header, n, Build(trans, ws, header, n))
  {
    if n == 0 {
      BuildBase(trans, ws, header);
    } else {
      BuildInvariant(trans, ws, header, n - 1);
      BuildStep(trans, ws, header, n);
    }
  }

  /** `CreateFPTree`: the header table of the weighted transactions, then every
      transaction ordered by it and inserted.  count None stands for the absent
      weights (all 1). */
  function CreateFPTree(trans: seq<seq<int>>, count: Utility.Option<seq<int>>, minSupport: int): (tree: FPTree)
    ensures var ws := Weights(trans, count);
      forall x :: x in tree.header <==> Occurs(trans, |ws|, x) && Weight(trans, ws, |ws|, x) >= minSupport
    ensures var ws := Weights(trans, count);
      forall x :: x in tree.header ==> tree.header[x].count == Weight(trans, ws, |ws|, x)
    ensures tree.root.name == 0 && tree.root.count == 0
    ensures Linked(tree)
    ensures forall x :: x in tree.header ==> ChainSum(tree.root, tree.header[x].links) == tree.header[x].count
  {
    var ws := Weights(trans, count);
    var header := InitHeaderTable(trans, ws, minSupport);
    BuildInvariant(trans, ws, header, |ws|);
    Build(trans, ws, header, |ws|)
  }
}
