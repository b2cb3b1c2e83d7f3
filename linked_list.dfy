/**
 * The templated singly-linked list `List<T>` of list.h, with the element type
 * fixed to `int` (the code only ever compares elements with `==` and `>`).
 *
 * A list is a head pointer `hd` into a chain of heap nodes. The ghost field
 * `Nodes` names the chain node by node, `Contents` is the abstract value the
 * chain spells out, and `Repr` is the footprint: the list object and its nodes.
 *
 * The C++ code rewrites links through a `Node**` that points either at `hd` or
 * at some node's `next` field. Here that becomes a `prev: Node?` local: `null`
 * means "the link to rewrite is `hd`", otherwise it is `prev.next`.
 */
module LinkedList {
  import opened ListSpec

  /** The failure that `head`, `last`, `pop_head` and `pop_last` throw on an empty list. */
  datatype ListException = EmptyList

  /** The outcome of an accessor: the element read, or the exception it throws. */
  datatype Result<T> = Ok(value: T) | Err(error: ListException)

  /** One link of the chain. The element is never written after construction. */
  class Node {
    const datum: int
    var next: Node?

    constructor (datum: int, next: Node?)
      ensures this.datum == datum && this.next == next
    {
      this.datum := datum;
      this.next := next;
    }
  }

  /** The node that must follow position `i` of a well-formed chain (`null` after the last). */
  function NextOf(ns: seq<Node>, i: nat): (n: Node?)
  {
    if i + 1 < |ns| then ns[i + 1] else null
  }

  /** The node at position `i` of a chain, `null` past its end. */
  function NodeAt(ns: seq<Node>, i: nat): (n: Node?)
  {
    if i < |ns| then ns[i] else null
  }

  /** Distinct positions of a chain hold distinct nodes; past the end counts as one position. */
  lemma NodeAtInjective(ns: seq<Node>, a: nat, b: nat)
    requires Distinct(ns) && a <= |ns| && b <= |ns|
    ensures NodeAt(ns, a) == NodeAt(ns, b) ==> a == b
  {
    if a < b {
      assert ns[a] != NodeAt(ns, b);
    } else if b < a {
      assert ns[b] != NodeAt(ns, a);
    }
  }

  /** The node that position `i` points back to once its link is reversed (`null` for the first). */
  function PrevOf(ns: seq<Node>, i: nat): (n: Node?)
    requires i <= |ns|
  {
    if i == 0 then null else ns[i - 1]
  }

  /** The nodes of a chain, as a footprint. */
  ghost function NodeSet(ns: seq<Node>): (nodes: set<object>)
  {
    set n | n in ns
  }

  /** Moving a node to the front of a segment keeps the same set of nodes. */
  lemma MovedToFrontNodeSet(ns: seq<Node>, lo: nat, p: nat)
    requires lo <= p < |ns|
    ensures NodeSet(MovedToFront(ns, lo, p)) == NodeSet(ns)
  {
    MovedToFrontRearranged(ns, lo, p, |ns|);
    var ms := MovedToFront(ns, lo, p);
    forall n | n in ns ensures n in ms {
      assert n in multiset(ns);
    }
    forall n | n in ms ensures n in ns {
      assert n in multiset(ms);
    }
  }

  class List {
    var hd: Node?

    ghost var Contents: seq<int>
    ghost var Nodes: seq<Node>
    ghost var Repr: set<object>

    /**
     * The object invariant: `hd` starts a chain through exactly `Nodes`, every
     * link points at the next node and the last one at null, no node occurs
     * twice (so the chain is acyclic and unshared), and the elements spell out
     * `Contents`.
     */
    ghost predicate Valid()
      reads this, Repr
      ensures Valid() ==> this in Repr
    {
      this in Repr &&
      Repr == {this} + NodeSet(Nodes) &&
      |Contents| == |Nodes| &&
      hd == (if Nodes == [] then null else Nodes[0]) &&
      (forall i {:trigger Nodes[i].datum} :: 0 <= i < |Nodes| ==> Nodes[i].datum == Contents[i]) &&
      (forall i {:trigger Nodes[i].next} :: 0 <= i < |Nodes| ==> Nodes[i].next == NextOf(Nodes, i)) &&
      Distinct(Nodes)
    }

    /** `List()`: a new list is empty. */
    constructor ()
      ensures Valid() && fresh(Repr)
      ensures Contents == []
    {
      hd := null;
      Contents := [];
      Nodes := [];
      Repr := {this};
    }

    /** `cons`: prepend a new node holding `v`. */
    method Cons(v: int)
      requires Valid()
      modifies this
      ensures Valid() && fresh(Repr - old(Repr))
      ensures Contents == [v] + old(Contents)
      ensures Nodes[1..] == old(Nodes) && fresh(Nodes[0])
    {
      var newHead := new Node(v, hd);
      hd := newHead;
      Nodes := [newHead] + Nodes;
      Contents := [v] + Contents;
      Repr := Repr + {newHead};
    }

    /** `snoc`: walk to the end of the chain and append a new node holding `v`. */
    method Snoc(v: int)
      requires Valid()
      modifies Repr
      ensures Valid() && fresh(Repr - old(Repr))
      ensures Contents == old(Contents) + [v]
      ensures Nodes[..|Nodes| - 1] == old(Nodes) && fresh(Nodes[|Nodes| - 1])
    {
      var last := new Node(v, null);
      var prev: Node? := null;
      var step := hd;
      ghost var i := 0;
      while step != null
        invariant 0 <= i <= |Nodes|
        invariant step == NodeAt(Nodes, i)
        invariant prev == PrevOf(Nodes, i)
        decreases |Nodes| - i
      {
        prev := step;
        step := step.next;
        i := i + 1;
      }
      if prev == null {
        hd := last;
      } else {
        prev.next := last;
      }
      Nodes := Nodes + [last];
      Contents := Contents + [v];
      Repr := Repr + {last};
    }

    /** `init`: unlink and delete the last node; an empty list is left alone. */
    method Init()
      requires Valid()
      modifies Repr
      ensures Valid() && Repr <= old(Repr)
      ensures old(Contents) == [] ==> Contents == [] && Repr == old(Repr)
      ensures old(Contents) != [] ==> Contents == old(Contents)[..|old(Contents)| - 1]
      ensures Nodes == old(Nodes)[..|Nodes|]
    {
      var node := hd;
      var prev: Node? := null;
      ghost var i := 0;
      while node != null && node.next != null
        invariant Nodes == [] ==> node == null && i == 0
        invariant Nodes != [] ==> i < |Nodes| && node == Nodes[i]
        invariant prev == PrevOf(Nodes, i)
        decreases |Nodes| - i
      {
        prev := node;
        node := node.next;
        i := i + 1;
      }
      if node != null {
        // `node` is the last node; deleting it drops it from the footprint
        Nodes := Nodes[..i];
        Contents := Contents[..i];
        Repr := Repr - {node};
      }
      if prev == null {
        hd := null;
      } else {
        prev.next := null;
      }
    }

    /** `tail`: unlink and delete the first node; an empty list is left alone. */
    method Tail()
      requires Valid()
      modifies this
      ensures Valid() && Repr <= old(Repr)
      ensures old(Contents) == [] ==> Contents == [] && Repr == old(Repr)
      ensures old(Contents) != [] ==> Contents == old(Contents)[1..]
      ensures Nodes == old(Nodes)[|old(Nodes)| - |Nodes|..]
    {
      if hd != null {
        var newHead := hd.next;
        Repr := Repr - {hd};
        Nodes := Nodes[1..];
        Contents := Contents[1..];
        hd := newHead;
      }
    }

    /** `head`: the first element, or EMPTYLIST. */
    method Head() returns (r: Result<int>)
      requires Valid()
      ensures Contents == [] ==> r == Err(EmptyList)
      ensures Contents != [] ==> r == Ok(Contents[0])
    {
      if hd == null {
        return Err(EmptyList);
      }
      r := Ok(hd.datum);
    }

    /** `last`: walk to the final node and return its element, or EMPTYLIST. */
    method Last() returns (r: Result<int>)
      requires Valid()
      ensures Contents == [] ==> r == Err(EmptyList)
      ensures Contents != [] ==> r == Ok(Contents[|Contents| - 1])
    {
      if hd == null {
        return Err(EmptyList);
      }
      var step := hd;
      ghost var i := 0;
      while step.next != null
        invariant i < |Nodes| && step == Nodes[i]
        decreases |Nodes| - i
      {
        step := step.next;
        i := i + 1;
      }
      r := Ok(step.datum);
    }

    /**
     * `pop_head`: `head()` then `tail()`. The read comes first, so on an empty
     * list the exception leaves the list as it was.
     */
    method PopHead() returns (r: Result<int>)
      requires Valid()
      modifies this
      ensures Valid() && Repr <= old(Repr)
      ensures old(Contents) == [] ==> r == Err(EmptyList) && Contents == [] && Repr == old(Repr)
      ensures old(Contents) != [] ==> r == Ok(old(Contents)[0]) && Contents == old(Contents)[1..]
    {
      r := Head();
      if r.Ok? {
        Tail();
      }
    }

    /** `pop_last`: `last()` then `init()`, with the same failure contract as PopHead. */
    method PopLast() returns (r: Result<int>)
      requires Valid()
      modifies Repr
      ensures Valid() && Repr <= old(Repr)
      ensures old(Contents) == [] ==> r == Err(EmptyList) && Contents == [] && Repr == old(Repr)
      ensures old(Contents) != [] ==>
        r == Ok(old(Contents)[|old(Contents)| - 1]) &&
        Contents == old(Contents)[..|old(Contents)| - 1]
    {
      r := Last();
      if r.Ok? {
        Init();
      }
    }

    /** `remove`: unlink and delete the first node holding `v`, if any. */
    method Remove(v: int)
      requires Valid()
      modifies Repr
      ensures Valid() && Repr <= old(Repr)
      ensures Contents == RemoveFirst(old(Contents), v)
      ensures v !in old(Contents) ==> Nodes == old(Nodes)
      ensures v in old(Contents) ==>
        exists i :: 0 <= i < |old(Nodes)| && old(Contents)[i] == v && v !in old(Contents)[..i] &&
          Nodes == old(Nodes)[..i] + old(Nodes)[i + 1..]
    {
      var prev: Node? := null;
      var step := hd;
      ghost var i := 0;
      while step != null
        invariant Valid() && Repr == old(Repr)
        invariant Contents == old(Contents) && Nodes == old(Nodes)
        invariant 0 <= i <= |Nodes|
        invariant step == NodeAt(Nodes, i)
        invariant prev == PrevOf(Nodes, i)
        invariant v !in Contents[..i]
        decreases |Nodes| - i
      {
        if step.datum == v {
          RemoveFirstAt(Contents, v, i);
          Unlink(prev, i);
          assert old(Contents)[i] == v && v !in old(Contents)[..i];
          return;
        } else {
          prev := step;
          step := step.next;
          i := i + 1;
        }
      }
      assert Contents[..i] == Contents;
      RemoveFirstAbsent(Contents, v);
    }

    /** `purge`: unlink and delete every node holding `v`, keeping the others in order. */
    method Purge(v: int)
      requires Valid()
      modifies Repr
      ensures Valid() && Repr <= old(Repr)
      ensures Contents == ListSpec.Purge(old(Contents), v)
    {
      var prev: Node? := null;
      var step := hd;
      ghost var before := Contents;
      ghost var i := 0;  // position of `step` in the current chain
      ghost var j := 0;  // how many of the original elements have been scanned
      PurgeScanStart(before, v);
      while step != null
        invariant Valid() && Repr <= old(Repr)
        invariant PurgeScanned(before, v, j, Contents, i)
        invariant step == NodeAt(Nodes, i)
        invariant prev == PrevOf(Nodes, i)
        decreases |before| - j
      {
        PurgeScanStep(before, v, j, Contents, i);
        if step.datum == v {
          Unlink(prev, i);
          step := if prev == null then hd else prev.next;
        } else {
          prev := step;
          step := step.next;
          i := i + 1;
        }
        j := j + 1;
      }
      PurgeScanDone(before, v, j, Contents, i);
    }

    /** `drop`: delete the first `k` nodes, or all of them when the list is shorter. */
    method Drop(k: nat)
      requires Valid()
      modifies this
      ensures Valid() && Repr <= old(Repr)
      ensures Contents == old(Contents)[Min(k, |old(Contents)|)..]
      ensures Nodes == old(Nodes)[Min(k, |old(Contents)|)..]
    {
      var step := hd;
      var remaining := k;
      ghost var i := 0;
      while step != null && remaining > 0
        invariant i <= |Nodes| && i + remaining == k
        invariant step == NodeAt(Nodes, i)
        decreases remaining
      {
        step := step.next;  // the node left behind is deleted
        remaining := remaining - 1;
        i := i + 1;
      }
      hd := step;
      Nodes := Nodes[i..];
      Contents := Contents[i..];
      Repr := {this} + NodeSet(Nodes);
    }

    /** `take`: keep the first `k` nodes and delete the rest of the chain. */
    method Take(k: nat)
      requires Valid()
      modifies Repr
      ensures Valid() && Repr <= old(Repr)
      ensures Contents == old(Contents)[..Min(k, |old(Contents)|)]
      ensures Nodes == old(Nodes)[..Min(k, |old(Contents)|)]
    {
      var prev: Node? := null;
      var step := hd;
      var remaining := k;
      ghost var i := 0;
      while step != null && remaining > 0
        invariant i <= |Nodes| && i + remaining == k
        invariant step == NodeAt(Nodes, i)
        invariant prev == PrevOf(Nodes, i)
        decreases remaining
      {
        prev := step;
        step := step.next;
        remaining := remaining - 1;
        i := i + 1;
      }
      if prev == null {
        hd := null;
      } else {
        prev.next := null;
      }
      // the chain from `step` on is destroyed
      Truncate(i);
    }

    /**
     * `sort`: quicksort the chain in place by relinking its nodes. No node is
     * created or deleted; the nodes are only put in another order.
     */
    method Sort()
      requires Valid()
      modifies Repr
      ensures Valid() && Repr == old(Repr)
      ensures Sorted(Contents) && multiset(Contents) == multiset(old(Contents))
      ensures multiset(Nodes) == multiset(old(Nodes))
      ensures Sorted(old(Contents)) ==> Contents == old(Contents)
    {
      QSort(null, null, 0, |Nodes|);
      assert Contents[0..|Contents|] == Contents;
      if Sorted(old(Contents)) {
        SortedUnique(Contents, old(Contents));
      }
    }

    /**
     * `qsort(headRef, last)`: sort the segment `[lo, hi)` of the chain, which
     * starts at the link `pred` (`hd` when `pred` is null) and ends just
     * before the node `last` (`null` for the end of the chain). The first node
     * is the pivot; every later node whose element is not greater than the
     * pivot's is moved to the front of the segment, and then both sides of the
     * pivot are sorted the same way.
     */
    method QSort(pred: Node?, last: Node?, ghost lo: nat, ghost hi: nat)
      requires Valid() && lo <= hi <= |Nodes|
      requires pred == PrevOf(Nodes, lo) && last == NodeAt(Nodes, hi)
      modifies Repr
      ensures Valid() && Repr == old(Repr)
      ensures Rearranged(old(Nodes), Nodes, lo, hi)
      ensures Rearranged(old(Contents), Contents, lo, hi)
      ensures Sorted(Contents[lo..hi])
      decreases hi - lo
    {
      var first := if pred == null then hd else pred.next;
      NodeAtInjective(Nodes, lo, hi);
      if first == last || first == null {
        return;
      }
      ghost var np, cp := Nodes, Contents;
      var pivot, m := Partition(pred, last, lo, hi);
      ghost var n1, c1 := Nodes, Contents;
      QSort(pred, pivot, lo, m);
      ghost var n2, c2 := Nodes, Contents;
      QSort(pivot, last, m + 1, hi);
      QuickSortCombine(c1, c2, Contents, lo, m, hi);
      RearrangedTrans(cp, c1, Contents, lo, hi, lo, hi);
      RearrangedSides(n1, n2, Nodes, lo, m, hi);
      RearrangedTrans(np, n1, Nodes, lo, hi, lo, hi);
    }

    /**
     * The partition loop of `qsort`, for a non-empty segment `[lo, hi)`: the
     * first node is the pivot, and every later node whose element is not
     * greater than the pivot's is moved to the front of the segment. The
     * pivot ends up at position `m`, with the elements not greater than it in
     * front of it and the greater ones after it.
     */
    method Partition(pred: Node?, last: Node?, ghost lo: nat, ghost hi: nat) returns (pivot: Node, ghost m: nat)
      requires Valid() && lo < hi <= |Nodes|
      requires pred == PrevOf(Nodes, lo) && last == NodeAt(Nodes, hi)
      modifies Repr
      ensures Valid() && Repr == old(Repr)
      ensures Rearranged(old(Nodes), Nodes, lo, hi)
      ensures Rearranged(old(Contents), Contents, lo, hi)
      ensures pred == PrevOf(Nodes, lo) && last == NodeAt(Nodes, hi)
      ensures lo <= m < hi && pivot == Nodes[m]
      ensures Partitioned(Contents, lo, m, hi)
    {
      pivot := if pred == null then hd else pred.next;
      var step := pivot.next;
      var prev := pivot;
      m := lo;                // position of the pivot
      ghost var p := lo + 1;  // position of `step`
      while step != last
        invariant Valid() && Repr == old(Repr)
        invariant lo <= m < p <= hi <= |Nodes|
        invariant Rearranged(old(Nodes), Nodes, lo, hi)
        invariant Rearranged(old(Contents), Contents, lo, hi)
        invariant pred == PrevOf(Nodes, lo) && last == NodeAt(Nodes, hi)
        invariant pivot == Nodes[m] && prev == Nodes[p - 1] && step == NodeAt(Nodes, p)
        invariant Partitioned(Contents, lo, m, p)
        decreases hi - p
      {
        prev, step, m, p := PartitionStep(pred, prev, step, pivot, last, lo, m, p, hi, old(Nodes), old(Contents));
      }
      NodeAtInjective(Nodes, p, hi);
    }

    /**
     * One turn of the partition loop: the node `step` at position `p` is
     * either left where it is, when its element is greater than the pivot's,
     * or moved to the front of the segment.
     */
    method PartitionStep(pred: Node?, prev: Node, step: Node?, pivot: Node, last: Node?,
                         ghost lo: nat, ghost m: nat, ghost p: nat, ghost hi: nat,
                         ghost n0: seq<Node>, ghost c0: seq<int>)
      returns (prev': Node, step': Node?, ghost m': nat, ghost p': nat)
      requires Valid() && lo <= m < p <= hi <= |Nodes| && step != last
      requires Rearranged(n0, Nodes, lo, hi) && Rearranged(c0, Contents, lo, hi)
      requires pred == PrevOf(Nodes, lo) && last == NodeAt(Nodes, hi)
      requires pivot == Nodes[m] && prev == Nodes[p - 1] && step == NodeAt(Nodes, p)
      requires Partitioned(Contents, lo, m, p)
      modifies Repr
      ensures Valid() && Repr == old(Repr)
      ensures lo <= m' < p' <= hi && p' == p + 1
      ensures Rearranged(n0, Nodes, lo, hi) && Rearranged(c0, Contents, lo, hi)
      ensures pred == PrevOf(Nodes, lo) && last == NodeAt(Nodes, hi)
      ensures pivot == Nodes[m'] && prev' == Nodes[p' - 1] && step' == NodeAt(Nodes, p')
      ensures Partitioned(Contents, lo, m', p')
    {
      NodeAtInjective(Nodes, p, hi);
      assert p < |Nodes| && step == Nodes[p] && step.next == NodeAt(Nodes, p + 1);
      assert step.datum == Contents[p] && pivot.datum == Contents[m];
      if step.datum > pivot.datum {
        prev', step', m', p' := step, step.next, m, p + 1;
      } else {
        var next := step.next;
        MoveBeforePivot(pred, prev, step, pivot, last, lo, m, p, hi, n0, c0);
        prev', step', m', p' := prev, next, m + 1, p + 1;
      }
    }

    /**
     * The move of the partition loop: the node `step` at position `p`, whose
     * element is not greater than the pivot's, is moved to the front of the
     * segment, so the pivot and the scanned part shift one place back.
     */
    method MoveBeforePivot(pred: Node?, prev: Node, step: Node, pivot: Node, last: Node?,
                           ghost lo: nat, ghost m: nat, ghost p: nat, ghost hi: nat,
                           ghost n0: seq<Node>, ghost c0: seq<int>)
      requires Valid() && lo <= m < p < hi <= |Nodes|
      requires Rearranged(n0, Nodes, lo, hi) && Rearranged(c0, Contents, lo, hi)
      requires pred == PrevOf(Nodes, lo) && last == NodeAt(Nodes, hi)
      requires pivot == Nodes[m] && prev == Nodes[p - 1] && step == Nodes[p]
      requires Partitioned(Contents, lo, m, p) && Contents[p] <= Contents[m]
      modifies Repr
      ensures Valid() && Repr == old(Repr)
      ensures Rearranged(n0, Nodes, lo, hi) && Rearranged(c0, Contents, lo, hi)
      ensures pred == PrevOf(Nodes, lo) && last == NodeAt(Nodes, hi)
      ensures pivot == Nodes[m + 1] && prev == Nodes[p] && NodeAt(Nodes, p + 1) == old(NodeAt(Nodes, p + 1))
      ensures Partitioned(Contents, lo, m + 1, p + 1)
    {
      ghost var ns, cs := Nodes, Contents;
      SpliceToFront(pred, prev, step, lo, p);
      MovedToFrontAt(ns, lo, p);
      NodeAtInjective(ns, p + 1, hi);
      PartitionedSplice(cs, lo, m, p);
      MovedToFrontRearranged(ns, lo, p, hi);
      RearrangedTrans(n0, ns, Nodes, lo, hi, lo, hi);
      MovedToFrontRearranged(cs, lo, p, hi);
      RearrangedTrans(c0, cs, Contents, lo, hi, lo, hi);
    }

    /** `elem`: is some element equal to `v`? */
    method Elem(v: int) returns (found: bool)
      requires Valid()
      ensures found <==> v in Contents
    {
      var step := hd;
      ghost var i := 0;
      while step != null
        invariant i <= |Nodes|
        invariant step == NodeAt(Nodes, i)
        invariant v !in Contents[..i]
        decreases |Nodes| - i
      {
        if step.datum == v {
          return true;
        }
        step := step.next;
        i := i + 1;
      }
      assert Contents[..i] == Contents;
      return false;
    }

    /** `reverse`: turn every link around in place; the old last node becomes the head. */
    method Reverse()
      requires Valid()
      modifies Repr
      ensures Valid() && Repr == old(Repr)
      ensures Contents == Reversed(old(Contents))
      ensures Nodes == Reversed(old(Nodes))
    {
      var step := hd;
      var prev: Node? := null;
      ghost var ns := Nodes;
      ghost var i := 0;
      assert forall p, q :: 0 <= p < q < |ns| ==> ns[p] != ns[q];
      while step != null
        modifies NodeSet(ns)
        invariant i <= |ns|
        invariant step == NodeAt(ns, i)
        invariant prev == PrevOf(ns, i)
        invariant forall p {:trigger ns[p].next} :: 0 <= p < |ns| ==> ns[p].next == if p < i then PrevOf(ns, p) else NextOf(ns, p)
        decreases |ns| - i
      {
        var next := step.next;
        step.next := prev;
        prev := step;
        step := next;
        i := i + 1;
      }
      hd := prev;
      AdoptReversed(ns);
    }

    /**
     * Ghost bookkeeping after every link of the chain `Nodes` has been turned
     * around and `hd` points at its old last node.
     */
    ghost method AdoptReversed(ns: seq<Node>)
      requires Nodes == ns && |Contents| == |Nodes|
      requires this in Repr && Repr == {this} + NodeSet(Nodes)
      requires Distinct(Nodes)
      requires forall p :: 0 <= p < |Nodes| ==> Nodes[p].datum == Contents[p]
      requires hd == (if Nodes == [] then null else Nodes[|Nodes| - 1])
      requires forall p {:trigger ns[p].next} :: 0 <= p < |ns| ==> ns[p].next == PrevOf(ns, p)
      modifies this
      ensures Valid() && Repr == old(Repr)
      ensures Nodes == Reversed(old(Nodes)) && Contents == Reversed(old(Contents))
    {
      var rs := Reversed(ns);
      ReversedAt(ns);
      ReversedAt(Contents);
      forall p {:trigger rs[p].next} | 0 <= p < |rs|
        ensures rs[p].next == NextOf(rs, p)
      {
        var q := |ns| - 1 - p;
        assert rs[p] == ns[q];
        assert ns[q].next == PrevOf(ns, q);
        if p + 1 < |rs| {
          assert rs[p + 1] == ns[q - 1];
        }
      }
      Nodes := rs;
      Contents := Reversed(Contents);
      assert NodeSet(Nodes) == NodeSet(ns) by {
        assert forall p :: 0 <= p < |ns| ==> Nodes[|ns| - 1 - p] == ns[p];
      }
    }

    /**
     * Ghost bookkeeping after the link out of `Nodes[i - 1]` (or `hd`, when `i`
     * is 0) has been cut: the chain ends there, and every node after it is
     * deleted from the footprint.
     */
    ghost method Truncate(i: nat)
      requires i <= |Nodes| && |Contents| == |Nodes|
      requires this in Repr && Repr == {this} + NodeSet(Nodes)
      requires Distinct(Nodes)
      requires forall p :: 0 <= p < |Nodes| ==> Nodes[p].datum == Contents[p]
      requires hd == (if i == 0 then null else Nodes[0])
      requires forall p {:trigger Nodes[p].next} :: 0 <= p < i - 1 ==> Nodes[p].next == NextOf(Nodes, p)
      requires i > 0 ==> Nodes[i - 1].next == null
      modifies this
      ensures Valid()
      ensures Nodes == old(Nodes[..i]) && Contents == old(Contents[..i])
      ensures Repr == old(Repr) - NodeSet(old(Nodes[i..]))
    {
      var gone := NodeSet(Nodes[i..]);
      assert Nodes == Nodes[..i] + Nodes[i..];
      Nodes := Nodes[..i];
      Contents := Contents[..i];
      Repr := Repr - gone;
      assert Repr == {this} + NodeSet(Nodes);
    }

    /**
     * The cut that `remove` and `purge` make: bypass the node at position `i`
     * by pointing the link that leads to it (`hd` when `prev` is null,
     * otherwise `prev.next`) at its successor, and drop it from the footprint.
     */
    method Unlink(prev: Node?, ghost i: nat)
      requires Valid() && i < |Nodes| && prev == PrevOf(Nodes, i)
      modifies Repr
      ensures Valid()
      ensures Nodes == old(Nodes[..i] + Nodes[i + 1..])
      ensures Contents == old(Contents[..i] + Contents[i + 1..])
      ensures Repr == old(Repr) - {old(Nodes[i])}
      ensures (if prev == null then hd else prev.next) == (NodeAt(Nodes, i))
    {
      var step := if prev == null then hd else prev.next;
      ghost var ns := Nodes;
      ghost var rest := ns[..i] + ns[i + 1..];
      if prev == null {
        hd := step.next;
      } else {
        prev.next := step.next;
      }
      forall p {:trigger rest[p].next} | 0 <= p < |rest|
        ensures rest[p].next == NextOf(rest, p)
      {
        if p < i {
          assert rest[p] == ns[p];
          if p < i - 1 {
            assert ns[p] != ns[i - 1];
          }
        } else {
          assert rest[p] == ns[p + 1];
          if i > 0 {
            assert ns[p + 1] != ns[i - 1];
          }
        }
      }
      forall p, q | 0 <= p < q < |rest|
        ensures rest[p] != rest[q]
      {
        assert rest[p] == ns[if p < i then p else p + 1];
        assert rest[q] == ns[if q < i then q else q + 1];
      }
      Nodes := rest;
      Contents := Contents[..i] + Contents[i + 1..];
      Repr := Repr - {step};
    }

    /**
     * The move of the partition scan of `qsort`: detach the node at position
     * `p` from its predecessor, link it to the current front of the segment
     * that starts at position `lo` (whose link is `pred`), and make it the
     * new front.
     */
    method SpliceToFront(pred: Node?, prev: Node, step: Node, ghost lo: nat, ghost p: nat)
      requires Valid() && lo < p < |Nodes|
      requires pred == PrevOf(Nodes, lo) && prev == Nodes[p - 1] && step == Nodes[p]
      modifies Repr
      ensures Valid() && Repr == old(Repr)
      ensures Nodes == MovedToFront(old(Nodes), lo, p)
      ensures Contents == MovedToFront(old(Contents), lo, p)
    {
      ghost var ns := Nodes;
      ghost var ms := MovedToFront(ns, lo, p);
      MovedToFrontAt(ns, lo, p);
      MovedToFrontAt(Contents, lo, p);
      prev.next := step.next;
      if pred == null {
        step.next := hd;
        hd := step;
      } else {
        step.next := pred.next;
        pred.next := step;
      }
      forall k {:trigger ms[k].next} | 0 <= k < |ms|
        ensures ms[k].next == NextOf(ms, k)
      {
        if k + 1 < lo {
          assert ms[k] == ns[k] && ms[k + 1] == ns[k + 1];
          assert ns[k] != ns[lo - 1];
          assert ns[k] != ns[p - 1];
          assert ns[k] != ns[p];
        } else if k + 1 == lo {
          assert ms[k] == pred && ms[k + 1] == step;
        } else if k == lo {
          assert ms[k + 1] == ns[lo];
        } else if k < p {
          assert ms[k] == ns[k - 1] && ms[k + 1] == ns[k];
          assert ns[k - 1] != ns[p];
          if k - 1 < p - 1 {
            assert ns[k - 1] != ns[p - 1];
          }
          if lo > 0 {
            assert ns[lo - 1] != ns[k - 1];
          }
        } else if k == p {
          assert ms[k] == prev;
        } else {
          assert ms[k] == ns[k];
          assert ns[p - 1] != ns[k];
          assert ns[p] != ns[k];
          if lo > 0 {
            assert ns[lo - 1] != ns[k];
          }
        }
      }
      MovedToFrontDistinct(ns, lo, p);
      MovedToFrontNodeSet(ns, lo, p);
      Nodes := ms;
      Contents := MovedToFront(Contents, lo, p);
    }
  }
}
