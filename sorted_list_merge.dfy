/** A singly linked list of integers with a tail pointer, and the merge of two
    ascending lists into one by relinking their nodes (no node is copied).

    Nodes are heap objects; a list keeps its head (`start`), its tail (`end`)
    and a node counter (`length`). The ghost `spine` is the sequence of nodes
    reached from `start`, and `Contents` the values they hold. */
module SortedListMerge {

  datatype Option<T> = None | Some(value: T)

  /** `s` is in ascending order (duplicates allowed). */
  ghost predicate Sorted(s: seq<int>) {
    forall i, j :: 0 <= i < j < |s| ==> s[i] <= s[j]
  }

  /** The two-pointer merge on values: while both inputs are non-empty the
      smaller head goes first, and on equal heads the head of `y` goes first
      (the comparison is a strict `x[0] < y[0]`); once one input is empty the
      rest of the other follows in its own order. */
  ghost function MergeSeq(x: seq<int>, y: seq<int>): seq<int>
    decreases |x| + |y|
  {
    if x == [] then y
    else if y == [] then x
    else if x[0] < y[0] then [x[0]] + MergeSeq(x[1..], y)
    else [y[0]] + MergeSeq(x, y[1..])
  }

  /** The first element of a merge is the head of one of the inputs. */
  lemma {:induction false} MergeHead(x: seq<int>, y: seq<int>)
    requires x != [] || y != []
    ensures MergeSeq(x, y) != []
    ensures MergeSeq(x, y)[0] == (if x == [] then y[0] else if y == [] then x[0]
                                  else if x[0] < y[0] then x[0] else y[0])
  {
  }

  /** Merging two ascending sequences gives an ascending sequence. */
  lemma {:induction false} MergeSorted(x: seq<int>, y: seq<int>)
    requires Sorted(x) && Sorted(y)
    ensures Sorted(MergeSeq(x, y))
    decreases |x| + |y|
  {
    if x == [] || y == [] {
    } else if x[0] < y[0] {
      var rest := MergeSeq(x[1..], y);
      MergeSorted(x[1..], y);
      if rest != [] {
        MergeHead(x[1..], y);
      }
      assert MergeSeq(x, y) == [x[0]] + rest;
      forall k | 0 < k < |MergeSeq(x, y)|
        ensures x[0] <= MergeSeq(x, y)[k]
      {
        assert rest[0] <= rest[k - 1];
      }
    } else {
      var rest := MergeSeq(x, y[1..]);
      MergeSorted(x, y[1..]);
      if rest != [] {
        MergeHead(x, y[1..]);
      }
      assert MergeSeq(x, y) == [y[0]] + rest;
      forall k | 0 < k < |MergeSeq(x, y)|
        ensures y[0] <= MergeSeq(x, y)[k]
      {
        assert rest[0] <= rest[k - 1];
      }
    }
  }

  /** A merge holds exactly the elements of both inputs, with multiplicity. */
  lemma {:induction false} MergePermutation(x: seq<int>, y: seq<int>)
    ensures multiset(MergeSeq(x, y)) == multiset(x) + multiset(y)
    ensures |MergeSeq(x, y)| == |x| + |y|
    decreases |x| + |y|
  {
    if x == [] || y == [] {
    } else if x[0] < y[0] {
      MergePermutation(x[1..], y);
      assert MergeSeq(x, y) == [x[0]] + MergeSeq(x[1..], y);
      assert x == [x[0]] + x[1..];
    } else {
      MergePermutation(x, y[1..]);
      assert MergeSeq(x, y) == [y[0]] + MergeSeq(x, y[1..]);
      assert y == [y[0]] + y[1..];
    }
  }

  /** When no element of `x` is strictly below an element of `y`, the whole of
      `y` comes first: ties always go to the second list. */
  lemma {:induction false} MergeSecondFirst(x: seq<int>, y: seq<int>)
    requires forall i, j :: 0 <= i < |x| && 0 <= j < |y| ==> y[j] <= x[i]
    ensures MergeSeq(x, y) == y + x
    decreases |y|
  {
    if x == [] || y == [] {
    } else {
      MergeSecondFirst(x, y[1..]);
      assert y + x == [y[0]] + (y[1..] + x);
    }
  }

  /** When every element of `x` is strictly below every element of `y`, the
      whole of `x` comes first. */
  lemma {:induction false} MergeFirstFirst(x: seq<int>, y: seq<int>)
    requires forall i, j :: 0 <= i < |x| && 0 <= j < |y| ==> x[i] < y[j]
    ensures MergeSeq(x, y) == x + y
    decreases |x|
  {
    if x == [] || y == [] {
    } else {
      MergeFirstFirst(x[1..], y);
      assert x + y == [x[0]] + (x[1..] + y);
    }
  }

  /** Which input each element of `MergeSeq(x, y)` is taken from: `true` for
      `x`, `false` for `y`. */
  ghost function MergeFrom(x: seq<int>, y: seq<int>): seq<bool>
    decreases |x| + |y|
  {
    if x == [] then seq(|y|, _ => false)
    else if y == [] then seq(|x|, _ => true)
    else if x[0] < y[0] then [true] + MergeFrom(x[1..], y)
    else [false] + MergeFrom(x, y[1..])
  }

  lemma {:induction false} MergeFromLength(x: seq<int>, y: seq<int>)
    ensures |MergeFrom(x, y)| == |MergeSeq(x, y)|
    decreases |x| + |y|
  {
    if x == [] || y == [] {
    } else if x[0] < y[0] {
      MergeFromLength(x[1..], y);
    } else {
      MergeFromLength(x, y[1..]);
    }
  }

  /** The merged element at `p` comes from the input that `MergeFrom` names. */
  lemma {:induction false} MergeFromIn(x: seq<int>, y: seq<int>, p: int)
    requires 0 <= p < |MergeSeq(x, y)| && p < |MergeFrom(x, y)|
    ensures if MergeFrom(x, y)[p] then MergeSeq(x, y)[p] in x else MergeSeq(x, y)[p] in y
    decreases |x| + |y|
  {
    if x == [] || y == [] {
    } else if x[0] < y[0] {
      if p != 0 {
        MergeFromIn(x[1..], y, p - 1);
        assert MergeSeq(x, y)[p] == MergeSeq(x[1..], y)[p - 1];
        assert MergeFrom(x, y)[p] == MergeFrom(x[1..], y)[p - 1];
        assert MergeSeq(x, y)[p] in x[1..] ==> MergeSeq(x, y)[p] in x;
      }
    } else {
      if p != 0 {
        MergeFromIn(x, y[1..], p - 1);
        assert MergeSeq(x, y)[p] == MergeSeq(x, y[1..])[p - 1];
        assert MergeFrom(x, y)[p] == MergeFrom(x, y[1..])[p - 1];
        assert MergeSeq(x, y)[p] in y[1..] ==> MergeSeq(x, y)[p] in y;
      }
    }
  }

  /** Ties go to the second list throughout: in a merge of ascending inputs,
      an element taken from `y` comes before every equal element taken from
      `x`. */
  lemma {:induction false} MergeTiesSecondFirst(x: seq<int>, y: seq<int>, p: int, q: int)
    requires Sorted(x) && Sorted(y)
    requires 0 <= p < |MergeSeq(x, y)| && 0 <= q < |MergeSeq(x, y)|
    requires MergeSeq(x, y)[p] == MergeSeq(x, y)[q]
    requires |MergeFrom(x, y)| == |MergeSeq(x, y)|
    requires !MergeFrom(x, y)[p] && MergeFrom(x, y)[q]
    ensures p < q
    decreases |x| + |y|
  {
    if x == [] || y == [] {
    } else if x[0] < y[0] {
      // the element at p came from `y`, so it is at least y[0] > x[0]; hence
      // it is not the head x[0] and q != 0
      assert y[0] <= MergeSeq(x, y)[p] by {
        MergeFromIn(x, y, p);
        var k :| 0 <= k < |y| && y[k] == MergeSeq(x, y)[p];
        assert k == 0 || y[0] <= y[k];
      }
      if q != 0 {
        MergeFromLength(x[1..], y);
        MergeTiesSecondFirst(x[1..], y, p - 1, q - 1);
      }
    } else if p != 0 {
      MergeFromLength(x, y[1..]);
      MergeTiesSecondFirst(x, y[1..], p - 1, q - 1);
    }
  }

  class Node {
    const val: int
    var next: Node?

    constructor (t: int)
      ensures val == t && next == null
    {
      val := t;
      next := null;
    }
  }

  /** The nodes occurring in `ns`. */
  ghost function Elements(ns: seq<Node>): set<Node> {
    set n | n in ns
  }

  /** `ns[from..]` is a chain of `next` links ending in a node whose `next` is
      empty. */
  ghost predicate Chain(ns: seq<Node>, from: nat)
    reads Elements(ns)
  {
    (forall k :: from <= k < |ns| - 1 ==> ns[k].next == ns[k + 1]) &&
    (from < |ns| ==> ns[|ns| - 1].next == null)
  }

  /** No node occurs twice in `ns`. */
  ghost predicate Distinct(ns: seq<Node>) {
    forall i, j :: 0 <= i < j < |ns| ==> ns[i] != ns[j]
  }

  class LinkedList {
    var length: nat
    var start: Node?
    var end: Node?

    // public view
    ghost var spine: seq<Node>
    ghost var Contents: seq<int>

    /** `start` and `end` are the first and last nodes of a chain of distinct
        nodes whose values are `Contents`. `length` is not part of this: the
        merge below leaves it behind. */
    ghost predicate Valid()
      reads this, Elements(spine)
    {
      (spine == [] ==> start == null && end == null) &&
      (spine != [] ==> start == spine[0] && end == spine[|spine| - 1]) &&
      Chain(spine, 0) && Distinct(spine) &&
      |Contents| == |spine| &&
      (forall k :: 0 <= k < |spine| ==> spine[k].val == Contents[k])
    }

    constructor ()
      ensures Valid() && fresh(this)
      ensures length == 0 && start == null && end == null
      ensures spine == [] && Contents == []
    {
      length := 0;
      start := null;
      end := null;
      spine := [];
      Contents := [];
    }

    /** Appends a fresh node holding `obj` at the tail and counts it. */
    method Add(obj: int)
      requires Valid()
      modifies this, Elements(spine)
      ensures Valid()
      ensures Contents == old(Contents) + [obj]
      ensures length == old(length) + 1
      ensures fresh(end) && end.next == null && spine == old(spine) + [end]
      ensures start == (if old(spine) == [] then end else old(start))
    {
      var node := new Node(obj);
      if end == null {
        start := node;
      } else {
        end.next := node;
      }
      end := node;
      length := length + 1;
      spine := spine + [node];
      Contents := Contents + [obj];
    }

    /** The value `index` steps after `node`, which sits at position `k` of
        the spine (`k == |spine|` stands for the empty link). A negative
        index never reaches zero, so the walk runs off the end. */
    method GetIthNode(node: Node?, index: int, ghost k: nat) returns (r: Option<int>)
      requires Valid()
      requires k <= |spine| && node == (if k < |spine| then spine[k] else null)
      ensures r == if 0 <= index < |spine| - k then Some(Contents[k + index]) else None
      decreases |spine| - k
    {
      if node == null {
        r := None;
      } else if index == 0 {
        r := Some(node.val);
      } else {
        r := GetIthNode(node.next, index - 1, k + 1);
      }
    }

    /** The value at zero-based position `index`, or None when there is none. */
    method Get(index: int) returns (r: Option<int>)
      requires Valid()
      ensures r.Some? <==> 0 <= index < |Contents|
      ensures r.Some? ==> r.value == Contents[index]
    {
      r := GetIthNode(start, index, 0);
    }

    /** Appends the single node `node` at the tail, making it the new tail.
        The node counter is left as it is. */
    method Splice(node: Node)
      requires Valid() && node !in spine
      modifies this, Elements(spine), node
      ensures Valid()
      ensures spine == old(spine) + [node] && Contents == old(Contents) + [node.val]
      ensures start == (if old(spine) == [] then node else old(start)) && end == node
      ensures length == old(length)
    {
      if end == null {
        start := node;
      } else {
        end.next := node;
      }
      end := node;
      node.next := null;
      spine := spine + [node];
      Contents := Contents + [node.val];
    }

    /** Merges `listA` and `listB` by moving their nodes, one at a time, onto
        a new list: the smaller head first, the head of `listB` on ties, then
        what is left of the other list. No node is created; the new list's
        counter is never advanced. */
    static method Merge(listA: LinkedList, listB: LinkedList) returns (listC: LinkedList)
      requires listA.Valid() && listB.Valid()
      requires forall i, j :: 0 <= i < |listA.spine| && 0 <= j < |listB.spine| ==>
                 listA.spine[i] != listB.spine[j]
      modifies Elements(listA.spine), Elements(listB.spine)
      ensures fresh(listC) && listC.Valid()
      ensures listC.Contents == MergeSeq(old(listA.Contents), old(listB.Contents))
      ensures multiset(listC.spine) == multiset(old(listA.spine)) + multiset(old(listB.spine))
      ensures Sorted(old(listA.Contents)) && Sorted(old(listB.Contents)) ==> Sorted(listC.Contents)
      ensures multiset(listC.Contents) == multiset(old(listA.Contents)) + multiset(old(listB.Contents))
      ensures listC.length == 0
    {
      ghost var sa, sb := listA.spine, listB.spine;
      ghost var ca, cb := listA.Contents, listB.Contents;
      listC := new LinkedList();
      var nodeA, nodeB := listA.start, listB.start;
      ghost var i, j := 0, 0;
      // Each invariant `MergeInv(..) == true` is kept whole rather than split
      // into its conjuncts: TakeFirst and TakeSecond re-establish it as one fact.
      while nodeA != null && nodeB != null
        invariant MergeInv(listC, sa, sb, ca, cb, i, j, nodeA, nodeB) == true
        invariant fresh(listC) && listC.length == 0
        decreases |sa| - i + |sb| - j
      {
        if nodeA.val < nodeB.val {
          var nextA := nodeA.next;
          TakeFirst(listC, sa, sb, ca, cb, i, j, nodeA, nodeB);
          nodeA := nextA;
          i := i + 1;
        } else {
          var nextB := nodeB.next;
          TakeSecond(listC, sa, sb, ca, cb, i, j, nodeA, nodeB);
          nodeB := nextB;
          j := j + 1;
        }
      }
      while nodeA != null
        invariant MergeInv(listC, sa, sb, ca, cb, i, j, nodeA, nodeB) == true
        invariant nodeA == null || nodeB == null
        invariant fresh(listC) && listC.length == 0
        decreases |sa| - i
      {
        var nextA := nodeA.next;
        TakeFirst(listC, sa, sb, ca, cb, i, j, nodeA, nodeB);
        nodeA := nextA;
        i := i + 1;
      }
      while nodeB != null
        invariant MergeInv(listC, sa, sb, ca, cb, i, j, nodeA, nodeB) == true
        invariant nodeA == null
        invariant fresh(listC) && listC.length == 0
        decreases |sb| - j
      {
        var nextB := nodeB.next;
        TakeSecond(listC, sa, sb, ca, cb, i, j, nodeA, nodeB);
        nodeB := nextB;
        j := j + 1;
      }
      assert fresh(listC);
      MergeDone(listC, sa, sb, ca, cb, i, j, nodeA, nodeB);
    }
  }

  /** The state of the merge loop after `i` nodes of `sa` and `j` nodes of
      `sb` have been moved onto `listC`: the values moved so far followed by
      the merge of what is left give the merge of the whole inputs, the nodes
      moved are exactly `sa[..i]` and `sb[..j]`, and the nodes not yet moved
      still form the rest of their original chains. */
  ghost predicate MergeInv(listC: LinkedList, sa: seq<Node>, sb: seq<Node>,
                           ca: seq<int>, cb: seq<int>, i: int, j: int,
                           nodeA: Node?, nodeB: Node?)
    reads listC, Elements(listC.spine), Elements(sa), Elements(sb)
  {
    0 <= i <= |sa| && 0 <= j <= |sb| &&
    |ca| == |sa| && |cb| == |sb| &&
    (forall k :: 0 <= k < |sa| ==> sa[k].val == ca[k]) &&
    (forall k :: 0 <= k < |sb| ==> sb[k].val == cb[k]) &&
    Distinct(sa) && Distinct(sb) &&
    (forall p, q :: 0 <= p < |sa| && 0 <= q < |sb| ==> sa[p] != sb[q]) &&
    nodeA == (if i < |sa| then sa[i] else null) &&
    nodeB == (if j < |sb| then sb[j] else null) &&
    Chain(sa, i) && Chain(sb, j) &&
    listC.Valid() &&
    multiset(listC.spine) == multiset(sa[..i]) + multiset(sb[..j]) &&
    (forall n :: n in listC.spine ==> n in sa || n in sb) &&
    listC.Contents + MergeSeq(ca[i..], cb[j..]) == MergeSeq(ca, cb)
  }

  /** When both inputs are used up, the output holds their merge and all of
      their nodes. */
  lemma MergeDone(listC: LinkedList, sa: seq<Node>, sb: seq<Node>,
                  ca: seq<int>, cb: seq<int>, i: int, j: int, nodeA: Node?, nodeB: Node?)
    requires MergeInv(listC, sa, sb, ca, cb, i, j, nodeA, nodeB)
    requires nodeA == null && nodeB == null
    ensures listC.Valid()
    ensures listC.Contents == MergeSeq(ca, cb)
    ensures multiset(listC.spine) == multiset(sa) + multiset(sb)
    ensures Sorted(ca) && Sorted(cb) ==> Sorted(listC.Contents)
    ensures multiset(listC.Contents) == multiset(ca) + multiset(cb)
  {
    assert i == |sa| && j == |sb|;
    assert sa[..i] == sa && sb[..j] == sb;
    assert ca[i..] == [] && cb[j..] == [];
    if Sorted(ca) && Sorted(cb) {
      MergeSorted(ca, cb);
    }
    MergePermutation(ca, cb);
  }

  /** One step of the merge loop that moves the head of the first list. */
  method TakeFirst(listC: LinkedList, ghost sa: seq<Node>, ghost sb: seq<Node>,
                   ghost ca: seq<int>, ghost cb: seq<int>, ghost i: int, ghost j: int,
                   nodeA: Node, nodeB: Node?)
    requires MergeInv(listC, sa, sb, ca, cb, i, j, nodeA, nodeB)
    requires nodeB == null || nodeA.val < nodeB.val
    modifies listC, Elements(listC.spine), nodeA
    ensures MergeInv(listC, sa, sb, ca, cb, i + 1, j, old(nodeA.next), nodeB)
    ensures listC.length == old(listC.length)
  {
    AdvanceFirst(listC.Contents, listC.spine, sa, sb, ca, cb, i, j);
    NotYetMoved(listC, sa, sb, i, j);
    listC.Splice(nodeA);
    assert forall k :: i < k < |sa| ==> sa[k].next == old(sa[k].next);
    assert forall k :: j <= k < |sb| ==> sb[k].next == old(sb[k].next);
  }

  /** One step of the merge loop that moves the head of the second list. */
  method TakeSecond(listC: LinkedList, ghost sa: seq<Node>, ghost sb: seq<Node>,
                    ghost ca: seq<int>, ghost cb: seq<int>, ghost i: int, ghost j: int,
                    nodeA: Node?, nodeB: Node)
    requires MergeInv(listC, sa, sb, ca, cb, i, j, nodeA, nodeB)
    requires nodeA == null || !(nodeA.val < nodeB.val)
    modifies listC, Elements(listC.spine), nodeB
    ensures MergeInv(listC, sa, sb, ca, cb, i, j + 1, nodeA, old(nodeB.next))
    ensures listC.length == old(listC.length)
  {
    AdvanceSecond(listC.Contents, listC.spine, sa, sb, ca, cb, i, j);
    NotYetMoved(listC, sa, sb, i, j);
    listC.Splice(nodeB);
    assert forall k :: i <= k < |sa| ==> sa[k].next == old(sa[k].next);
    assert forall k :: j < k < |sb| ==> sb[k].next == old(sb[k].next);
  }

  /** The value-level effect of moving the head of the first remainder. */
  lemma AdvanceFirst(c: seq<int>, sp: seq<Node>, sa: seq<Node>, sb: seq<Node>,
                     ca: seq<int>, cb: seq<int>, i: int, j: int)
    requires 0 <= i < |ca| == |sa| && 0 <= j <= |cb| == |sb|
    requires j == |cb| || ca[i] < cb[j]
    requires c + MergeSeq(ca[i..], cb[j..]) == MergeSeq(ca, cb)
    requires multiset(sp) == multiset(sa[..i]) + multiset(sb[..j])
    requires forall n :: n in sp ==> n in sa || n in sb
    ensures (c + [ca[i]]) + MergeSeq(ca[i + 1..], cb[j..]) == MergeSeq(ca, cb)
    ensures multiset(sp + [sa[i]]) == multiset(sa[..i + 1]) + multiset(sb[..j])
    ensures forall n :: n in sp + [sa[i]] ==> n in sa || n in sb
  {
    MergeStepFirst(ca, cb, i, j);
    AppendAssoc(c, ca[i], MergeSeq(ca[i + 1..], cb[j..]));
    assert sa[..i + 1] == sa[..i] + [sa[i]];
  }

  /** The value-level effect of moving the head of the second remainder. */
  lemma AdvanceSecond(c: seq<int>, sp: seq<Node>, sa: seq<Node>, sb: seq<Node>,
                      ca: seq<int>, cb: seq<int>, i: int, j: int)
    requires 0 <= i <= |ca| == |sa| && 0 <= j < |cb| == |sb|
    requires i == |ca| || !(ca[i] < cb[j])
    requires c + MergeSeq(ca[i..], cb[j..]) == MergeSeq(ca, cb)
    requires multiset(sp) == multiset(sa[..i]) + multiset(sb[..j])
    requires forall n :: n in sp ==> n in sa || n in sb
    ensures (c + [cb[j]]) + MergeSeq(ca[i..], cb[j + 1..]) == MergeSeq(ca, cb)
    ensures multiset(sp + [sb[j]]) == multiset(sa[..i]) + multiset(sb[..j + 1])
    ensures forall n :: n in sp + [sb[j]] ==> n in sa || n in sb
  {
    MergeStepSecond(ca, cb, i, j);
    AppendAssoc(c, cb[j], MergeSeq(ca[i..], cb[j + 1..]));
    assert sb[..j + 1] == sb[..j] + [sb[j]];
  }

  lemma AppendAssoc(c: seq<int>, x: int, m: seq<int>)
    ensures (c + [x]) + m == c + ([x] + m)
  {
  }

  /** Moving the head of the first remainder is one step of the merge. */
  lemma MergeStepFirst(ca: seq<int>, cb: seq<int>, i: int, j: int)
    requires 0 <= i < |ca| && 0 <= j <= |cb|
    requires j == |cb| || ca[i] < cb[j]
    ensures MergeSeq(ca[i..], cb[j..]) == [ca[i]] + MergeSeq(ca[i + 1..], cb[j..])
  {
    assert ca[i..][1..] == ca[i + 1..];
  }

  /** Moving the head of the second remainder is one step of the merge. */
  lemma MergeStepSecond(ca: seq<int>, cb: seq<int>, i: int, j: int)
    requires 0 <= i <= |ca| && 0 <= j < |cb|
    requires i == |ca| || !(ca[i] < cb[j])
    ensures MergeSeq(ca[i..], cb[j..]) == [cb[j]] + MergeSeq(ca[i..], cb[j + 1..])
  {
    assert cb[j..][1..] == cb[j + 1..];
  }

  /** The nodes that the merge has not reached are not on the output list. */
  lemma NotYetMoved(listC: LinkedList, sa: seq<Node>, sb: seq<Node>, i: int, j: int)
    requires 0 <= i <= |sa| && 0 <= j <= |sb|
    requires Distinct(sa) && Distinct(sb)
    requires forall p, q :: 0 <= p < |sa| && 0 <= q < |sb| ==> sa[p] != sb[q]
    requires multiset(listC.spine) == multiset(sa[..i]) + multiset(sb[..j])
    ensures forall k :: i <= k < |sa| ==> sa[k] !in listC.spine
    ensures forall k :: j <= k < |sb| ==> sb[k] !in listC.spine
  {
    forall k | i <= k < |sa|
      ensures sa[k] !in listC.spine
    {
      assert sa[k] !in sa[..i] && sa[k] !in sb[..j];
      assert sa[k] !in multiset(listC.spine);
    }
    forall k | j <= k < |sb|
      ensures sb[k] !in listC.spine
    {
      assert sb[k] !in sa[..i] && sb[k] !in sb[..j];
      assert sb[k] !in multiset(listC.spine);
    }
  }
}
