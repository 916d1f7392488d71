/** The intrusive doubly linked list. `IsChain` says that the nodes of a sequence, the list head first, are linked in
    both directions; every operation is a sequence operation on such a chain. */
module GlueList {
  import opened Counting

  class Node {
    var prev: Node?
    var next: Node?
    // the data the node is embedded in, reached by an offset in the C code
    const data: int

    constructor (data: int)
      ensures prev == null && next == null && this.data == data
    {
      this.data := data;
      prev, next := null, null;
    }
  }

  ghost predicate IsChain(ns: seq<Node>)
    reads ns
  {
    && ns != [] && Distinct(ns)
    && (forall i {:trigger ns[i].next} | 0 <= i < |ns| :: ns[i].next == if i + 1 < |ns| then ns[i + 1] else null)
    && (forall i {:trigger ns[i].prev} | 0 <= i < |ns| :: ns[i].prev == if 0 < i then ns[i - 1] else null)
  }

  ghost predicate Detached(n: Node)
    reads n
  {
    n.prev == null && n.next == null
  }

  function Insert<T>(s: seq<T>, k: nat, x: T): seq<T>
    requires k <= |s|
  {
    s[..k] + [x] + s[k..]
  }

  function Delete<T>(s: seq<T>, k: nat): seq<T>
    requires k < |s|
  {
    s[..k] + s[k + 1..]
  }

  // Puts `node` right behind `mark`, the `k`-th node of the chain.
  method InsertAfter(mark: Node, node: Node, ghost ns: seq<Node>, ghost k: nat)
    requires IsChain(ns) && k < |ns| && ns[k] == mark && node !in ns && Detached(node)
    modifies ns, node
    ensures IsChain(Insert(ns, k + 1, node))
  {
    if mark.next == null {
      mark.next := node;
      node.prev := mark;
    } else {
      var tmp := mark.next;
      mark.next := node;
      node.prev := mark;
      node.next := tmp;
      tmp.prev := node;
    }
  }

  // Takes the `k`-th node out of the chain and detaches it.
  method Remove(mark: Node, ghost ns: seq<Node>, ghost k: nat)
    requires IsChain(ns) && k < |ns| && ns[k] == mark
    modifies ns
    ensures Detached(mark)
    ensures |ns| > 1 ==> IsChain(Delete(ns, k))
  {
    if mark.prev == null {
      if mark.next != null {
        mark.next.prev := null;
        mark.next := null;
        return;
      }
      return;
    }
    if mark.next == null {
      mark.prev.next := null;
      mark.prev := null;
      return;
    }
    mark.prev.next := mark.next;
    mark.next.prev := mark.prev;
    mark.prev := null;
    mark.next := null;
  }

  /** Behind the head the list is a stack: this takes the node that was inserted last, detached. */
  method DequeueFirst(head: Node, ghost ns: seq<Node>) returns (first: Node?)
    requires IsChain(ns) && ns[0] == head
    modifies ns
    ensures |ns| == 1 ==> first == null && IsChain(ns)
    ensures |ns| > 1 ==> first == ns[1] && Detached(ns[1]) && IsChain([head] + ns[2..])
  {
    if head.next == null {
      return null;
    }
    first := head.next;
    Remove(first, ns, 1);
    assert Delete(ns, 1) == [head] + ns[2..];
  }

  // ---------- priority insertion ----------

  type Comparator = (int, int) -> int

  // The code tests the comparator for exactly -1.
  predicate Less(cmp: Comparator, a: int, b: int) {
    cmp(a, b) == -1
  }

  ghost predicate StrictWeakOrder(cmp: Comparator) {
    && (forall a, b :: Less(cmp, a, b) ==> !Less(cmp, b, a))
    && (forall a, b, c :: Less(cmp, a, b) && !Less(cmp, c, b) ==> Less(cmp, a, c))
  }

  predicate Sorted(cmp: Comparator, keys: seq<int>) {
    forall i, j | 0 <= i < j < |keys| :: !Less(cmp, keys[j], keys[i])
  }

  // Behind every key that `x` is not less than, up to the first one that `x` is less than.
  function Rank(cmp: Comparator, keys: seq<int>, x: int): (k: nat)
    ensures k <= |keys|
    ensures forall i | 0 <= i < k :: !Less(cmp, x, keys[i])
    ensures k < |keys| ==> Less(cmp, x, keys[k])
  {
    if keys == [] || Less(cmp, x, keys[0]) then 0 else Rank(cmp, keys[1..], x) + 1
  }

  lemma {:induction false} RankUnique(cmp: Comparator, keys: seq<int>, x: int, k: nat)
    requires k <= |keys| && (forall i | 0 <= i < k :: !Less(cmp, x, keys[i])) && (k < |keys| ==> Less(cmp, x, keys[k]))
    ensures Rank(cmp, keys, x) == k
  {
    if k == 0 {
    } else {
      assert !Less(cmp, x, keys[0]);
      forall i | 0 <= i < k - 1
        ensures !Less(cmp, x, keys[1..][i])
      {
        assert !Less(cmp, x, keys[i + 1]);
      }
      RankUnique(cmp, keys[1..], x, k - 1);
    }
  }

  /** Inserting at the rank keeps the keys sorted, adds exactly the new key, and puts it behind all its equals. */
  lemma RankKeepsSorted(cmp: Comparator, keys: seq<int>, x: int)
    requires StrictWeakOrder(cmp) && Sorted(cmp, keys)
    ensures var k := Rank(cmp, keys, x); var r := Insert(keys, k, x);
            && Sorted(cmp, r)
            && multiset(r) == multiset(keys) + multiset{x}
            && forall i | 0 <= i < |keys| && !Less(cmp, x, keys[i]) && !Less(cmp, keys[i], x) :: i < k
  {
    hide StrictWeakOrder, Less;
    var k := Rank(cmp, keys, x);
    var r := Insert(keys, k, x);
    forall j | k <= j < |keys|
      ensures Less(cmp, x, keys[j]) && !Less(cmp, keys[j], x)
    {
      LessThrough(cmp, x, keys[k], keys[j]);
    }
    forall i, j | 0 <= i < j < |r|
      ensures !Less(cmp, r[j], r[i])
    {
      assert r[i] == if i < k then keys[i] else if i == k then x else keys[i - 1];
      assert r[j] == if j < k then keys[j] else if j == k then x else keys[j - 1];
    }
    assert keys == keys[..k] + keys[k..];
  }

  lemma LessThrough(cmp: Comparator, x: int, a: int, b: int)
    requires StrictWeakOrder(cmp) && Less(cmp, x, a) && (b == a || !Less(cmp, b, a))
    ensures Less(cmp, x, b) && !Less(cmp, b, x)
  {
  }

  ghost function Keys(ns: seq<Node>): seq<int> {
    seq(|ns|, i requires 0 <= i < |ns| => ns[i].data)
  }

  // The list head carries no data; `ns[1..]` are the elements.
  method PriorityInsert(head: Node, node: Node, cmp: Comparator, ghost ns: seq<Node>)
    requires IsChain(ns) && ns[0] == head && node !in ns
    modifies ns, node
    ensures IsChain(Insert(ns, 1 + Rank(cmp, Keys(ns[1..]), node.data), node))
  {
    node.prev := null;
    node.next := null;
    ghost var keys := Keys(ns[1..]);
    if head.next == null && head.prev == null {
      assert keys == [];
      InsertAfter(head, node, ns, 0);
      return;
    }
    if head.next != null && head.next.next == null {
      assert |ns| == 2 && keys == [ns[1].data];
      if cmp(node.data, head.next.data) == -1 {
        RankUnique(cmp, keys, node.data, 0);
        InsertAfter(head, node, ns, 0);
      } else {
        RankUnique(cmp, keys, node.data, 1);
        InsertAfter(head.next, node, ns, 1);
      }
      return;
    }
    var curr, prev := head.next, null;
    ghost var k := 0;
    while curr != null
      invariant IsChain(ns) && Detached(node)
      invariant k <= |keys| && curr == (if k < |keys| then ns[k + 1] else null)
      invariant prev == if k > 0 then ns[k] else null
      invariant forall i | 0 <= i < k :: !Less(cmp, node.data, keys[i])
      decreases |keys| - k
    {
      assert curr.data == keys[k];
      if cmp(node.data, curr.data) == -1 {
        RankUnique(cmp, keys, node.data, k);
        if prev == null {
          InsertAfter(head, node, ns, 0);
        } else {
          InsertAfter(prev, node, ns, k);
        }
        return;
      }
      prev := curr;
      curr := curr.next;
      k := k + 1;
    }
    RankUnique(cmp, keys, node.data, k);
    InsertAfter(prev, node, ns, k);
  }

  /** On a sorted list, the elements after a priority insertion are sorted, with one more key. */
  lemma PriorityInsertKeys(cmp: Comparator, ns: seq<Node>, node: Node)
    requires ns != [] && StrictWeakOrder(cmp) && Sorted(cmp, Keys(ns[1..]))
    ensures var keys := Keys(ns[1..]); var after := Keys(Insert(ns, 1 + Rank(cmp, keys, node.data), node)[1..]);
            Sorted(cmp, after) && multiset(after) == multiset(keys) + multiset{node.data}
  {
    var keys := Keys(ns[1..]);
    var k := Rank(cmp, keys, node.data);
    assert Insert(ns, 1 + k, node)[1..] == Insert(ns[1..], k, node);
    assert Keys(Insert(ns[1..], k, node)) == Insert(keys, k, node.data);
    RankKeepsSorted(cmp, keys, node.data);
  }
}
