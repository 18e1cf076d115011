/**
 * The sorted, duplicate-free singly-linked list of integer keys behind the
 * three benchmark strategies (global mutex, per-node lock coupling,
 * reader-writer lock). With the locks stripped away the three share one
 * sequential behaviour: a `pred`/`cur` traversal that stops at the first key
 * not below the target, followed by a splice (Insert) or an unlink (Delete).
 *
 * The abstract value of a list is its key sequence; the pure functions
 * `SortedInsert` and `Without` say what Insert and Delete do to it, and the
 * lemmas below say what those functions mean for the key set and its order.
 */
module OrderedList {

  /** Strictly ascending: sorted and free of duplicates. */
  ghost predicate StrictlyAscending(s: seq<int>)
  {
    forall i, j :: 0 <= i < j < |s| ==> s[i] < s[j]
  }

  /** Strictly ascending, stated link by link: each key is below the next one. */
  ghost predicate Ascending(s: seq<int>)
    decreases |s|
  {
    |s| < 2 || (s[0] < s[1] && Ascending(s[1..]))
  }

  /** The link-by-link order is the pairwise one. */
  lemma {:induction false} AscendingPairs(s: seq<int>)
    ensures Ascending(s) <==> StrictlyAscending(s)
    decreases |s|
  {
    if |s| >= 2 {
      AscendingPairs(s[1..]);
      if Ascending(s) {
        forall i, j | 0 <= i < j < |s| ensures s[i] < s[j] {
          if i == 0 && j > 1 { assert s[1] == s[1..][0] && s[j] == s[1..][j - 1]; }
          else if i > 0 { assert s[i] == s[1..][i - 1] && s[j] == s[1..][j - 1]; }
        }
      }
      if StrictlyAscending(s) {
        assert StrictlyAscending(s[1..]) by {
          forall i, j | 0 <= i < j < |s[1..]| ensures s[1..][i] < s[1..][j] {
            assert s[1..][i] == s[i + 1] && s[1..][j] == s[j + 1];
          }
        }
      }
    }
  }

  /** The key sequence after inserting `k`: `k` goes before the first key that is not below it, unless it is already there. */
  function SortedInsert(s: seq<int>, k: int): (r: seq<int>)
    ensures |s| <= |r| <= |s| + 1
  {
    if s == [] then [k]
    else if s[0] < k then [s[0]] + SortedInsert(s[1..], k)
    else if s[0] == k then s
    else [k] + s
  }

  /** The key sequence with every occurrence of `k` removed, the other keys in their order. */
  function Without(s: seq<int>, k: int): (r: seq<int>)
    ensures |r| <= |s|
    ensures k !in r
  {
    if s == [] then []
    else if s[0] == k then Without(s[1..], k)
    else [s[0]] + Without(s[1..], k)
  }

  lemma {:induction false} SortedInsertKeys(s: seq<int>, k: int)
    ensures forall x :: x in SortedInsert(s, k) <==> x in s || x == k
  {
    if s != [] && s[0] < k {
      SortedInsertKeys(s[1..], k);
      assert s == [s[0]] + s[1..];
    }
  }

  lemma {:induction false} SortedInsertAscending(s: seq<int>, k: int)
    requires StrictlyAscending(s)
    ensures StrictlyAscending(SortedInsert(s, k))
  {
    if s != [] && s[0] < k {
      var tail := s[1..];
      SortedInsertAscending(tail, k);
      SortedInsertKeys(tail, k);
      var r := SortedInsert(s, k);
      assert r == [s[0]] + SortedInsert(tail, k);
      forall i, j | 0 <= i < j < |r| ensures r[i] < r[j] {
        if i == 0 {
          assert r[j] in SortedInsert(tail, k);
          assert r[j] in tail || r[j] == k;
        }
      }
    }
  }

  /** Inserting a key that is already present changes nothing. */
  lemma {:induction false} SortedInsertPresent(s: seq<int>, k: int)
    requires StrictlyAscending(s) && k in s
    ensures SortedInsert(s, k) == s
  {
    var j :| 0 <= j < |s| && s[j] == k;
    if s[0] < k {
      assert j > 0 && s[1..][j - 1] == k;
      AscendingTail(s);
      SortedInsertPresent(s[1..], k);
      assert s == [s[0]] + s[1..];
    } else {
      assert j == 0;
    }
  }

  /** A strictly ascending sequence stays so without its first key. */
  lemma AscendingTail(s: seq<int>)
    requires StrictlyAscending(s) && s != []
    ensures StrictlyAscending(s[1..])
  {
    forall i, j | 0 <= i < j < |s| - 1 ensures s[1..][i] < s[1..][j] {
      assert s[1..][i] == s[i + 1] && s[1..][j] == s[j + 1];
    }
  }

  /** An insertion grows the keys by one exactly when the key was absent. */
  lemma SortedInsertLength(s: seq<int>, k: int)
    requires StrictlyAscending(s)
    ensures |SortedInsert(s, k)| == if k in s then |s| else |s| + 1
  {
    if k in s {
      SortedInsertPresent(s, k);
    } else {
      var i := 0;
      while i < |s| && s[i] < k
        invariant 0 <= i <= |s|
        invariant forall j :: 0 <= j < i ==> s[j] < k
      {
        i := i + 1;
      }
      assert i < |s| ==> s[i] != k;
      SortedInsertAt(s, k, i);
    }
  }

  /** Where the list traversal stops, there the new key is spliced in. */
  lemma {:induction false} SortedInsertAt(s: seq<int>, k: int, i: nat)
    requires i <= |s|
    requires forall j :: 0 <= j < i ==> s[j] < k
    requires i < |s| ==> k < s[i]
    ensures SortedInsert(s, k) == s[..i] + [k] + s[i..]
  {
    if i > 0 {
      SortedInsertAt(s[1..], k, i - 1);
      assert s[1..][..i - 1] == s[1..i];
      assert s[1..][i - 1..] == s[i..];
      assert s[..i] == [s[0]] + s[1..i];
    }
  }

  lemma {:induction false} WithoutKeys(s: seq<int>, k: int)
    ensures forall x :: x in Without(s, k) <==> x in s && x != k
  {
    if s != [] {
      WithoutKeys(s[1..], k);
      assert s == [s[0]] + s[1..];
    }
  }

  /** Deleting an absent key changes nothing. */
  lemma {:induction false} WithoutAbsent(s: seq<int>, k: int)
    requires k !in s
    ensures Without(s, k) == s
  {
    if s != [] {
      WithoutAbsent(s[1..], k);
      assert s == [s[0]] + s[1..];
    }
  }

  /** Where the traversal finds the key, exactly that one position is unlinked. */
  lemma {:induction false} WithoutAt(s: seq<int>, k: int, i: nat)
    requires StrictlyAscending(s)
    requires i < |s| && s[i] == k
    ensures Without(s, k) == s[..i] + s[i + 1..]
  {
    if i == 0 {
      assert k !in s[1..];
      WithoutAbsent(s[1..], k);
    } else {
      WithoutAt(s[1..], k, i - 1);
      assert s[1..][..i - 1] == s[1..i];
      assert s[1..][i..] == s[i + 1..];
      assert s[..i] == [s[0]] + s[1..i];
    }
  }

  /** Deleting keeps the remaining keys strictly ascending. */
  lemma {:induction false} WithoutAscending(s: seq<int>, k: int)
    requires StrictlyAscending(s)
    ensures StrictlyAscending(Without(s, k))
  {
    if s != [] {
      var tail := s[1..];
      WithoutAscending(tail, k);
      WithoutKeys(tail, k);
      if s[0] != k {
        var r := Without(s, k);
        assert r == [s[0]] + Without(tail, k);
        forall i, j | 0 <= i < j < |r| ensures r[i] < r[j] {
          if i == 0 {
            assert r[j] in Without(tail, k);
            assert r[j] in tail;
          }
        }
      }
    }
  }

  /** The node that follows position `i` of a chain: null after the last one. */
  ghost function Successor(ns: seq<Node>, i: int): Node?
  {
    if 0 <= i && i + 1 < |ns| then ns[i + 1] else null
  }

  /**
   * Splicing `n` in at position `i` of a chain whose links are intact except
   * at `i - 1`, where the link already goes to `n`, and whose `n` links to
   * the node at `i`, gives an intact chain.
   */
  lemma SpliceLinks(ns: seq<Node>, i: int, n: Node)
    requires 0 <= i <= |ns|
    requires forall j :: 0 <= j < |ns| && j != i - 1 ==> ns[j].next == Successor(ns, j)
    requires 0 < i ==> ns[i - 1].next == n
    requires n.next == if i < |ns| then ns[i] else null
    ensures var ms := ns[..i] + [n] + ns[i..];
      forall j :: 0 <= j < |ms| ==> ms[j].next == Successor(ms, j)
  {
    var ms := ns[..i] + [n] + ns[i..];
    forall j | 0 <= j < |ms| ensures ms[j].next == Successor(ms, j) {
      if j < i - 1 {
        assert ms[j] == ns[j] && ms[j + 1] == ns[j + 1];
      } else if j == i - 1 {
        assert ms[j] == ns[j] && ms[j + 1] == n;
      } else if j == i {
        assert ms[j] == n;
        if i < |ns| { assert ms[j + 1] == ns[i]; }
      } else {
        assert ms[j] == ns[j - 1];
        if j < |ns| { assert ms[j + 1] == ns[j]; }
      }
    }
  }

  /**
   * Dropping position `i` from a chain whose links are intact except at
   * `i - 1`, where the link already skips to the node after `i`, gives an
   * intact chain.
   */
  lemma UnlinkLinks(ns: seq<Node>, i: int)
    requires 0 <= i < |ns|
    requires forall j :: 0 <= j < |ns| && j != i - 1 ==> ns[j].next == Successor(ns, j)
    requires 0 < i ==> ns[i - 1].next == Successor(ns, i)
    ensures var ms := ns[..i] + ns[i + 1..];
      forall j :: 0 <= j < |ms| ==> ms[j].next == Successor(ms, j)
  {
    var ms := ns[..i] + ns[i + 1..];
    forall j | 0 <= j < |ms| ensures ms[j].next == Successor(ms, j) {
      if j < i - 1 {
        assert ms[j] == ns[j] && ms[j + 1] == ns[j + 1];
      } else if j == i - 1 {
        assert ms[j] == ns[j];
        if i + 1 < |ns| { assert ms[j + 1] == ns[i + 1]; }
      } else {
        assert ms[j] == ns[j + 1];
        if j + 1 < |ms| { assert ms[j + 1] == ns[j + 2]; }
      }
    }
  }

  /** Splicing a node holding `k` into the chain at `i` keeps every node's key in step with the key sequence. */
  lemma SpliceKeys(ns: seq<Node>, ks: seq<int>, i: int, n: Node, k: int, repr: set<object>)
    requires 0 <= i <= |ns| == |ks|
    requires forall j :: 0 <= j < |ns| ==> ns[j] in repr && ns[j].key == ks[j]
    requires n in repr && n.key == k
    ensures var ms, ls := ns[..i] + [n] + ns[i..], ks[..i] + [k] + ks[i..];
      forall j :: 0 <= j < |ms| ==> ms[j] in repr && ms[j].key == ls[j]
  {
    var ms, ls := ns[..i] + [n] + ns[i..], ks[..i] + [k] + ks[i..];
    forall j | 0 <= j < |ms| ensures ms[j] in repr && ms[j].key == ls[j] {
      if j < i {
        assert ms[j] == ns[j] && ls[j] == ks[j];
      } else if j > i {
        assert ms[j] == ns[j - 1] && ls[j] == ks[j - 1];
      }
    }
  }

  /** Dropping position `i` from the chain keeps every other node's key in step with the key sequence. */
  lemma UnlinkKeys(ns: seq<Node>, ks: seq<int>, i: int, repr: set<object>)
    requires 0 <= i < |ns| == |ks|
    requires forall j :: 0 <= j < |ns| && j != i ==> ns[j] in repr && ns[j].key == ks[j]
    ensures var ms, ls := ns[..i] + ns[i + 1..], ks[..i] + ks[i + 1..];
      forall j :: 0 <= j < |ms| ==> ms[j] in repr && ms[j].key == ls[j]
  {
    var ms, ls := ns[..i] + ns[i + 1..], ks[..i] + ks[i + 1..];
    forall j | 0 <= j < |ms| ensures ms[j] in repr && ms[j].key == ls[j] {
      if j < i {
        assert ms[j] == ns[j] && ls[j] == ks[j];
      } else {
        assert ms[j] == ns[j + 1] && ls[j] == ks[j + 1];
      }
    }
  }

  class Node {
    var key: int
    var next: Node?

    constructor (k: int)
      ensures key == k && next == null
    {
      key := k;
      next := null;
    }
  }

  class List {
    var head: Node?

    /** The keys, in list order. */
    ghost var Keys: seq<int>
    /** The nodes reachable from `head`, in list order. */
    ghost var Nodes: seq<Node>
    ghost var Repr: set<object>

    /**
     * The list invariant: `head` starts the chain `Nodes`, each node's `next`
     * is the following node (the last one's is null), node keys are the
     * abstract keys and are strictly ascending (which makes the chain acyclic,
     * see `Acyclic`), and the footprint holds the list object and its nodes.
     */
    ghost predicate Valid()
      reads this, Repr
    {
      this in Repr &&
      |Nodes| == |Keys| &&
      (head == if |Nodes| == 0 then null else Nodes[0]) &&
      (forall i :: 0 <= i < |Nodes| ==> Nodes[i] in Repr && Nodes[i].key == Keys[i]) &&
      (forall i {:trigger Nodes[i].next} :: 0 <= i < |Nodes| ==> Nodes[i].next == Successor(Nodes, i)) &&
      Ascending(Keys)
    }

    /** No node occurs twice in the chain, so following `next` from `head` ends in null. */
    lemma Acyclic()
      requires Valid()
      ensures forall i, j :: 0 <= i < j < |Nodes| ==> Nodes[i] != Nodes[j]
    {
      AscendingPairs(Keys);
      forall i, j | 0 <= i < j < |Nodes| ensures Nodes[i] != Nodes[j] {
        assert Nodes[i].key == Keys[i] < Keys[j] == Nodes[j].key;
      }
    }

    /** The node at position `p` occurs nowhere else in the chain. */
    lemma Unique(p: int)
      requires Valid() && 0 <= p < |Nodes|
      ensures forall j :: 0 <= j < |Nodes| && j != p ==> Nodes[j] != Nodes[p]
    {
      AscendingPairs(Keys);
      forall j | 0 <= j < |Nodes| && j != p ensures Nodes[j] != Nodes[p] {
        if j < p { assert Nodes[j].key == Keys[j] < Keys[p]; } else { assert Keys[p] < Keys[j] == Nodes[j].key; }
      }
    }

    constructor ()
      ensures Valid() && fresh(Repr)
      ensures Keys == []
    {
      head := null;
      Keys, Nodes := [], [];
      Repr := {this};
    }

    /** Member: true exactly when `k` is one of the keys; the list is only read. */
    method Member(k: int) returns (found: bool)
      requires Valid()
      ensures found <==> k in Keys
    {
      var _, cur, i := Locate(k);
      AscendingPairs(Keys);
      found := cur != null && cur.key == k;
      assert found <==> k in Keys by {
        if !found {
          forall j | 0 <= j < |Keys| ensures Keys[j] != k {
            if j > i { assert Keys[i] < Keys[j]; }
          }
        }
      }
    }

    /**
     * The traversal shared by Insert and Delete: `cur` is the first node whose
     * key is not below `k` (null past the end) and `pred` the node before it
     * (null when `cur` is the head position).
     */
    method Locate(k: int) returns (pred: Node?, cur: Node?, ghost i: int)
      requires Valid()
      ensures 0 <= i <= |Nodes|
      ensures cur == if i < |Nodes| then Nodes[i] else null
      ensures pred == if i == 0 then null else Nodes[i - 1]
      ensures forall j :: 0 <= j < i ==> Keys[j] < k
      ensures i < |Nodes| ==> k <= Keys[i]
    {
      pred, cur, i := null, head, 0;
      while cur != null && cur.key < k
        invariant 0 <= i <= |Nodes|
        invariant cur == if i < |Nodes| then Nodes[i] else null
        invariant pred == if i == 0 then null else Nodes[i - 1]
        invariant forall j :: 0 <= j < i ==> Keys[j] < k
        decreases |Nodes| - i
      {
        pred := cur;
        cur := cur.next;
        i := i + 1;
      }
    }

    /**
     * Insert: false and no change when `k` is present; otherwise a fresh node
     * is linked in front of the first key above `k` (as the new head when no
     * key is below it) and the result is true.
     */
    method Insert(k: int) returns (inserted: bool)
      requires Valid()
      modifies Repr
      ensures Valid() && fresh(Repr - old(Repr))
      ensures inserted <==> k !in old(Keys)
      ensures Keys == SortedInsert(old(Keys), k)
    {
      var pred, cur, i := Locate(k);
      AscendingPairs(Keys);
      if cur != null && cur.key == k {
        SortedInsertPresent(Keys, k);
        return false;
      }
      assert k !in Keys by {
        forall j | 0 <= j < |Keys| ensures Keys[j] != k {
          if j > i { assert Keys[i] < Keys[j]; }
        }
      }
      SortedInsertAt(Keys, k, i);
      SortedInsertAscending(Keys, k);
      AscendingPairs(Keys[..i] + [k] + Keys[i..]);
      Link(pred, cur, i, k);
      inserted := true;
    }

    /**
     * Delete: false and no change when `k` is absent; otherwise its node is
     * unlinked (from `head` when it is the first) and the result is true.
     */
    method Delete(k: int) returns (deleted: bool)
      requires Valid()
      modifies Repr
      ensures Valid() && Repr <= old(Repr)
      ensures deleted <==> k in old(Keys)
      ensures Keys == Without(old(Keys), k)
    {
      var pred, cur, i := Locate(k);
      AscendingPairs(Keys);
      if cur == null || cur.key != k {
        assert k !in Keys by {
          forall j | 0 <= j < |Keys| ensures Keys[j] != k {
            if j > i { assert Keys[i] < Keys[j]; }
          }
        }
        WithoutAbsent(Keys, k);
        return false;
      }
      WithoutAt(Keys, k, i);
      WithoutAscending(Keys, k);
      AscendingPairs(Keys[..i] + Keys[i + 1..]);
      Unlink(pred, cur, i);
      deleted := true;
    }

    /**
     * The splice of Insert: a fresh node holding `k` goes between `pred` (or
     * `head`) and `cur`, which sit at positions `i - 1` and `i`.
     */
    method Link(pred: Node?, cur: Node?, ghost i: int, k: int)
      requires Valid() && 0 <= i <= |Nodes|
      requires cur == if i < |Nodes| then Nodes[i] else null
      requires pred == if i == 0 then null else Nodes[i - 1]
      requires Ascending(Keys[..i] + [k] + Keys[i..])
      modifies Repr
      ensures Valid() && fresh(Repr - old(Repr))
      ensures Keys == old(Keys[..i] + [k] + Keys[i..])
    {
      if i > 0 { Unique(i - 1); }
      ghost var nodes, keys := Nodes, Keys;
      var n := new Node(k);
      if pred == null {
        n.next := head;
        head := n;
      } else {
        n.next := cur;
        pred.next := n;
      }
      assert forall j :: 0 <= j < |nodes| && j != i - 1 ==> nodes[j].next == Successor(nodes, j);
      SpliceLinks(nodes, i, n);
      Nodes := nodes[..i] + [n] + nodes[i..];
      Keys := keys[..i] + [k] + keys[i..];
      Repr := Repr + {n};
      SpliceKeys(nodes, keys, i, n, k, Repr);
    }

    /**
     * The unlink of Delete: `cur`, at position `i`, is bypassed by `pred`
     * (or by `head` when `i` is 0) and leaves the footprint.
     */
    method Unlink(pred: Node?, cur: Node, ghost i: int)
      requires Valid() && 0 <= i < |Nodes|
      requires cur == Nodes[i]
      requires pred == if i == 0 then null else Nodes[i - 1]
      requires Ascending(Keys[..i] + Keys[i + 1..])
      modifies Repr
      ensures Valid() && Repr <= old(Repr)
      ensures Keys == old(Keys[..i] + Keys[i + 1..])
    {
      Unique(i);
      if i > 0 { Unique(i - 1); }
      ghost var nodes, keys := Nodes, Keys;
      if pred == null {
        head := cur.next;
      } else {
        pred.next := cur.next;
      }
      assert forall j :: 0 <= j < |nodes| && j != i - 1 ==> nodes[j].next == Successor(nodes, j);
      UnlinkLinks(nodes, i);
      Nodes := nodes[..i] + nodes[i + 1..];
      Keys := keys[..i] + keys[i + 1..];
      Repr := Repr - {cur};
      UnlinkKeys(nodes, keys, i, Repr);
    }

    /** clear: afterwards `head` is null and the list holds no key. */
    method Clear()
      requires Valid()
      modifies this
      ensures Valid() && Repr == {this}
      ensures head == null && Keys == []
    {
      head := null;
      Keys, Nodes := [], [];
      Repr := {this};
    }
  }
}
