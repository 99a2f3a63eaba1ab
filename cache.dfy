/**
  The LRU cache of cache/main.go: list nodes linked through prev/next fields
  between two sentinels, a map from key to node, and the cache that puts
  them together under a capacity. The ghost sequence `nodes` lists the real
  nodes from the most-recently-used end (next to head) to the
  least-recently-used end (next to tail); `Contents` lists their entries.
 */
module Cache {
  import opened LruSpec

  /** A list cell. The sentinels carry an empty key and value. No code ever changes a node's key. */
  class Node {
    const key: string
    var value: string
    var prev: Node?
    var next: Node?

    constructor (key: string, value: string)
      ensures this.key == key && this.value == value
      ensures prev == null && next == null
    {
      this.key := key;
      this.value := value;
      prev := null;
      next := null;
    }
  }

  // ---------------------------------------------------------------------
  // Rearranging sequences

  /** s with position p left out. */
  function Spliced<T>(s: seq<T>, p: nat): seq<T>
    requires p < |s|
  {
    s[..p] + s[p + 1..]
  }

  /** s with the element at position p moved to the front. */
  function Moved<T>(s: seq<T>, p: nat): seq<T>
    requires p < |s|
  {
    [s[p]] + s[..p] + s[p + 1..]
  }

  /** s with n put right after its first element. */
  function InsertSecond(s: seq<Node>, n: Node): seq<Node>
    requires s != []
  {
    [s[0], n] + s[1..]
  }

  /** A list as it is linked: the nodes between the two sentinels. */
  function Between(h: Node, ns: seq<Node>, t: Node): seq<Node>
  {
    [h] + ns + [t]
  }

  lemma BetweenAt(h: Node, ns: seq<Node>, t: Node)
    ensures |Between(h, ns, t)| == |ns| + 2
    ensures Between(h, ns, t)[0] == h && Between(h, ns, t)[|ns| + 1] == t
    ensures forall i | 0 <= i < |ns| :: Between(h, ns, t)[i + 1] == ns[i]
  {
  }

  /** Moving the node at position i to the front is splicing it out, then putting it back after head. */
  lemma BetweenMoved(h: Node, ns: seq<Node>, t: Node, i: nat)
    requires i < |ns|
    ensures |Spliced(Between(h, ns, t), i + 1)| >= 2
    ensures Spliced(Between(h, ns, t), i + 1)[0] == h
    ensures Between(h, Moved(ns, i), t) == InsertSecond(Spliced(Between(h, ns, t), i + 1), ns[i])
  {
    var s := Between(h, ns, t);
    var r := Spliced(s, i + 1);
    assert r == [h] + ns[..i] + ns[i + 1..] + [t];
    assert r[1..] == ns[..i] + ns[i + 1..] + [t];
  }

  /** Splicing out the node at position i. */
  lemma BetweenSpliced(h: Node, ns: seq<Node>, t: Node, i: nat)
    requires i < |ns|
    ensures Between(h, Spliced(ns, i), t) == Spliced(Between(h, ns, t), i + 1)
  {
    var s := Between(h, ns, t);
    assert s[..i + 1] == [h] + ns[..i];
    assert s[i + 2..] == ns[i + 1..] + [t];
  }

  /** Putting a node at the front. */
  lemma BetweenCons(h: Node, ns: seq<Node>, t: Node, n: Node)
    ensures Between(h, [n] + ns, t) == InsertSecond(Between(h, ns, t), n)
  {
    assert Between(h, ns, t)[1..] == ns + [t];
  }

  // ---------------------------------------------------------------------
  // Chains of nodes. A chain s is linked when every node's next is its
  // successor in s and every node's prev is its predecessor in s. The
  // predicates read only the fields they constrain, so a write to any other
  // field, or to a node outside the chain, leaves them intact.

  function AllButLast(s: seq<Node>): seq<Node>
  {
    if s == [] then [] else s[..|s| - 1]
  }

  function AllButFirst(s: seq<Node>): seq<Node>
  {
    if s == [] then [] else s[1..]
  }

  ghost predicate NextLinked(s: seq<Node>)
    reads AllButLast(s)`next
  {
    forall k {:trigger s[k].next} | 0 <= k < |s| - 1 :: assert s[k] in AllButLast(s); s[k].next == s[k + 1]
  }

  ghost predicate PrevLinked(s: seq<Node>)
    reads AllButFirst(s)`prev
  {
    forall k {:trigger s[k].prev} | 0 < k < |s| :: assert s[k] in AllButFirst(s); s[k].prev == s[k - 1]
  }

  /**
    The node at position i. Distinct is stated through it, so that its
    pairwise instances are drawn only for the positions a proof names.
   */
  function At(s: seq<Node>, i: nat): Node
    requires i < |s|
  {
    s[i]
  }

  /** No node occurs twice in s. */
  predicate Distinct(s: seq<Node>)
  {
    forall i, j {:trigger At(s, i), At(s, j)} | 0 <= i < |s| && 0 <= j < |s| && i != j :: At(s, i) != At(s, j)
  }

  lemma DistinctAt(s: seq<Node>, i: nat, j: nat)
    requires Distinct(s) && i < |s| && j < |s| && i != j
    ensures s[i] != s[j]
  {
    assert At(s, i) != At(s, j);
  }

  lemma NextSlice(s: seq<Node>, lo: nat, hi: nat)
    requires NextLinked(s) && lo <= hi <= |s|
    ensures NextLinked(s[lo..hi])
  {
    var t := s[lo..hi];
    forall k | 0 <= k < |t| - 1 ensures t[k].next == t[k + 1] {
      assert t[k] == s[lo + k] && t[k + 1] == s[lo + k + 1];
    }
  }

  lemma PrevSlice(s: seq<Node>, lo: nat, hi: nat)
    requires PrevLinked(s) && lo <= hi <= |s|
    ensures PrevLinked(s[lo..hi])
  {
    var t := s[lo..hi];
    forall k | 0 < k < |t| ensures t[k].prev == t[k - 1] {
      assert t[k] == s[lo + k] && t[k - 1] == s[lo + k - 1];
    }
  }

  lemma NextJoin(u: seq<Node>, v: seq<Node>)
    requires u != [] && v != [] && NextLinked(u) && NextLinked(v) && u[|u| - 1].next == v[0]
    ensures NextLinked(u + v)
  {
    var t := u + v;
    forall k | 0 <= k < |t| - 1 ensures t[k].next == t[k + 1] {
      if k + 1 < |u| {
        assert t[k] == u[k] && t[k + 1] == u[k + 1];
      } else if k >= |u| {
        assert t[k] == v[k - |u|] && t[k + 1] == v[k + 1 - |u|];
      }
    }
  }

  lemma PrevJoin(u: seq<Node>, v: seq<Node>)
    requires u != [] && v != [] && PrevLinked(u) && PrevLinked(v) && v[0].prev == u[|u| - 1]
    ensures PrevLinked(u + v)
  {
    var t := u + v;
    forall k | 0 < k < |t| ensures t[k].prev == t[k - 1] {
      if k < |u| {
        assert t[k] == u[k] && t[k - 1] == u[k - 1];
      } else if k > |u| {
        assert t[k] == v[k - |u|] && t[k - 1] == v[k - 1 - |u|];
      }
    }
  }

  /** The links between positions k and k + 1 of a linked chain. */
  lemma LinkedAt(s: seq<Node>, k: nat)
    requires NextLinked(s) && PrevLinked(s) && k + 1 < |s|
    ensures s[k].next == s[k + 1] && s[k + 1].prev == s[k]
  {
  }

  /** Leaving out one node of a chain with no repeated node; what is left is drawn from the chain. */
  lemma DistinctSplice(s: seq<Node>, p: nat)
    requires Distinct(s) && p < |s|
    ensures Distinct(Spliced(s, p))
    ensures s[p] !in Spliced(s, p)
    ensures forall x | x in Spliced(s, p) :: x in s
  {
    var t := Spliced(s, p);
    forall i, j | 0 <= i < |t| && 0 <= j < |t| && i != j ensures At(t, i) != At(t, j) {
      var i', j' := if i < p then i else i + 1, if j < p then j else j + 1;
      assert t[i] == s[i'] && t[j] == s[j'];
      DistinctAt(s, i', j');
    }
    forall k | 0 <= k < |t| ensures t[k] != s[p] && t[k] in s {
      var k' := if k < p then k else k + 1;
      assert t[k] == s[k'];
      DistinctAt(s, k', p);
    }
  }

  /** Putting a node that is not on a chain right after the chain's first node. */
  lemma DistinctInsert(s: seq<Node>, n: Node)
    requires Distinct(s) && s != [] && n !in s
    ensures Distinct(InsertSecond(s, n))
    ensures forall x | x in InsertSecond(s, n) :: x in s || x == n
  {
    var t := InsertSecond(s, n);
    forall i, j | 0 <= i < |t| && 0 <= j < |t| && i != j ensures At(t, i) != At(t, j) {
      var i', j' := if i == 0 then 0 else i - 1, if j == 0 then 0 else j - 1;
      if i != 1 && j != 1 {
        assert t[i] == s[i'] && t[j] == s[j'];
        DistinctAt(s, i', j');
      } else if i == 1 {
        assert t[j] == s[j'];
      } else {
        assert t[i] == s[i'];
      }
    }
    forall k | 2 <= k < |t| ensures t[k] in s {
      assert t[k] == s[k - 1];
    }
  }

  lemma DistinctInner(h: Node, ns: seq<Node>, t: Node)
    requires Distinct(Between(h, ns, t))
    ensures Distinct(ns)
  {
    BetweenAt(h, ns, t);
    forall i, j | 0 <= i < |ns| && 0 <= j < |ns| && i != j ensures At(ns, i) != At(ns, j) {
      DistinctAt(Between(h, ns, t), i + 1, j + 1);
    }
  }

  /** Moving a node to the front keeps the chain free of repeats and draws on the same nodes. */
  lemma MovedChain(h: Node, ns: seq<Node>, t: Node, i: nat)
    requires i < |ns| && Distinct(Between(h, ns, t))
    ensures Distinct(Between(h, Moved(ns, i), t))
    ensures forall x | x in Between(h, Moved(ns, i), t) :: x in Between(h, ns, t)
  {
    var s := Between(h, ns, t);
    BetweenAt(h, ns, t);
    DistinctSplice(s, i + 1);
    BetweenMoved(h, ns, t, i);
    DistinctInsert(Spliced(s, i + 1), ns[i]);
  }

  /** Putting a node that is not on the chain at the front keeps the chain free of repeats. */
  lemma ConsChain(h: Node, ns: seq<Node>, t: Node, n: Node)
    requires Distinct(Between(h, ns, t)) && n !in Between(h, ns, t)
    ensures Distinct(Between(h, [n] + ns, t))
    ensures forall x | x in Between(h, [n] + ns, t) :: x in Between(h, ns, t) || x == n
  {
    BetweenCons(h, ns, t, n);
    DistinctInsert(Between(h, ns, t), n);
  }

  /** Leaving a node out of the chain keeps it free of repeats and draws on the same nodes. */
  lemma SplicedChain(h: Node, ns: seq<Node>, t: Node, i: nat)
    requires i < |ns| && Distinct(Between(h, ns, t))
    ensures Distinct(Between(h, Spliced(ns, i), t))
    ensures forall x | x in Between(h, Spliced(ns, i), t) :: x in Between(h, ns, t)
  {
    BetweenSpliced(h, ns, t, i);
    DistinctSplice(Between(h, ns, t), i + 1);
  }

  // ---------------------------------------------------------------------
  // The link writes

  /**
    The detach step of moveToFront and DeleteKey: the node at position p of a
    linked chain is bypassed by its neighbours. Only the next field of its
    predecessor and the prev field of its successor change.
   */
  method Unlink(n: Node, ghost s: seq<Node>, ghost p: nat)
    requires 0 < p < |s| - 1 && s[p] == n && n.prev == s[p - 1] && n.next == s[p + 1]
    requires Distinct(s) && NextLinked(s) && PrevLinked(s)
    modifies n.prev`next, n.next`prev
    ensures NextLinked(Spliced(s, p)) && PrevLinked(Spliced(s, p))
  {
    ghost var u, v := s[..p], s[p + 1..];
    LinkedAt(s, p - 1);
    NextSlice(s, 0, p);
    NextSlice(s, p + 1, |s|);
    PrevSlice(s, 0, p);
    PrevSlice(s, p + 1, |s|);
    assert s[p - 1] !in AllButLast(u) && s[p - 1] !in AllButLast(v) by {
      forall k | 0 <= k < |AllButLast(u)| ensures AllButLast(u)[k] != s[p - 1] {
        assert AllButLast(u)[k] == s[k];
        DistinctAt(s, k, p - 1);
      }
      forall k | 0 <= k < |AllButLast(v)| ensures AllButLast(v)[k] != s[p - 1] {
        assert AllButLast(v)[k] == s[p + 1 + k];
        DistinctAt(s, p + 1 + k, p - 1);
      }
    }
    assert s[p + 1] !in AllButFirst(u) && s[p + 1] !in AllButFirst(v) by {
      forall k | 0 <= k < |AllButFirst(u)| ensures AllButFirst(u)[k] != s[p + 1] {
        assert AllButFirst(u)[k] == s[k + 1];
        DistinctAt(s, k + 1, p + 1);
      }
      forall k | 0 <= k < |AllButFirst(v)| ensures AllButFirst(v)[k] != s[p + 1] {
        assert AllButFirst(v)[k] == s[p + 2 + k];
        DistinctAt(s, p + 2 + k, p + 1);
      }
    }
    n.prev.next := n.next;
    n.next.prev := n.prev;
    assert NextLinked(u) && NextLinked(v) && PrevLinked(u) && PrevLinked(v);
    NextJoin(u, v);
    PrevJoin(u, v);
  }

  /**
    The insert-after-head step of moveToFront and addToFront: a node not on
    the chain goes in right after the chain's first node.
   */
  method LinkAfterFirst(first: Node, n: Node, ghost s: seq<Node>)
    requires 2 <= |s| && s[0] == first && first.next == s[1] && n !in s
    requires Distinct(s) && NextLinked(s) && PrevLinked(s)
    modifies n`next, n`prev, first`next, first.next`prev
    ensures NextLinked(InsertSecond(s, n)) && PrevLinked(InsertSecond(s, n))
  {
    ghost var v := s[1..];
    NextSlice(s, 1, |s|);
    PrevSlice(s, 1, |s|);
    assert first !in AllButLast(v) && s[1] !in AllButFirst(v) by {
      forall k | 0 <= k < |AllButLast(v)| ensures AllButLast(v)[k] != first {
        assert AllButLast(v)[k] == s[k + 1];
        DistinctAt(s, k + 1, 0);
      }
      forall k | 0 <= k < |AllButFirst(v)| ensures AllButFirst(v)[k] != s[1] {
        assert AllButFirst(v)[k] == s[k + 2];
        DistinctAt(s, k + 2, 1);
      }
    }
    n.next := first.next;
    n.prev := first;
    first.next.prev := n;
    first.next := n;
    assert NextLinked(v) && PrevLinked(v);
    NextJoin([n], v);
    PrevJoin([n], v);
    NextJoin([first], [n] + v);
    PrevJoin([first], [n] + v);
    assert [first] + ([n] + v) == InsertSecond(s, n);
  }

  // ---------------------------------------------------------------------
  // What the nodes carry. Carries does not read the links.

  /** Each node carries the key and value of the entry at its position. */
  ghost predicate Carries(ns: seq<Node>, c: seq<Entry>)
    reads ns`value
  {
    && |ns| == |c|
    && (forall i | 0 <= i < |ns| :: ns[i].key == c[i].key && ns[i].value == c[i].value)
  }

  lemma CarriesCons(n: Node, ns: seq<Node>, e: Entry, c: seq<Entry>)
    requires Carries(ns, c) && n.key == e.key && n.value == e.value
    ensures Carries([n] + ns, [e] + c)
  {
    forall i | 0 < i < |ns| + 1 ensures ([n] + ns)[i].key == ([e] + c)[i].key && ([n] + ns)[i].value == ([e] + c)[i].value {
      assert ([n] + ns)[i] == ns[i - 1] && ([e] + c)[i] == c[i - 1];
    }
  }

  lemma CarriesMoved(ns: seq<Node>, c: seq<Entry>, i: nat)
    requires Carries(ns, c) && i < |ns|
    ensures Carries(Moved(ns, i), Moved(c, i))
  {
    var ns', c' := Moved(ns, i), Moved(c, i);
    forall k | 0 <= k < |ns'| ensures ns'[k].key == c'[k].key && ns'[k].value == c'[k].value {
      var k' := if k == 0 then i else if k <= i then k - 1 else k;
      assert ns'[k] == ns[k'] && c'[k] == c[k'];
    }
  }

  lemma CarriesSpliced(ns: seq<Node>, c: seq<Entry>, i: nat)
    requires Carries(ns, c) && i < |ns|
    ensures Carries(Spliced(ns, i), Spliced(c, i))
  {
    var ns', c' := Spliced(ns, i), Spliced(c, i);
    forall k | 0 <= k < |ns'| ensures ns'[k].key == c'[k].key && ns'[k].value == c'[k].value {
      var k' := if k < i then k else k + 1;
      assert ns'[k] == ns[k'] && c'[k] == c[k'];
    }
  }

  /** The value write of Put: the node at position i takes value v, and so does its entry. */
  method WriteValue(n: Node, v: string, ghost ns: seq<Node>, ghost c: seq<Entry>, ghost i: nat)
    requires Carries(ns, c) && Distinct(ns) && i < |ns| && ns[i] == n
    modifies n`value
    ensures Carries(ns, c[i := Entry(c[i].key, v)])
  {
    n.value := v;
    forall k | 0 <= k < |ns| && k != i ensures ns[k].value == c[k].value {
      DistinctAt(ns, k, i);
    }
  }

  // ---------------------------------------------------------------------
  // The key-to-node map

  /** The map holds exactly the keys of the entries, each sent to the node at the entry's position. */
  predicate Indexed(m: map<string, Node>, ns: seq<Node>, c: seq<Entry>)
  {
    && |ns| == |c|
    && m.Keys == Keys(c)
    && (forall i | 0 <= i < |c| :: c[i].key in m && m[c[i].key] == ns[i])
  }

  /** Distinct nodes under one map: no key occurs twice. */
  lemma IndexedUnique(m: map<string, Node>, ns: seq<Node>, c: seq<Entry>)
    requires Indexed(m, ns, c) && Distinct(ns)
    ensures UniqueKeys(c)
  {
    forall i, j | 0 <= i < j < |c| ensures c[i].key != c[j].key {
      DistinctAt(ns, i, j);
    }
  }

  lemma KeysMoved(c: seq<Entry>, i: nat)
    requires i < |c|
    ensures Keys(Moved(c, i)) == Keys(c)
  {
    var d := Moved(c, i);
    forall k | k in Keys(d) ensures k in Keys(c) {
      var j :| 0 <= j < |d| && d[j].key == k;
      var j' := if j == 0 then i else if j <= i then j - 1 else j;
      assert d[j] == c[j'];
    }
    forall k | k in Keys(c) ensures k in Keys(d) {
      var j :| 0 <= j < |c| && c[j].key == k;
      var j' := if j == i then 0 else if j < i then j + 1 else j;
      assert d[j'] == c[j];
    }
  }

  lemma KeysSpliced(c: seq<Entry>, i: nat)
    requires UniqueKeys(c) && i < |c|
    ensures Keys(Spliced(c, i)) == Keys(c) - {c[i].key}
  {
    var d := Spliced(c, i);
    forall k | k in Keys(d) ensures k in Keys(c) - {c[i].key} {
      var j :| 0 <= j < |d| && d[j].key == k;
      var j' := if j < i then j else j + 1;
      assert d[j] == c[j'];
    }
    forall k | k in Keys(c) - {c[i].key} ensures k in Keys(d) {
      var j :| 0 <= j < |c| && c[j].key == k;
      var j' := if j < i then j else j - 1;
      assert d[j'] == c[j];
    }
  }

  lemma KeysDropLast(c: seq<Entry>)
    ensures Keys(DropLast(c)) <= Keys(c)
  {
    forall k | k in Keys(DropLast(c)) ensures k in Keys(c) {
      var j :| 0 <= j < |DropLast(c)| && DropLast(c)[j].key == k;
      assert DropLast(c)[j] == c[j];
    }
  }

  lemma IndexedCons(m: map<string, Node>, ns: seq<Node>, c: seq<Entry>, n: Node, e: Entry)
    requires Indexed(m, ns, c) && e.key !in m
    ensures Indexed(m[e.key := n], [n] + ns, [e] + c)
  {
    var m', ns', c' := m[e.key := n], [n] + ns, [e] + c;
    assert c'[1..] == c;
    KeysCons(c');
    assert m'.Keys == m.Keys + {e.key};
    forall i | 0 <= i < |c'| ensures c'[i].key in m' && m'[c'[i].key] == ns'[i] {
      if 0 < i {
        assert c'[i] == c[i - 1] && ns'[i] == ns[i - 1];
        assert c[i - 1].key in m;
      }
    }
  }

  lemma IndexedMoved(m: map<string, Node>, ns: seq<Node>, c: seq<Entry>, i: nat)
    requires Indexed(m, ns, c) && i < |c|
    ensures Indexed(m, Moved(ns, i), Moved(c, i))
  {
    var ns', c' := Moved(ns, i), Moved(c, i);
    KeysMoved(c, i);
    forall k | 0 <= k < |c'| ensures c'[k].key in m && m[c'[k].key] == ns'[k] {
      var k' := if k == 0 then i else if k <= i then k - 1 else k;
      assert c'[k] == c[k'] && ns'[k] == ns[k'];
    }
  }

  lemma IndexedSpliced(m: map<string, Node>, ns: seq<Node>, c: seq<Entry>, i: nat)
    requires Indexed(m, ns, c) && Distinct(ns) && i < |c|
    ensures Indexed(m - {c[i].key}, Spliced(ns, i), Spliced(c, i))
  {
    var ns', c' := Spliced(ns, i), Spliced(c, i);
    IndexedUnique(m, ns, c);
    KeysSpliced(c, i);
    forall k | 0 <= k < |c'| ensures c'[k].key in m - {c[i].key} && (m - {c[i].key})[c'[k].key] == ns'[k] {
      var k' := if k < i then k else k + 1;
      assert c'[k] == c[k'] && ns'[k] == ns[k'];
      assert c[k'].key != c[i].key;
    }
  }

  lemma IndexedSetValue(m: map<string, Node>, ns: seq<Node>, c: seq<Entry>, i: nat, v: string)
    requires Indexed(m, ns, c) && i < |c|
    ensures Indexed(m, ns, c[i := Entry(c[i].key, v)])
  {
    var c' := c[i := Entry(c[i].key, v)];
    SetValueAt(c, i, v);
    forall k | 0 <= k < |c'| ensures c'[k].key in m && m[c'[k].key] == ns[k] {
      assert c'[k].key == c[k].key;
    }
  }

  /** A map over distinct nodes holds one key per entry. */
  lemma IndexedSize(m: map<string, Node>, ns: seq<Node>, c: seq<Entry>)
    requires Indexed(m, ns, c) && Distinct(ns)
    ensures |m| == |c|
  {
    IndexedUnique(m, ns, c);
    KeysCount(c);
    assert |m| == |m.Keys|;
  }

  /** The position of a key that is in the map. */
  lemma IndexedAt(m: map<string, Node>, ns: seq<Node>, c: seq<Entry>, k: string) returns (i: nat)
    requires Indexed(m, ns, c) && k in m
    ensures i < |c| && c[i].key == k && m[k] == ns[i]
  {
    i :| 0 <= i < |c| && c[i].key == k;
  }

  // ---------------------------------------------------------------------
  // The list operations on the list's parts. Each one keeps ListValid and says
  // what the operation is on the recency list of LruSpec.

  /**
    A well-formed list: head, the nodes and tail linked both ways without a
    repeated node, each node carrying the entry at its position, and the
    map indexing exactly those entries.
   */
  ghost predicate ListValid(h: Node, ns: seq<Node>, t: Node, m: map<string, Node>, c: seq<Entry>)
    reads AllButLast(Between(h, ns, t))`next, AllButFirst(Between(h, ns, t))`prev, ns`value
  {
    && Distinct(Between(h, ns, t))
    && NextLinked(Between(h, ns, t)) && PrevLinked(Between(h, ns, t))
    && Carries(ns, c)
    && Indexed(m, ns, c)
  }

  /** The key a well-formed list maps to its node: its position, and what Get and Put make of it. */
  lemma ListFind(h: Node, ns: seq<Node>, t: Node, m: map<string, Node>, c: seq<Entry>, k: string) returns (i: nat)
    requires ListValid(h, ns, t, m, c) && k in m
    ensures i < |ns| && ns[i] == m[k] && c[i].key == k && m[k].value == c[i].value
    ensures LruSpec.Get(c, k) == (c[i].value, true)
    ensures forall capacity: int, v: string :: LruSpec.Put(c, capacity, k, v) == Promote(c[i := Entry(k, v)], k)
  {
    i := IndexedAt(m, ns, c, k);
    DistinctInner(h, ns, t);
    IndexedUnique(m, ns, c);
    GetPresent(c, i);
    forall capacity: int, v: string ensures LruSpec.Put(c, capacity, k, v) == Promote(c[i := Entry(k, v)], k) {
      SetPromote(c, capacity, i, v);
    }
  }

  /** A well-formed list's map holds one key per node. */
  lemma ListSize(h: Node, ns: seq<Node>, t: Node, m: map<string, Node>, c: seq<Entry>)
    requires ListValid(h, ns, t, m, c)
    ensures |m| == |c| && m.Keys == Keys(c)
  {
    DistinctInner(h, ns, t);
    IndexedSize(m, ns, c);
  }

  /** The node next to tail: the last listed node when there is one, head otherwise. */
  lemma ListLast(h: Node, ns: seq<Node>, t: Node, m: map<string, Node>, c: seq<Entry>)
    requires ListValid(h, ns, t, m, c)
    ensures t.prev == if ns == [] then h else ns[|ns| - 1]
    ensures ns != [] ==> t.prev != h
  {
    var s := Between(h, ns, t);
    BetweenAt(h, ns, t);
    LinkedAt(s, |ns|);
    if ns != [] {
      DistinctAt(s, 0, |ns|);
    }
  }

  /** The six link writes of moveToFront: the node at position i is detached, then put back right after h. */
  method MoveNode(h: Node, t: Node, ghost ns: seq<Node>, ghost m: map<string, Node>, ghost c: seq<Entry>, n: Node, ghost i: nat)
    requires ListValid(h, ns, t, m, c) && i < |ns| && ns[i] == n
    modifies Between(h, ns, t)
    ensures ListValid(h, Moved(ns, i), t, m, Moved(c, i))
    ensures forall x | x in Between(h, Moved(ns, i), t) :: x in Between(h, ns, t)
    ensures Moved(c, i) == Promote(c, n.key)
  {
    ghost var s := Between(h, ns, t);
    BetweenAt(h, ns, t);
    LinkedAt(s, i);
    LinkedAt(s, i + 1);
    LinkedAt(s, 0);
    DistinctInner(h, ns, t);
    MovedChain(h, ns, t, i);
    IndexedMoved(m, ns, c, i);
    IndexedUnique(m, ns, c);
    GetPresent(c, i);
    CarriesMoved(ns, c, i);
    ghost var r := Spliced(s, i + 1);
    DistinctSplice(s, i + 1);
    BetweenMoved(h, ns, t, i);
    Unlink(n, s, i + 1);
    LinkedAt(r, 0);
    LinkAfterFirst(h, n, r);
  }

  /** The four link writes of addToFront: the new node n goes in right after h, and its key into the map. */
  method AddNode(h: Node, t: Node, ghost ns: seq<Node>, ghost m: map<string, Node>, ghost c: seq<Entry>, n: Node)
    requires ListValid(h, ns, t, m, c) && n !in Between(h, ns, t) && n.key !in m
    modifies Between(h, ns, t), n`next, n`prev
    ensures ListValid(h, [n] + ns, t, m[n.key := n], [Entry(n.key, n.value)] + c)
    ensures forall x | x in Between(h, [n] + ns, t) :: x in Between(h, ns, t) || x == n
  {
    ghost var s := Between(h, ns, t);
    BetweenAt(h, ns, t);
    LinkedAt(s, 0);
    BetweenCons(h, ns, t, n);
    ConsChain(h, ns, t, n);
    IndexedCons(m, ns, c, n, Entry(n.key, n.value));
    CarriesCons(n, ns, Entry(n.key, n.value), c);
    LinkAfterFirst(h, n, s);
  }

  /**
    The two link writes that take the node at position i off the list: its
    predecessor's next and its successor's prev skip it. The list is then
    well-formed once the node's key is out of the map.
   */
  method SpliceNode(h: Node, t: Node, ghost ns: seq<Node>, ghost m: map<string, Node>, ghost c: seq<Entry>, n: Node, ghost i: nat)
    requires ListValid(h, ns, t, m, c) && i < |ns| && ns[i] == n
    modifies Between(h, ns, t)
    ensures ListValid(h, Spliced(ns, i), t, m - {n.key}, Spliced(c, i))
    ensures forall x | x in Between(h, Spliced(ns, i), t) :: x in Between(h, ns, t)
    ensures Spliced(c, i) == Delete(c, n.key)
  {
    ghost var s := Between(h, ns, t);
    BetweenAt(h, ns, t);
    LinkedAt(s, i);
    LinkedAt(s, i + 1);
    DistinctInner(h, ns, t);
    SplicedChain(h, ns, t, i);
    IndexedSpliced(m, ns, c, i);
    IndexedUnique(m, ns, c);
    DeletePresent(c, i);
    BetweenSpliced(h, ns, t, i);
    CarriesSpliced(ns, c, i);
    Unlink(n, s, i + 1);
  }

  /** The value write of Put: the node at position i, and its entry, take the value v. */
  method SetNodeValue(h: Node, t: Node, ghost ns: seq<Node>, ghost m: map<string, Node>, ghost c: seq<Entry>, n: Node, v: string, ghost i: nat)
    requires ListValid(h, ns, t, m, c) && i < |ns| && ns[i] == n
    modifies n`value
    ensures ListValid(h, ns, t, m, c[i := Entry(c[i].key, v)])
  {
    DistinctInner(h, ns, t);
    IndexedSetValue(m, ns, c, i, v);
    WriteValue(n, v, ns, c, i);
  }

  // ---------------------------------------------------------------------

  /** The doubly-linked recency list together with its key-to-node map. */
  class Dll {
    const head: Node
    const tail: Node
    var m: map<string, Node>
    ghost var nodes: seq<Node>
    ghost var Contents: seq<Entry>
    ghost var Repr: set<object>

    /** The whole list as it is linked, sentinels included. */
    ghost function Chain(): seq<Node>
      reads this
    {
      Between(head, nodes, tail)
    }

    /**
      Following next from head, and prev from tail, runs through exactly
      `nodes`, no node twice; each node carries the entry at its position in
      Contents; the map holds exactly the keys on the list, each sent to its node.
     */
    ghost predicate Valid()
      reads this, Repr
      ensures Valid() ==> this in Repr
    {
      && this in Repr
      && (forall x | x in Chain() :: x in Repr)
      && ListValid(head, nodes, tail, m, Contents)
    }

    /** The node a key maps to: its position, and what Get and Put make of the key. */
    lemma Find(k: string) returns (i: nat)
      requires Valid() && k in m
      ensures i < |nodes| && nodes[i] == m[k] && m[k].key == k && m[k].value == Contents[i].value
      ensures LruSpec.Get(Contents, k) == (m[k].value, true)
      ensures forall capacity: int, v: string :: LruSpec.Put(Contents, capacity, k, v) == Promote(Contents[i := Entry(k, v)], k)
    {
      i := ListFind(head, nodes, tail, m, Contents, k);
    }

    /** The map has one key per entry: len(m) is the number of cached entries. */
    lemma Size()
      requires Valid()
      ensures |m| == |Contents| && m.Keys == Keys(Contents)
    {
      ListSize(head, nodes, tail, m, Contents);
    }

    /** newDLL: an empty list, head and tail linked to each other, an empty map. */
    constructor ()
      ensures Valid() && fresh(Repr)
      ensures Contents == [] && m == map[]
    {
      var h := new Node("", "");
      var t := new Node("", "");
      h.next := t;
      t.prev := h;
      head, tail := h, t;
      m := map[];
      nodes, Contents := [], [];
      Repr := {this, h, t};
      new;
      assert Chain() == [h, t];
      assert Distinct(Chain()) by {
        forall i, j | 0 <= i < 2 && 0 <= j < 2 && i != j ensures At(Chain(), i) != At(Chain(), j) {
        }
      }
    }

    /** moveToFront: detach a listed node and reinsert it just after head. */
    method MoveToFront(n: Node)
      requires Valid() && n in nodes
      modifies Repr
      ensures Valid() && unchanged(this`m, this`Repr)
      ensures Contents == Promote(old(Contents), n.key) && |Contents| == |old(Contents)|
    {
      ghost var i :| 0 <= i < |nodes| && nodes[i] == n;
      ghost var ns, c := nodes, Contents;
      MoveNode(head, tail, ns, m, c, n, i);
      nodes := Moved(ns, i);
      Contents := Moved(c, i);
    }

    /** addToFront: a fresh node for a key not in the map, linked just after head and entered in the map. */
    method AddToFront(key: string, value: string) returns (n: Node)
      requires Valid() && key !in m
      modifies Repr
      ensures Valid() && fresh(n) && Repr == old(Repr) + {n}
      ensures Contents == [Entry(key, value)] + old(Contents)
      ensures m == old(m)[key := n]
    {
      ghost var ns, c := nodes, Contents;
      n := new Node(key, value);
      AddNode(head, tail, ns, m, c, n);
      m := m[key := n];
      nodes := [n] + ns;
      Contents := [Entry(key, value)] + c;
      Repr := Repr + {n};
    }

    /** removeLast: unlink the node next to tail and drop its key from the map; nothing on an empty list. */
    method RemoveLast()
      requires Valid()
      modifies Repr
      ensures Valid() && unchanged(this`Repr)
      ensures Contents == DropLast(old(Contents))
    {
      ghost var ns, c := nodes, Contents;
      ListLast(head, ns, tail, m, c);
      var last := tail.prev;
      if last == head {
        return;
      }
      ghost var i := |ns| - 1;
      m := m - {last.key};
      // last.next is tail, so these are the writes last.prev.next = tail and tail.prev = last.prev.
      SpliceNode(head, tail, ns, old(m), c, last, i);
      nodes := Spliced(ns, i);
      Contents := Spliced(c, i);
    }

    /** The value write node.value = v of Put, on the node at position i. */
    method SetValue(n: Node, v: string, ghost i: nat)
      requires Valid() && i < |nodes| && nodes[i] == n
      modifies n`value, this`Contents
      ensures Valid() && unchanged(this`m, this`Repr, this`nodes)
      ensures Contents == old(Contents)[i := Entry(n.key, v)]
    {
      SetNodeValue(head, tail, nodes, m, Contents, n, v, i);
      Contents := Contents[i := Entry(n.key, v)];
    }
  }

  /** The bounded cache: a capacity fixed at construction and the list. */
  class LRUCache {
    const capacity: int
    const list: Dll
    ghost var Repr: set<object>

    ghost predicate Valid()
      reads this, Repr
      ensures Valid() ==> this in Repr
    {
      && this in Repr && list in Repr && list.Repr <= Repr && this !in list.Repr
      && list.Valid()
      && |list.Contents| <= Bound(capacity)
    }

    /** The cached entries, most recently used first. */
    ghost function Contents(): seq<Entry>
      reads this, list
    {
      list.Contents
    }

    /** NewLRUCache: an empty cache with the given capacity. */
    constructor (cap: int)
      ensures Valid() && fresh(Repr)
      ensures capacity == cap && Contents() == []
    {
      capacity := cap;
      var l := new Dll();
      list := l;
      Repr := {this} + l.Repr;
    }

    /**
      Get: a miss returns ("", false) and changes nothing; a hit returns the
      current value with true and moves the entry to the front.
     */
    method Get(key: string) returns (value: string, found: bool)
      requires Valid()
      modifies Repr
      ensures Valid() && unchanged(this`Repr)
      ensures (value, found) == LruSpec.Get(old(Contents()), key)
      ensures Contents() == Promote(old(Contents()), key)
    {
      if key !in list.m {
        list.Size();
        GetAbsent(list.Contents, key);
        return "", false;
      }
      var n := list.m[key];
      ghost var i := list.Find(key);
      value := n.value;
      // Sequentially the key still maps to the same node, so the entry is promoted.
      if key in list.m && list.m[key] == n {
        list.MoveToFront(n);
      }
      found := true;
    }

    /**
      Put: a present key gets the new value and moves to the front; a new key
      first evicts the least-recently-used entry when the size has reached the
      capacity, then goes in at the front.
     */
    method Put(key: string, value: string)
      requires Valid()
      modifies Repr
      ensures Valid() && fresh(Repr - old(Repr))
      ensures Contents() == LruSpec.Put(old(Contents()), capacity, key, value)
    {
      ghost var c := list.Contents;
      if key in list.m {
        var n := list.m[key];
        ghost var i := list.Find(key);
        list.SetValue(n, value, i);
        list.MoveToFront(n);
        return;
      }
      list.Size();
      if |list.m| >= capacity {
        list.RemoveLast();
        KeysDropLast(c);
        list.Size();
      }
      var _ := list.AddToFront(key, value);
      Repr := Repr + list.Repr;
    }

    /** DeleteKey: a present key is unlinked and dropped from the map; an absent key changes nothing. */
    method DeleteKey(key: string)
      requires Valid()
      modifies Repr
      ensures Valid() && unchanged(this`Repr)
      ensures Contents() == Delete(old(Contents()), key)
    {
      if key in list.m {
        var n := list.m[key];
        ghost var i := list.Find(key);
        ghost var ns, m, c := list.nodes, list.m, list.Contents;
        // The two link writes, then the map entry goes.
        SpliceNode(list.head, list.tail, ns, m, c, n, i);
        list.m := list.m - {key};
        list.nodes := Spliced(ns, i);
        list.Contents := Spliced(c, i);
      } else {
        list.Size();
        RemoveAbsent(list.Contents, key);
      }
    }
  }
}
