/**
  The abstract state of the LRU cache of cache/main.go: the entries that sit
  between the head and tail sentinels of its doubly-linked list, read from the
  most-recently-used end (next to head) to the least-recently-used end (next
  to tail). Cache.Dll and Cache.LRUCache are proved against the functions here.
 */
module LruSpec {

  datatype Option<T> = None | Some(value: T)

  /** One cached pair, as carried by a list node. */
  datatype Entry = Entry(key: string, value: string)

  /** The keys on a recency list. */
  function Keys(s: seq<Entry>): set<string>
  {
    set i | 0 <= i < |s| :: s[i].key
  }

  /** No key occurs twice on the list. */
  predicate UniqueKeys(s: seq<Entry>)
  {
    forall i, j | 0 <= i < j < |s| :: s[i].key != s[j].key
  }

  /**
    The size a cache of the given capacity never exceeds. Put evicts only when
    the size has reached the capacity, and eviction from an empty list does
    nothing, so a capacity below one still admits one entry.
   */
  function Bound(capacity: int): nat
  {
    if capacity < 1 then 1 else capacity
  }

  /** What every cache state satisfies: unique keys and the size bound. */
  predicate Inv(s: seq<Entry>, capacity: int)
  {
    UniqueKeys(s) && |s| <= Bound(capacity)
  }

  lemma KeysCons(s: seq<Entry>)
    requires |s| > 0
    ensures Keys(s) == {s[0].key} + Keys(s[1..])
  {
    forall k | k in Keys(s) ensures k in {s[0].key} + Keys(s[1..]) {
      var i :| 0 <= i < |s| && s[i].key == k;
      if i > 0 { assert s[1..][i - 1].key == k; }
    }
    forall k | k in Keys(s[1..]) ensures k in Keys(s) {
      var i :| 0 <= i < |s[1..]| && s[1..][i].key == k;
      assert s[i + 1].key == k;
    }
  }

  lemma KeysAppend(a: seq<Entry>, b: seq<Entry>)
    ensures Keys(a + b) == Keys(a) + Keys(b)
  {
    forall k | k in Keys(a + b) ensures k in Keys(a) + Keys(b) {
      var i :| 0 <= i < |a + b| && (a + b)[i].key == k;
      if i >= |a| { assert b[i - |a|].key == k; }
    }
    forall k | k in Keys(a) ensures k in Keys(a + b) {
      var i :| 0 <= i < |a| && a[i].key == k;
      assert (a + b)[i].key == k;
    }
    forall k | k in Keys(b) ensures k in Keys(a + b) {
      var i :| 0 <= i < |b| && b[i].key == k;
      assert (a + b)[|a| + i].key == k;
    }
  }

  /** A list headed by one entry has unique keys exactly when the rest does and omits that key. */
  lemma UniqueCons(e: Entry, t: seq<Entry>)
    ensures UniqueKeys([e] + t) <==> e.key !in Keys(t) && UniqueKeys(t)
  {
    var s := [e] + t;
    assert s[1..] == t;
    KeysCons(s);
    if UniqueKeys(s) {
      forall i, j | 0 <= i < j < |t| ensures t[i].key != t[j].key {
        assert s[i + 1] == t[i] && s[j + 1] == t[j];
      }
    }
    if e.key !in Keys(t) && UniqueKeys(t) {
      forall i, j | 0 <= i < j < |s| ensures s[i].key != s[j].key {
        if i == 0 { assert s[j].key == t[j - 1].key; }
        else { assert s[i] == t[i - 1] && s[j] == t[j - 1]; }
      }
    }
  }

  /** The value the list holds for a key: the first (under UniqueKeys the only) entry carrying it. */
  function Lookup(s: seq<Entry>, k: string): (r: Option<string>)
    ensures r.Some? <==> k in Keys(s)
    decreases |s|
  {
    if s == [] then None
    else
      KeysCons(s);
      if s[0].key == k then Some(s[0].value) else Lookup(s[1..], k)
  }

  /** Lookup finds the entry at any position of a list with unique keys. */
  lemma {:induction false} LookupAt(s: seq<Entry>, i: nat)
    requires UniqueKeys(s) && i < |s|
    ensures Lookup(s, s[i].key) == Some(s[i].value)
  {
    if i > 0 {
      assert s[0].key != s[i].key;
      UniqueCons(s[0], s[1..]);
      assert [s[0]] + s[1..] == s;
      LookupAt(s[1..], i - 1);
    }
  }

  /** What Lookup finds is an entry of the list. */
  lemma {:induction false} LookupIn(s: seq<Entry>, k: string)
    ensures Lookup(s, k).Some? ==> Entry(k, Lookup(s, k).value) in s
  {
    if s != [] && s[0].key != k {
      LookupIn(s[1..], k);
      assert forall e | e in s[1..] :: e in s;
    }
  }

  /** The list without the entries carrying a key, the others in their original order. */
  function Remove(s: seq<Entry>, k: string): (r: seq<Entry>)
    ensures Keys(r) == Keys(s) - {k}
    ensures |r| <= |s|
    decreases |s|
  {
    if s == [] then []
    else
      KeysCons(s);
      if s[0].key == k then Remove(s[1..], k)
      else
        var t := Remove(s[1..], k);
        KeysCons([s[0]] + t);
        assert ([s[0]] + t)[1..] == t;
        [s[0]] + t
  }

  /** Removing a key not on the list leaves the list as it was. */
  lemma {:induction false} RemoveAbsent(s: seq<Entry>, k: string)
    requires k !in Keys(s)
    ensures Remove(s, k) == s
  {
    if s != [] {
      KeysCons(s);
      RemoveAbsent(s[1..], k);
      assert [s[0]] + s[1..] == s;
    }
  }

  /** On a list with unique keys, removing the key at position i splices out exactly that entry. */
  lemma {:induction false} RemoveAt(s: seq<Entry>, i: nat)
    requires UniqueKeys(s) && i < |s|
    ensures Remove(s, s[i].key) == s[..i] + s[i + 1..]
  {
    UniqueCons(s[0], s[1..]);
    assert [s[0]] + s[1..] == s;
    var k := s[i].key;
    if i == 0 {
      RemoveAbsent(s[1..], k);
    } else {
      assert s[0].key != k;
      assert Remove(s, k) == [s[0]] + Remove(s[1..], k);
      assert s[1..][i - 1] == s[i];
      RemoveAt(s[1..], i - 1);
      assert s[1..][..i - 1] == s[1..i] && s[1..][i..] == s[i + 1..];
      assert [s[0]] + s[1..i] == s[..i];
    }
  }

  /** Removal keeps keys unique. */
  lemma {:induction false} RemoveUnique(s: seq<Entry>, k: string)
    requires UniqueKeys(s)
    ensures UniqueKeys(Remove(s, k))
  {
    if s != [] {
      UniqueCons(s[0], s[1..]);
      assert [s[0]] + s[1..] == s;
      RemoveUnique(s[1..], k);
      if s[0].key != k {
        UniqueCons(s[0], Remove(s[1..], k));
      }
    }
  }

  /** Removal only drops entries: what is left was on the list and does not carry the key. */
  lemma {:induction false} RemoveFrom(s: seq<Entry>, k: string)
    ensures forall e | e in Remove(s, k) :: e in s && e.key != k
  {
    if s != [] {
      RemoveFrom(s[1..], k);
      assert forall e | e in s[1..] :: e in s;
    }
  }

  /** removeLast: drops the least-recently-used entry; on an empty list it does nothing. */
  function DropLast(s: seq<Entry>): seq<Entry>
  {
    if s == [] then [] else s[..|s| - 1]
  }

  /** The result of Get: the value and whether the key was present. */
  function Get(s: seq<Entry>, k: string): (string, bool)
  {
    match Lookup(s, k)
    case Some(v) => (v, true)
    case None => ("", false)
  }

  /** The list after Get: a hit moves the entry to the front, a miss changes nothing. */
  function Promote(s: seq<Entry>, k: string): seq<Entry>
  {
    match Lookup(s, k)
    case Some(v) => [Entry(k, v)] + Remove(s, k)
    case None => s
  }

  /** The list after Put. */
  function Put(s: seq<Entry>, capacity: int, k: string, v: string): seq<Entry>
  {
    if k in Keys(s) then [Entry(k, v)] + Remove(s, k)
    else if |s| >= capacity then [Entry(k, v)] + DropLast(s)
    else [Entry(k, v)] + s
  }

  /** The list after DeleteKey. */
  function Delete(s: seq<Entry>, k: string): seq<Entry>
  {
    Remove(s, k)
  }

  // ---------------------------------------------------------------------
  // Properties of the operations

  /** Get on an absent key returns ("", false) and leaves the order alone. */
  lemma GetAbsent(s: seq<Entry>, k: string)
    requires k !in Keys(s)
    ensures Get(s, k) == ("", false)
    ensures Promote(s, k) == s
  {
  }

  /**
    Get on the key at position i returns its value with true, and moves that
    entry to the front; the other entries keep their relative order.
   */
  lemma GetPresent(s: seq<Entry>, i: nat)
    requires UniqueKeys(s) && i < |s|
    ensures Get(s, s[i].key) == (s[i].value, true)
    ensures Promote(s, s[i].key) == [s[i]] + s[..i] + s[i + 1..]
  {
    LookupAt(s, i);
    RemoveAt(s, i);
  }

  /** Get keeps keys unique, keeps the set of keys and keeps the size. */
  lemma PromotePreserves(s: seq<Entry>, k: string)
    requires UniqueKeys(s)
    ensures UniqueKeys(Promote(s, k))
    ensures Keys(Promote(s, k)) == Keys(s) && |Promote(s, k)| == |s|
  {
    if k in Keys(s) {
      var i :| 0 <= i < |s| && s[i].key == k;
      LookupAt(s, i);
      RemoveAt(s, i);
      RemoveUnique(s, k);
      UniqueCons(s[i], Remove(s, k));
      KeysCons([s[i]] + Remove(s, k));
      assert ([s[i]] + Remove(s, k))[1..] == Remove(s, k);
    }
  }

  /** Get keeps the invariant. */
  lemma PromoteInv(s: seq<Entry>, capacity: int, k: string)
    requires Inv(s, capacity)
    ensures Inv(Promote(s, k), capacity)
  {
    PromotePreserves(s, k);
  }

  /** On a list with unique keys, the number of distinct keys is the length. */
  lemma {:induction false} KeysCount(s: seq<Entry>)
    requires UniqueKeys(s)
    ensures |Keys(s)| == |s|
  {
    if s != [] {
      KeysCons(s);
      UniqueCons(s[0], s[1..]);
      assert [s[0]] + s[1..] == s;
      KeysCount(s[1..]);
    }
  }

  /**
    Dropping the last entry of a list with unique keys removes exactly its key
    and keeps the others unique.
   */
  lemma DropLastKeys(s: seq<Entry>)
    requires UniqueKeys(s) && s != []
    ensures Keys(DropLast(s)) == Keys(s) - {s[|s| - 1].key}
    ensures UniqueKeys(DropLast(s))
  {
    var d := s[..|s| - 1];
    var last := s[|s| - 1];
    assert d + [last] == s;
    KeysAppend(d, [last]);
    assert last.key !in Keys(d) by {
      forall i | 0 <= i < |d| ensures d[i].key != last.key {
        assert d[i] == s[i];
      }
    }
    forall i, j | 0 <= i < j < |d| ensures d[i].key != d[j].key {
      assert d[i] == s[i] && d[j] == s[j];
    }
  }

  /** Replacing the value at one position changes neither the keys nor their uniqueness. */
  lemma SetValueAt(s: seq<Entry>, i: nat, v: string)
    requires i < |s|
    ensures Keys(s[i := Entry(s[i].key, v)]) == Keys(s)
    ensures UniqueKeys(s[i := Entry(s[i].key, v)]) == UniqueKeys(s)
  {
    var t := s[i := Entry(s[i].key, v)];
    assert forall j | 0 <= j < |s| :: t[j].key == s[j].key;
  }

  /** Put keeps keys unique and the size within Bound(capacity). */
  lemma PutInv(s: seq<Entry>, capacity: int, k: string, v: string)
    requires Inv(s, capacity)
    ensures Inv(Put(s, capacity, k, v), capacity)
  {
    var e := Entry(k, v);
    if k in Keys(s) {
      var i :| 0 <= i < |s| && s[i].key == k;
      RemoveAt(s, i);
      RemoveUnique(s, k);
      UniqueCons(e, Remove(s, k));
    } else if |s| >= capacity && s != [] {
      DropLastKeys(s);
      UniqueCons(e, DropLast(s));
    } else {
      UniqueCons(e, s);
    }
  }

  /** Put on a present key: the new value is at the front and the size is unchanged. */
  lemma PutExisting(s: seq<Entry>, capacity: int, i: nat, v: string)
    requires UniqueKeys(s) && i < |s|
    ensures Put(s, capacity, s[i].key, v) == [Entry(s[i].key, v)] + s[..i] + s[i + 1..]
    ensures |Put(s, capacity, s[i].key, v)| == |s|
  {
    RemoveAt(s, i);
  }

  /** Put on a present key is the value change followed by the promotion Get performs. */
  lemma SetPromote(s: seq<Entry>, capacity: int, i: nat, v: string)
    requires UniqueKeys(s) && i < |s|
    ensures Put(s, capacity, s[i].key, v) == Promote(s[i := Entry(s[i].key, v)], s[i].key)
  {
    var t := s[i := Entry(s[i].key, v)];
    SetValueAt(s, i, v);
    PutExisting(s, capacity, i, v);
    GetPresent(t, i);
    assert t[..i] == s[..i] && t[i + 1..] == s[i + 1..];
  }

  /**
    Put of a new key into a full, non-empty cache evicts exactly the
    least-recently-used entry (the last one) and inserts the new one at the front.
   */
  lemma PutEvictsLast(s: seq<Entry>, capacity: int, k: string, v: string)
    requires UniqueKeys(s) && s != [] && |s| >= capacity && k !in Keys(s)
    ensures Put(s, capacity, k, v) == [Entry(k, v)] + s[..|s| - 1]
    ensures Keys(Put(s, capacity, k, v)) == Keys(s) - {s[|s| - 1].key} + {k}
    ensures |Put(s, capacity, k, v)| == |s|
  {
    var d := DropLast(s);
    DropLastKeys(s);
    KeysCons([Entry(k, v)] + d);
    assert ([Entry(k, v)] + d)[1..] == d;
  }

  /** Put of a new key below capacity inserts at the front and evicts nothing. */
  lemma PutBelowCapacity(s: seq<Entry>, capacity: int, k: string, v: string)
    requires |s| < capacity && k !in Keys(s)
    ensures Put(s, capacity, k, v) == [Entry(k, v)] + s
  {
  }

  /** Every entry after Put is the new pair or an entry that was there before under another key. */
  lemma PutFrom(s: seq<Entry>, capacity: int, k: string, v: string)
    ensures forall e | e in Put(s, capacity, k, v) :: e == Entry(k, v) || (e in s && e.key != k)
  {
    RemoveFrom(s, k);
    if k !in Keys(s) {
      forall e | e in DropLast(s) ensures e in s && e.key != k {
        var j :| 0 <= j < |DropLast(s)| && DropLast(s)[j] == e;
        assert s[j] == e;
      }
      forall e | e in s ensures e.key != k {
        var j :| 0 <= j < |s| && s[j] == e;
      }
    }
  }

  /** Put(k, v) followed by Get(k) yields (v, true). */
  lemma PutThenGet(s: seq<Entry>, capacity: int, k: string, v: string)
    ensures Get(Put(s, capacity, k, v), k) == (v, true)
  {
  }

  /** After DeleteKey(k), Get(k) misses. */
  lemma DeleteThenGet(s: seq<Entry>, k: string)
    ensures Get(Delete(s, k), k) == ("", false)
  {
  }

  /** DeleteKey splices the entry out; the others keep their order. */
  lemma DeletePresent(s: seq<Entry>, i: nat)
    requires UniqueKeys(s) && i < |s|
    ensures Delete(s, s[i].key) == s[..i] + s[i + 1..]
    ensures |Delete(s, s[i].key)| == |s| - 1
  {
    RemoveAt(s, i);
  }

  /** DeleteKey is idempotent: deleting twice is deleting once. */
  lemma DeleteIdempotent(s: seq<Entry>, k: string)
    ensures Delete(Delete(s, k), k) == Delete(s, k)
  {
    RemoveAbsent(Delete(s, k), k);
  }

  /** DeleteKey keeps the invariant. */
  lemma DeleteInv(s: seq<Entry>, capacity: int, k: string)
    requires Inv(s, capacity)
    ensures Inv(Delete(s, k), capacity)
  {
    RemoveUnique(s, k);
  }

  /**
    A Get on a cached key protects it from the next eviction: after the Get, a
    Put of a new key into a cache holding at least two entries keeps it.
   */
  lemma GetProtectsFromEviction(s: seq<Entry>, capacity: int, k: string, k': string, v: string)
    requires UniqueKeys(s) && |s| >= 2 && k in Keys(s) && k' !in Keys(s)
    ensures k in Keys(Put(Promote(s, k), capacity, k', v))
  {
    var i :| 0 <= i < |s| && s[i].key == k;
    GetPresent(s, i);
    PromoteInv(s, |s|, k);
    var p := Promote(s, k);
    assert p[0].key == k;
    if |p| >= capacity {
      assert DropLast(p)[0] == p[0];
    }
    assert Put(p, capacity, k', v)[1].key == k;
  }

  // ---------------------------------------------------------------------
  // Runs of operations

  datatype Op = GetOp(key: string) | PutOp(key: string, value: string) | DeleteOp(key: string)

  /** The list after one operation. */
  function Step(s: seq<Entry>, capacity: int, op: Op): seq<Entry>
  {
    match op
    case GetOp(k) => Promote(s, k)
    case PutOp(k, v) => Put(s, capacity, k, v)
    case DeleteOp(k) => Delete(s, k)
  }

  /** The list after a run of operations, first to last. */
  function Run(s: seq<Entry>, capacity: int, ops: seq<Op>): seq<Entry>
    decreases |ops|
  {
    if ops == [] then s else Run(Step(s, capacity, ops[0]), capacity, ops[1..])
  }

  /** Every run of Get/Put/DeleteKey from a valid state ends in a valid state. */
  lemma {:induction false} RunInv(s: seq<Entry>, capacity: int, ops: seq<Op>)
    requires Inv(s, capacity)
    ensures Inv(Run(s, capacity, ops), capacity)
    decreases |ops|
  {
    if ops != [] {
      match ops[0] {
        case GetOp(k) => PromoteInv(s, capacity, k);
        case PutOp(k, v) => PutInv(s, capacity, k, v);
        case DeleteOp(k) => DeleteInv(s, capacity, k);
      }
      RunInv(Step(s, capacity, ops[0]), capacity, ops[1..]);
    }
  }

  // ---------------------------------------------------------------------
  // Scenarios

  /** Capacity 2: put a, put b, get a, put c evicts b and leaves c, a (most recent first). */
  lemma ScenarioGetThenOverflow()
    ensures Run([], 2, [PutOp("a", "1"), PutOp("b", "2"), GetOp("a"), PutOp("c", "3")])
         == [Entry("c", "3"), Entry("a", "1")]
  {
    var s1 := Put([], 2, "a", "1");
    assert s1 == [Entry("a", "1")];
    var s2 := Put(s1, 2, "b", "2");
    assert "b" !in Keys(s1);
    assert s2 == [Entry("b", "2"), Entry("a", "1")];
    GetPresent(s2, 1);
    var s3 := Promote(s2, "a");
    assert s3 == [Entry("a", "1"), Entry("b", "2")];
    assert "c" !in Keys(s3);
    var s4 := Put(s3, 2, "c", "3");
    assert s4 == [Entry("c", "3"), Entry("a", "1")];
  }

  /** Capacity 2: three distinct puts with no Get in between evict the first one. */
  lemma ScenarioOverflowEvictsFirst()
    ensures Run([], 2, [PutOp("a", "1"), PutOp("b", "2"), PutOp("c", "3")])
         == [Entry("c", "3"), Entry("b", "2")]
  {
    var s1 := Put([], 2, "a", "1");
    assert s1 == [Entry("a", "1")];
    assert "b" !in Keys(s1);
    var s2 := Put(s1, 2, "b", "2");
    assert s2 == [Entry("b", "2"), Entry("a", "1")];
    assert "c" !in Keys(s2);
  }

  /** A Put for each entry, in order. */
  function PutAll(es: seq<Entry>): (ops: seq<Op>)
    ensures |ops| == |es|
    ensures forall j | 0 <= j < |es| :: ops[j] == PutOp(es[j].key, es[j].value)
  {
    seq(|es|, j requires 0 <= j < |es| => PutOp(es[j].key, es[j].value))
  }

  /** The entries in reverse order: the last one first. */
  function NewestFirst(es: seq<Entry>): (r: seq<Entry>)
    ensures |r| == |es|
    ensures forall j | 0 <= j < |es| :: r[j] == es[|es| - 1 - j]
  {
    seq(|es|, j requires 0 <= j < |es| => es[|es| - 1 - j])
  }

  /** Running one more operation is one more Step. */
  lemma {:induction false} RunSnoc(s: seq<Entry>, capacity: int, ops: seq<Op>, op: Op)
    ensures Run(s, capacity, ops + [op]) == Step(Run(s, capacity, ops), capacity, op)
    decreases |ops|
  {
    if ops == [] {
      assert ops + [op] == [op];
      assert [op][1..] == [];
    } else {
      assert (ops + [op])[0] == ops[0];
      assert (ops + [op])[1..] == ops[1..] + [op];
      RunSnoc(Step(s, capacity, ops[0]), capacity, ops[1..], op);
    }
  }

  /** The Puts of the first k + 1 entries end with one more Put of entry k. */
  lemma PutAllPrefix(es: seq<Entry>, capacity: int, k: nat)
    requires k < |es|
    ensures Run([], capacity, PutAll(es[..k + 1]))
         == Put(Run([], capacity, PutAll(es[..k])), capacity, es[k].key, es[k].value)
  {
    assert PutAll(es[..k + 1]) == PutAll(es[..k]) + [PutOp(es[k].key, es[k].value)];
    RunSnoc([], capacity, PutAll(es[..k]), PutOp(es[k].key, es[k].value));
  }

  /** The first k distinct entries, newest first, still have distinct keys, none of them that of entry k. */
  lemma NewestFirstFresh(es: seq<Entry>, k: nat)
    requires UniqueKeys(es) && k < |es|
    ensures UniqueKeys(NewestFirst(es[..k]))
    ensures es[k].key !in Keys(NewestFirst(es[..k]))
  {
    var s := NewestFirst(es[..k]);
    forall i, j | 0 <= i < j < |s| ensures s[i].key != s[j].key {
      assert s[i] == es[k - 1 - i] && s[j] == es[k - 1 - j];
    }
    forall j | 0 <= j < |s| ensures s[j].key != es[k].key {
      assert s[j] == es[k - 1 - j];
    }
  }

  /** Up to the capacity, Puts of distinct keys into an empty cache keep every entry, newest first. */
  lemma {:induction false} FillBelow(es: seq<Entry>, capacity: int, k: nat)
    requires UniqueKeys(es) && k <= |es| && k <= capacity
    ensures Run([], capacity, PutAll(es[..k])) == NewestFirst(es[..k])
    decreases k
  {
    if k == 0 {
      assert PutAll(es[..0]) == [];
    } else {
      FillBelow(es, capacity, k - 1);
      PutAllPrefix(es, capacity, k - 1);
      NewestFirstFresh(es, k - 1);
      var e := es[k - 1];
      PutBelowCapacity(NewestFirst(es[..k - 1]), capacity, e.key, e.value);
      assert [e] + NewestFirst(es[..k - 1]) == NewestFirst(es[..k]);
    }
  }

  /** Putting entry n in front of the first n newest first, less the oldest, is all but entry 0 newest first. */
  lemma NewestFirstShift(es: seq<Entry>, n: nat)
    requires 1 <= n && |es| == n + 1
    ensures [es[n]] + NewestFirst(es[..n])[..n - 1] == NewestFirst(es[1..])
  {
    var r := [es[n]] + NewestFirst(es[..n])[..n - 1];
    forall j | 0 < j < n ensures r[j] == NewestFirst(es[1..])[j] {
      assert r[j] == NewestFirst(es[..n])[j - 1];
    }
  }

  /**
    With capacity n >= 1, Puts of n + 1 distinct keys into an empty cache with
    no Get in between evict exactly the first: the cache holds the other n,
    newest first.
   */
  lemma OverflowEvictsFirst(es: seq<Entry>, n: int)
    requires n >= 1 && |es| == n + 1 && UniqueKeys(es)
    ensures Run([], n, PutAll(es)) == NewestFirst(es[1..])
    ensures es[0].key !in Keys(Run([], n, PutAll(es)))
  {
    var s := NewestFirst(es[..n]);
    FillBelow(es, n, n);
    PutAllPrefix(es, n, n);
    assert es[..n + 1] == es;
    assert Run([], n, PutAll(es)) == Put(s, n, es[n].key, es[n].value);
    NewestFirstFresh(es, n);
    PutEvictsLast(s, n, es[n].key, es[n].value);
    NewestFirstShift(es, n);
    var r := NewestFirst(es[1..]);
    forall j | 0 <= j < |r| ensures r[j].key != es[0].key {
      assert r[j] == es[n - j];
    }
  }

  /**
    A capacity of zero (or below) does not mean "cache nothing": a Put into an
    empty cache keeps its entry, and a Put of another key replaces it.
   */
  lemma CapacityZeroHoldsOne(k: string, v: string, k': string, v': string)
    requires k != k'
    ensures Put([], 0, k, v) == [Entry(k, v)]
    ensures Put([Entry(k, v)], 0, k', v') == [Entry(k', v')]
  {
    assert k' !in Keys([Entry(k, v)]);
  }
}
