/**
 * The byte-budgeted least-recently-used store (ppcache/lru/lru.go).
 *
 * The doubly-linked list is modelled as a sequence of entries whose index 0 is
 * the list's front (most recently used) and whose last element is the list's
 * back (the eviction candidate). The Go map from key to list element is a map
 * from key to the value held by that element.
 */
module Lru {

  import opened Wrappers

  /** A list element: the key is kept so that eviction can delete the map entry. */
  datatype Entry<V> = Entry(key: string, value: V)

  /** The bytes an entry is charged: its key's length plus the value's `Length()`. */
  function EntrySize<V>(e: Entry<V>, len: V -> nat): nat {
    |e.key| + len(e.value)
  }

  /** Total charge of a list of entries. */
  function Size<V>(l: seq<Entry<V>>, len: V -> nat): nat {
    if l == [] then 0 else EntrySize(l[0], len) + Size(l[1..], len)
  }

  ghost function KeySet<V>(l: seq<Entry<V>>): set<string> {
    set e | e in l :: e.key
  }

  ghost predicate DistinctKeys<V>(l: seq<Entry<V>>) {
    forall i, j :: 0 <= i < j < |l| ==> l[i].key != l[j].key
  }

  /** The list with the element holding `key` unlinked (lists here hold a key at most once). */
  function Without<V>(l: seq<Entry<V>>, key: string): seq<Entry<V>> {
    if l == [] then []
    else if l[0].key == key then l[1..]
    else [l[0]] + Without(l[1..], key)
  }

  /**
   * The list after `Add(key, value)` and before eviction: an existing element is
   * moved to the front and given the new value, a new one is pushed at the front.
   */
  function Admit<V>(l: seq<Entry<V>>, key: string, value: V): seq<Entry<V>> {
    [Entry(key, value)] + Without(l, key)
  }

  /** The map the Go code keeps beside the list: each element's key to its value. */
  function MapOf<V>(l: seq<Entry<V>>): map<string, V> {
    if l == [] then map[] else MapOf(l[1..])[l[0].key := l[0].value]
  }

  /**
   * The list left by the eviction loop: while the budget is set (not 0) and
   * exceeded, and the list is not empty, drop the back element.
   */
  function Trim<V>(l: seq<Entry<V>>, maxBytes: int, len: V -> nat): (r: seq<Entry<V>>)
    ensures |r| <= |l| && r == l[..|r|]
    decreases |l|
  {
    if maxBytes == 0 || Size(l, len) <= maxBytes || l == [] then l
    else
      var r := Trim(l[..|l| - 1], maxBytes, len);
      assert l[..|l| - 1][..|r|] == l[..|r|];
      r
  }

  /**
   * What the eviction loop guarantees: an unset budget (0) keeps everything, a
   * positive budget is met, a negative one empties the list, and the loop stops
   * as soon as the budget holds (keeping one more entry would exceed it).
   */
  lemma {:induction false} TrimBudget<V>(l: seq<Entry<V>>, maxBytes: int, len: V -> nat)
    ensures maxBytes == 0 ==> Trim(l, maxBytes, len) == l
    ensures maxBytes > 0 ==> Size(Trim(l, maxBytes, len), len) <= maxBytes
    ensures maxBytes < 0 ==> Trim(l, maxBytes, len) == []
    ensures |Trim(l, maxBytes, len)| < |l| ==>
      maxBytes < Size(l[..|Trim(l, maxBytes, len)| + 1], len)
    decreases |l|
  {
    if !(maxBytes == 0 || Size(l, len) <= maxBytes || l == []) {
      var p := l[..|l| - 1];
      TrimBudget(p, maxBytes, len);
      var r := Trim(p, maxBytes, len);
      assert |r| < |p| ==> p[..|r| + 1] == l[..|r| + 1];
      assert l[..|l|] == l;
    }
  }

  /**
   * The entries the eviction loop removes from `l` when it stops with `kept`
   * entries left, in the order it removes them: the back (oldest) one first.
   */
  function Evicted<V>(l: seq<Entry<V>>, kept: nat): seq<Entry<V>>
    requires kept <= |l|
    decreases |l| - kept
  {
    if kept == |l| then [] else Evicted(l, kept + 1) + [l[kept]]
  }

  /**
   * One turn of the eviction loop on the first `k` entries of `l`: dropping
   * the back entry leaves the first `k - 1`, keeps what the loop will end
   * with, and logs that entry after the ones already evicted.
   */
  lemma EvictStep<V>(l: seq<Entry<V>>, k: nat, maxBytes: int, len: V -> nat)
    requires 0 < k <= |l| && maxBytes != 0 && maxBytes < Size(l[..k], len)
    ensures l[..k][..k - 1] == l[..k - 1] && l[..k][k - 1] == l[k - 1]
    ensures Trim(l[..k - 1], maxBytes, len) == Trim(l[..k], maxBytes, len)
    ensures Evicted(l, k - 1) == Evicted(l, k) + [l[k - 1]]
  {
    assert l[..k][..k - 1] == l[..k - 1];
  }

  // ---------------------------------------------------------------------------
  // Size accounting

  lemma {:induction false} SizeAppend<V>(a: seq<Entry<V>>, b: seq<Entry<V>>, len: V -> nat)
    ensures Size(a + b, len) == Size(a, len) + Size(b, len)
  {
    if a == [] {
      assert a + b == b;
    } else {
      assert (a + b)[1..] == a[1..] + b;
      SizeAppend(a[1..], b, len);
    }
  }

  /** Dropping the back element subtracts exactly that element's charge. */
  lemma SizeDropLast<V>(l: seq<Entry<V>>, len: V -> nat)
    requires l != []
    ensures Size(l, len) == Size(l[..|l| - 1], len) + EntrySize(l[|l| - 1], len)
  {
    assert l == l[..|l| - 1] + [l[|l| - 1]];
    SizeAppend(l[..|l| - 1], [l[|l| - 1]], len);
  }

  /** Charge of the list less `key`'s element, when `key` is on the list. */
  lemma {:induction false} SizeWithout<V>(l: seq<Entry<V>>, key: string, i: nat, len: V -> nat)
    requires i < |l| && l[i].key == key && DistinctKeys(l)
    ensures Size(Without(l, key), len) == Size(l, len) - EntrySize(l[i], len)
  {
    if l[0].key != key {
      SizeWithout(l[1..], key, i - 1, len);
    }
  }

  lemma {:induction false} WithoutAbsent<V>(l: seq<Entry<V>>, key: string)
    requires key !in KeySet(l)
    ensures Without(l, key) == l
  {
    if l != [] {
      KeySetCons(l);
      WithoutAbsent(l[1..], key);
    }
  }

  /** Unlinking `key`'s element keeps every other element and, in a list of distinct keys, drops `key`. */
  lemma {:induction false} WithoutMembers<V>(l: seq<Entry<V>>, key: string)
    requires DistinctKeys(l)
    ensures forall e | e in Without(l, key) :: e in l && e.key != key
    ensures forall e | e in l && e.key != key :: e in Without(l, key)
  {
    if l != [] {
      TailDistinct(l);
      WithoutMembers(l[1..], key);
      forall e ensures e in Without(l, key) <==> e in l && e.key != key {
        if e in l[1..] && l[0].key == key {
          var j :| 0 <= j < |l[1..]| && l[1..][j] == e;
          assert l[j + 1] == e;
        }
        if e in l && e != l[0] {
          var j :| 0 <= j < |l| && l[j] == e;
          assert l[1..][j - 1] == e;
        }
      }
    }
  }

  lemma WithoutKeys<V>(l: seq<Entry<V>>, key: string)
    requires DistinctKeys(l)
    ensures KeySet(Without(l, key)) == KeySet(l) - {key}
  {
    WithoutMembers(l, key);
    var w := Without(l, key);
    forall k | k in KeySet(l) - {key} ensures k in KeySet(w) {
      var e :| e in l && e.key == k;
      assert e in w;
    }
    forall k | k in KeySet(w) ensures k in KeySet(l) - {key} {
      var e :| e in w && e.key == k;
      assert e in l;
    }
  }

  lemma {:induction false} WithoutDistinct<V>(l: seq<Entry<V>>, key: string)
    requires DistinctKeys(l)
    ensures DistinctKeys(Without(l, key))
  {
    if l != [] {
      var t := l[1..];
      TailDistinct(l);
      WithoutDistinct(t, key);
      if l[0].key != key {
        var w := Without(t, key);
        WithoutMembers(t, key);
        forall e | e in w ensures e.key != l[0].key {
          assert e in t;
        }
        ConsDistinct(l[0], w);
      }
    }
  }

  /** Putting an entry in front of a list of distinct keys that lacks its key keeps the keys distinct. */
  lemma ConsDistinct<V>(e: Entry<V>, w: seq<Entry<V>>)
    requires DistinctKeys(w) && forall d | d in w :: d.key != e.key
    ensures DistinctKeys([e] + w)
  {
    var r := [e] + w;
    forall i, j | 0 <= i < j < |r| ensures r[i].key != r[j].key {
      assert r[j] == w[j - 1] && w[j - 1] in w;
      if i > 0 { assert r[i] == w[i - 1]; }
    }
  }

  /** The tail of a list of distinct keys has distinct keys, none of them the head's. */
  lemma TailDistinct<V>(l: seq<Entry<V>>)
    requires DistinctKeys(l) && l != []
    ensures DistinctKeys(l[1..])
    ensures l[0].key !in KeySet(l[1..])
  {
    var t := l[1..];
    forall i, j | 0 <= i < j < |t| ensures t[i].key != t[j].key {
      assert t[i] == l[i + 1] && t[j] == l[j + 1];
    }
    forall e | e in t ensures e.key != l[0].key {
      var j :| 0 <= j < |t| && t[j] == e;
      assert l[j + 1] == e;
    }
  }

  /** The keys of a non-empty list: the head's and the tail's. */
  lemma KeySetCons<V>(l: seq<Entry<V>>)
    requires l != []
    ensures KeySet(l) == {l[0].key} + KeySet(l[1..])
  {
    var t := l[1..];
    forall k | k in KeySet(l) ensures k == l[0].key || k in KeySet(t) {
      var e :| e in l && e.key == k;
      var j :| 0 <= j < |l| && l[j] == e;
      if j > 0 { assert t[j - 1] == e; }
    }
    forall k | k in KeySet(t) ensures k in KeySet(l) {
      var e :| e in t && e.key == k;
      var j :| 0 <= j < |t| && t[j] == e;
      assert l[j + 1] == e;
    }
  }

  lemma {:induction false} KeySetSize<V>(l: seq<Entry<V>>)
    requires DistinctKeys(l)
    ensures |KeySet(l)| == |l|
  {
    if l != [] {
      TailDistinct(l);
      KeySetSize(l[1..]);
      KeySetCons(l);
    }
  }

  /**
   * `Add` of a key already present: the keys stay the same and the charge
   * changes by exactly the difference of the value lengths (the key is not
   * charged again).
   */
  lemma AdmitExisting<V>(l: seq<Entry<V>>, key: string, i: nat, value: V, len: V -> nat)
    requires DistinctKeys(l) && i < |l| && l[i].key == key
    ensures DistinctKeys(Admit(l, key, value))
    ensures KeySet(Admit(l, key, value)) == KeySet(l)
    ensures Size(Admit(l, key, value), len) == Size(l, len) + len(value) - len(l[i].value)
  {
    AdmitDistinct(l, key, value);
    WithoutKeys(l, key);
    SizeWithout(l, key, i, len);
    var a := Admit(l, key, value);
    assert a[1..] == Without(l, key);
    KeySetCons(a);
    assert l[i] in l;
  }

  /** Putting `key` at the front of the list with its old element unlinked keeps the keys distinct. */
  lemma AdmitDistinct<V>(l: seq<Entry<V>>, key: string, value: V)
    requires DistinctKeys(l)
    ensures DistinctKeys(Admit(l, key, value))
  {
    WithoutDistinct(l, key);
    WithoutMembers(l, key);
    var a := Admit(l, key, value);
    assert a[1..] == Without(l, key);
    forall j | 0 < j < |a| ensures a[j].key != key {
      assert a[j] in Without(l, key);
    }
  }

  /** `Add` of a new key: it is pushed at the front and charged `len(key) + Length()`. */
  lemma AdmitNew<V>(l: seq<Entry<V>>, key: string, value: V, len: V -> nat)
    requires DistinctKeys(l) && key !in KeySet(l)
    ensures Admit(l, key, value) == [Entry(key, value)] + l
    ensures DistinctKeys(Admit(l, key, value))
    ensures KeySet(Admit(l, key, value)) == KeySet(l) + {key}
    ensures Size(Admit(l, key, value), len) == Size(l, len) + |key| + len(value)
  {
    WithoutAbsent(l, key);
    var a := [Entry(key, value)] + l;
    assert a[1..] == l;
    ConsDistinct(Entry(key, value), l);
    KeySetCons(a);
  }

  /** Dropping the back element: what remains is every other element, and its key is gone. */
  lemma DropLast<V>(l: seq<Entry<V>>, len: V -> nat)
    requires DistinctKeys(l) && l != []
    ensures DistinctKeys(l[..|l| - 1])
    ensures KeySet(l[..|l| - 1]) == KeySet(l) - {l[|l| - 1].key}
    ensures forall e | e in l[..|l| - 1] :: e in l && e.key != l[|l| - 1].key
    ensures Size(l, len) == Size(l[..|l| - 1], len) + EntrySize(l[|l| - 1], len)
  {
    SizeDropLast(l, len);
    DropLastMembers(l);
    DropLastKeys(l);
  }

  lemma DropLastMembers<V>(l: seq<Entry<V>>)
    requires DistinctKeys(l) && l != []
    ensures forall e | e in l[..|l| - 1] :: e in l && e.key != l[|l| - 1].key
  {
    var p := l[..|l| - 1];
    forall e | e in p ensures e in l && e.key != l[|l| - 1].key {
      var j :| 0 <= j < |p| && p[j] == e;
      assert l[j] == e;
    }
  }

  lemma DropLastKeys<V>(l: seq<Entry<V>>)
    requires DistinctKeys(l) && l != []
    ensures KeySet(l[..|l| - 1]) == KeySet(l) - {l[|l| - 1].key}
  {
    var p := l[..|l| - 1];
    DropLastMembers(l);
    forall k | k in KeySet(l) - {l[|l| - 1].key} ensures k in KeySet(p) {
      var e :| e in l && e.key == k;
      var j :| 0 <= j < |l| && l[j] == e;
      assert p[j] == e;
    }
  }

  /** Where `key` sits on a list of distinct keys whose map holds it, with the value the map gives. */
  lemma IndexOf<V>(l: seq<Entry<V>>, key: string) returns (i: nat)
    requires DistinctKeys(l) && key in MapOf(l)
    ensures i < |l| && l[i].key == key && l[i].value == MapOf(l)[key]
  {
    MapOfKeys(l);
    var e :| e in l && e.key == key;
    i :| i < |l| && l[i] == e;
    MapOfAt(l, i);
  }

  lemma {:induction false} MapOfKeys<V>(l: seq<Entry<V>>)
    ensures MapOf(l).Keys == KeySet(l)
  {
    if l != [] {
      MapOfKeys(l[1..]);
      forall k | k in KeySet(l) ensures k in MapOf(l) {
        var e :| e in l && e.key == k;
        var j :| 0 <= j < |l| && l[j] == e;
        if j > 0 { assert l[1..][j - 1] == e; }
      }
      forall k | k in MapOf(l) ensures k in KeySet(l) {
        if k != l[0].key {
          var e :| e in l[1..] && e.key == k;
          var j :| 0 <= j < |l[1..]| && l[1..][j] == e;
          assert l[j + 1] == e;
        } else {
          assert l[0] in l;
        }
      }
    }
  }

  /** In a list of distinct keys, the map sends every element's key to that element's value. */
  lemma {:induction false} MapOfAt<V>(l: seq<Entry<V>>, i: nat)
    requires DistinctKeys(l) && i < |l|
    ensures l[i].key in MapOf(l) && MapOf(l)[l[i].key] == l[i].value
  {
    if i > 0 {
      var t := l[1..];
      assert DistinctKeys(t) by {
        forall a, b | 0 <= a < b < |t| ensures t[a].key != t[b].key {
          assert t[a] == l[a + 1] && t[b] == l[b + 1];
        }
      }
      assert t[i - 1] == l[i];
      MapOfAt(t, i - 1);
    }
  }

  lemma {:induction false} MapOfWithout<V>(l: seq<Entry<V>>, key: string)
    requires DistinctKeys(l)
    ensures MapOf(Without(l, key)) == MapOf(l) - {key}
  {
    if l != [] {
      var t := l[1..];
      TailDistinct(l);
      MapOfWithout(t, key);
      if l[0].key == key {
        MapOfKeys(t);
        RemoveFresh(MapOf(t), key, l[0].value);
      } else {
        assert Without(l, key)[1..] == Without(t, key);
        UpdateRemoveCommute(MapOf(t), l[0].key, l[0].value, key);
      }
    }
  }

  lemma RemoveFresh<V>(m: map<string, V>, key: string, v: V)
    requires key !in m
    ensures m[key := v] - {key} == m
  {
  }

  lemma UpdateRemoveCommute<V>(m: map<string, V>, k: string, v: V, key: string)
    requires k != key
    ensures (m - {key})[k := v] == m[k := v] - {key}
  {
  }

  lemma {:induction false} MapOfDropLast<V>(l: seq<Entry<V>>)
    requires DistinctKeys(l) && l != []
    ensures MapOf(l[..|l| - 1]) == MapOf(l) - {l[|l| - 1].key}
  {
    if |l| == 1 {
      assert l[..0] == [];
    } else {
      var t := l[1..];
      assert DistinctKeys(t) by {
        forall a, b | 0 <= a < b < |t| ensures t[a].key != t[b].key {
          assert t[a] == l[a + 1] && t[b] == l[b + 1];
        }
      }
      MapOfDropLast(t);
      assert l[..|l| - 1][1..] == t[..|t| - 1];
      assert t[|t| - 1] == l[|l| - 1];
      assert l[0].key != l[|l| - 1].key;
    }
  }

  /**
   * An entry that fits the budget on its own survives its own `Add`: it is at
   * the front of what the eviction loop keeps.
   */
  lemma AdmittedEntrySurvives<V>(l: seq<Entry<V>>, key: string, value: V, maxBytes: int, len: V -> nat)
    requires maxBytes == 0 || |key| + len(value) <= maxBytes
    ensures |Trim(Admit(l, key, value), maxBytes, len)| > 0
    ensures Trim(Admit(l, key, value), maxBytes, len)[0] == Entry(key, value)
  {
    var a := Admit(l, key, value);
    TrimBudget(a, maxBytes, len);
    assert a[..1] == [Entry(key, value)];
    assert Size(a[..1], len) == |key| + len(value);
  }

  /** An entry that fits the budget on its own can be read back from the map after its own `Add`. */
  lemma AdmittedEntryStored<V>(l: seq<Entry<V>>, key: string, value: V, maxBytes: int, len: V -> nat)
    ensures maxBytes == 0 || |key| + len(value) <= maxBytes ==>
      key in MapOf(Trim(Admit(l, key, value), maxBytes, len)) &&
      MapOf(Trim(Admit(l, key, value), maxBytes, len))[key] == value
  {
    if maxBytes == 0 || |key| + len(value) <= maxBytes {
      AdmittedEntrySurvives(l, key, value, maxBytes, len);
      var r := Trim(Admit(l, key, value), maxBytes, len);
      assert MapOf(r) == MapOf(r[1..])[r[0].key := r[0].value];
    }
  }

  /**
   * An entry larger than the whole budget empties the cache: it is evicted
   * together with everything older (no panic, since the budget is positive).
   */
  lemma OversizedEntryEmptiesCache<V>(l: seq<Entry<V>>, key: string, value: V, maxBytes: int, len: V -> nat)
    requires 0 < maxBytes < |key| + len(value)
    ensures Trim(Admit(l, key, value), maxBytes, len) == []
  {
    var a := Admit(l, key, value);
    TrimBudget(a, maxBytes, len);
  }

  /**
   * The store. Field names follow the Go struct; `evicted` records, in order,
   * the calls made to the `OnEvicted` callback, and `released` is true once
   * `Clear` has dropped the list and the map.
   *
   * In the Go source `RemoveOldest` and `Add` have value receivers, so their
   * updates of `nBytes` land on a copy and are lost (see the findings in the
   * README). This class deliberately models the pointer-receiver behaviour the
   * tests expect: `nBytes` is one persistent field.
   */
  class Cache<V> {
    var list: seq<Entry<V>>
    var cache: map<string, V>
    var nBytes: int
    const maxBytes: int
    const valueLength: V -> nat
    const hasOnEvicted: bool
    var evicted: seq<Entry<V>>
    var released: bool

    /** The counter matches the contents, and the map indexes exactly the list's elements. */
    ghost predicate Valid()
      reads this
    {
      && (released ==> list == [] && cache == map[])
      && (!released ==>
            && nBytes == Size(list, valueLength)
            && DistinctKeys(list)
            && cache == MapOf(list))
    }

    /** `New`: an empty store with the given budget and callback. */
    constructor (maxBytes: int, valueLength: V -> nat, hasOnEvicted: bool)
      ensures Valid() && !released
      ensures list == [] && cache == map[] && nBytes == 0 && evicted == []
      ensures this.maxBytes == maxBytes && this.valueLength == valueLength
      ensures this.hasOnEvicted == hasOnEvicted
    {
      list := [];
      cache := map[];
      nBytes := 0;
      this.maxBytes := maxBytes;
      this.valueLength := valueLength;
      this.hasOnEvicted := hasOnEvicted;
      evicted := [];
      released := false;
    }

    /** Number of entries on the list, which is also the number of keys in the map. */
    function Length(): (n: nat)
      reads this
      requires Valid() && !released
      ensures n == |cache| && n == |list|
    {
      KeySetSize(list);
      MapOfKeys(list);
      |list|
    }

    /** A hit returns the stored value and moves its entry to the front; a miss changes nothing. */
    method Get(key: string) returns (r: Option<V>)
      requires Valid()
      modifies this
      ensures Valid() && released == old(released)
      ensures r == if key in old(cache) then Some(old(cache)[key]) else None
      ensures list == if key in old(cache) then Admit(old(list), key, old(cache)[key]) else old(list)
      ensures cache == old(cache) && nBytes == old(nBytes) && evicted == old(evicted)
    {
      if key in cache {
        var v := cache[key];
        ghost var i := IndexOf(list, key);
        AdmitExisting(list, key, i, v, valueLength);
        MapOfWithout(list, key);
        list := Admit(list, key, v);
        r := Some(v);
      } else {
        r := None;
      }
    }

    /** Unlink the back (least recently used) entry, if any, and report it to the callback. */
    method RemoveOldest()
      requires Valid() && !released
      modifies this
      ensures Valid() && !released
      ensures list == if old(list) == [] then [] else old(list)[..|old(list)| - 1]
      ensures evicted == old(evicted) +
        if hasOnEvicted && old(list) != [] then [old(list)[|old(list)| - 1]] else []
      ensures old(list) != [] ==>
        nBytes == old(nBytes) - EntrySize(old(list)[|old(list)| - 1], valueLength)
    {
      if |list| > 0 {
        var kv := list[|list| - 1];
        DropLast(list, valueLength);
        MapOfDropLast(list);
        list := list[..|list| - 1];
        cache := cache - {kv.key};
        nBytes := nBytes - (|kv.key| + valueLength(kv.value));
        if hasOnEvicted {
          evicted := evicted + [kv];
        }
      }
    }

    /**
     * Insert or overwrite `key`, then evict from the back while over budget.
     * The Go code panics when the list is empty and the budget is still
     * exceeded; with the counter equal to the contents this happens exactly
     * when the budget is negative.
     */
    method Add(key: string, value: V) returns (panicked: bool)
      requires Valid() && !released
      modifies this
      ensures Valid() && !released
      ensures list == Trim(Admit(old(list), key, value), maxBytes, valueLength)
      ensures evicted == old(evicted) +
        if hasOnEvicted then Evicted(Admit(old(list), key, value), |list|) else []
      ensures panicked <==> maxBytes < 0
      ensures maxBytes > 0 ==> nBytes <= maxBytes
    {
      ghost var admitted := Admit(list, key, value);
      if key in cache {
        var prev := cache[key];
        assert && DistinctKeys(admitted)
               && Size(admitted, valueLength) == nBytes + valueLength(value) - valueLength(prev)
               && MapOf(admitted) == cache[key := value]
        by {
          ghost var i := IndexOf(list, key);
          AdmitExisting(list, key, i, value, valueLength);
          MapOfWithout(list, key);
          assert admitted[1..] == Without(list, key);
        }
        list := Admit(list, key, value);
        cache := cache[key := value];
        nBytes := nBytes + valueLength(value) - valueLength(prev);
      } else {
        assert && admitted == [Entry(key, value)] + list
               && DistinctKeys(admitted)
               && Size(admitted, valueLength) == nBytes + |key| + valueLength(value)
        by {
          MapOfKeys(list);
          AdmitNew(list, key, value, valueLength);
        }
        list := [Entry(key, value)] + list;
        cache := cache[key := value];
        nBytes := nBytes + |key| + valueLength(value);
        assert admitted[1..] == old(list);
      }
      panicked := EvictOverflow();
    }

    /**
     * The eviction loop at the end of `Add`: drop the back entry while the
     * budget is set and exceeded; panic if the list runs empty first.
     */
    method EvictOverflow() returns (panicked: bool)
      requires Valid() && !released
      modifies this
      ensures Valid() && !released
      ensures list == Trim(old(list), maxBytes, valueLength)
      ensures evicted == old(evicted) + if hasOnEvicted then Evicted(old(list), |list|) else []
      ensures panicked <==> maxBytes < 0
      ensures maxBytes > 0 ==> nBytes <= maxBytes
    {
      panicked := false;
      ghost var k := |list|;
      while maxBytes != 0 && maxBytes < nBytes && !panicked
        invariant Valid() && !released
        invariant k == |list| && k <= |old(list)| && list == old(list)[..k]
        invariant Trim(old(list)[..k], maxBytes, valueLength) == Trim(old(list), maxBytes, valueLength)
        invariant evicted == old(evicted) + if hasOnEvicted then Evicted(old(list), k) else []
        invariant panicked ==> list == [] && maxBytes < 0
        decreases k + if panicked then 0 else 1
      {
        if Length() == 0 {
          panicked := true;
        } else {
          EvictStep(old(list), k, maxBytes, valueLength);
          ghost var before := evicted;
          RemoveOldest();
          k := k - 1;
          if hasOnEvicted {
            assert evicted == before + [old(list)[k]];
            assert evicted == old(evicted) + Evicted(old(list), k);
          }
        }
      }
      assert old(list)[..|old(list)|] == old(list);
      TrimBudget(old(list), maxBytes, valueLength);
    }

    /**
     * Report every remaining entry to the callback, then drop the list and
     * the map. The Go code walks its map, in an order the language leaves
     * unspecified; the model walks the list from the front. `nBytes` is left
     * as it was, as in the Go code.
     */
    method Clear()
      modifies this
      ensures Valid() && released
      ensures list == [] && cache == map[] && nBytes == old(nBytes)
      ensures evicted == old(evicted) + if hasOnEvicted then old(list) else []
    {
      if hasOnEvicted {
        var calls: seq<Entry<V>> := [];
        var i := 0;
        while i < |list|
          invariant 0 <= i <= |list|
          invariant calls == list[..i]
        {
          calls := calls + [list[i]];
          i := i + 1;
        }
        assert calls == list;
        evicted := evicted + calls;
      }
      list := [];
      cache := map[];
      released := true;
    }
  }

  // ---------------------------------------------------------------------------
  // `Add` as the Go code is written (value receivers)

  /**
   * `Add` exactly as written in Go. `Add` and `RemoveOldest` take the struct by
   * value, so every update of `nBytes` lands on a copy: the stored counter
   * stays at the 0 that `New` set, `Add`'s copy starts from it and only gains
   * this call's delta, and the copies `RemoveOldest` works on never lower it.
   * The list and the map are shared, so their updates do take effect. Result:
   * the list left and whether the eviction loop reached its panic.
   */
  function AddAsWritten<V>(l: seq<Entry<V>>, maxBytes: int, len: V -> nat, key: string, value: V)
    : (r: (seq<Entry<V>>, bool))
    ensures r.1 ==> maxBytes != 0 && r.0 == []
    ensures !r.1 ==> r.0 == Admit(l, key, value)
    ensures key !in MapOf(l) ==> (r.1 <==> maxBytes != 0 && maxBytes < EntrySize(Entry(key, value), len))
  {
    var delta := if key in MapOf(l) then len(value) - len(MapOf(l)[key]) else |key| + len(value);
    if maxBytes != 0 && maxBytes < delta then ([], true)
    else (Admit(l, key, value), false)
  }

  /**
   * As written, an `Add` that does not panic evicts nothing: the new entry is
   * at the front and every other entry of the list is still on it, however
   * far past the budget the list has grown.
   */
  lemma AsWrittenEvictsNothing<V>(l: seq<Entry<V>>, maxBytes: int, len: V -> nat, key: string, value: V)
    requires DistinctKeys(l)
    ensures !AddAsWritten(l, maxBytes, len, key, value).1 ==>
      && AddAsWritten(l, maxBytes, len, key, value).0[0] == Entry(key, value)
      && forall e | e in l && e.key != key :: e in AddAsWritten(l, maxBytes, len, key, value).0
  {
    WithoutMembers(l, key);
  }

  function StringLength(s: string): nat {
    |s|
  }

  /**
   * The oldest-eviction scenario of the LRU tests: a budget exactly large
   * enough for ("key1", "value1") and ("key2", "value2"), then ("k3", "v3").
   * As written, nothing is evicted and all three entries remain, key1 included.
   */
  lemma AsWrittenKeepsOldest()
    ensures var l1 := AddAsWritten([], 20, StringLength, "key1", "value1").0;
            var l2 := AddAsWritten(l1, 20, StringLength, "key2", "value2").0;
            var l3 := AddAsWritten(l2, 20, StringLength, "k3", "v3");
            !l3.1 && |l3.0| == 3 && l3.0[2].key == "key1"
  {
    var l1 := AddAsWritten([], 20, StringLength, "key1", "value1").0;
    assert l1 == [Entry("key1", "value1")];
    var l2 := AddAsWritten(l1, 20, StringLength, "key2", "value2").0;
    assert "key2" !in MapOf(l1);
    assert Without(l1, "key2") == l1;
    assert l2 == [Entry("key2", "value2"), Entry("key1", "value1")];
    assert "k3" !in MapOf(l2);
    assert Without(l2, "k3") == l2 by {
      assert Without(l2[1..], "k3") == l2[1..];
    }
  }

  /**
   * The overwrite scenario of the LRU tests: with a budget of 10, adding
   * ("key", "1") and then ("key", "111") leaves one entry charged 6 bytes,
   * the key once plus the new value.
   */
  lemma OverwriteChargesNewValue()
    ensures var l1 := Trim(Admit([], "key", "1"), 10, StringLength);
            var l2 := Trim(Admit(l1, "key", "111"), 10, StringLength);
            l2 == [Entry("key", "111")] && Size(l2, StringLength) == 6
  {
    var l1 := Trim(Admit([], "key", "1"), 10, StringLength);
    assert Size([Entry("key", "1")], StringLength) == 4;
    assert l1 == [Entry("key", "1")];
    assert Without(l1, "key") == [];
    assert Size([Entry("key", "111")], StringLength) == 6;
  }

  /** The same scenario with the counter kept: key1, the oldest, is the one evicted. */
  lemma CorrectedEvictsOldest()
    ensures var l1 := Trim(Admit([], "key1", "value1"), 20, StringLength);
            var l2 := Trim(Admit(l1, "key2", "value2"), 20, StringLength);
            var l3 := Trim(Admit(l2, "k3", "v3"), 20, StringLength);
            l3 == [Entry("k3", "v3"), Entry("key2", "value2")]
  {
    var e1, e2, e3 := Entry("key1", "value1"), Entry("key2", "value2"), Entry("k3", "v3");
    var l1 := Trim(Admit([], "key1", "value1"), 20, StringLength);
    assert Size([e1], StringLength) == 10;
    assert l1 == [e1];
    var a2 := Admit(l1, "key2", "value2");
    assert a2 == [e2, e1];
    assert Size(a2, StringLength) == 20;
    var l2 := Trim(a2, 20, StringLength);
    assert l2 == [e2, e1];
    var a3 := Admit(l2, "k3", "v3");
    assert Without(l2, "k3") == l2 by {
      assert Without(l2[1..], "k3") == l2[1..];
    }
    assert a3 == [e3, e2, e1];
    assert Size(a3, StringLength) == 24;
    assert a3[..2] == [e3, e2];
    assert Size([e3, e2], StringLength) == 14;
  }
}
