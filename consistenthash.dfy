/**
 * The consistent-hash ring used to pick the peer that owns a key
 * (ppcache/consistenthash/consistenthash.go). Each real node is placed at
 * `replicas` virtual positions `hash(itoa(i) + node)`, the positions are kept
 * sorted, and a key belongs to the node at the first position clockwise from
 * the key's hash.
 *
 * The atomic snapshot and the mutex only matter to concurrent readers and are
 * not modelled: the ring is a plain object whose fields the methods update.
 */
module ConsistentHash {

  import opened Wrappers
  import opened ByteViews
  import Utf8

  newtype uint32 = x: int | 0 <= x < 0x1_0000_0000

  /** The pluggable hash: bytes of a string to an unsigned 32-bit value. */
  type Hash = string -> uint32

  /** Go's `strconv.Itoa` for non-negative values. */
  function Itoa(i: nat): string
  {
    if i < 10 then [Digit(i)] else Itoa(i / 10) + [Digit(i % 10)]
  }

  function Digit(d: nat): char
    requires d < 10
  {
    "0123456789"[d]
  }

  /**
   * The default hash, `crc32.ChecksumIEEE([]byte(s))`: the checksum of the
   * UTF-8 bytes of the string.
   */
  function Crc32(s: string): uint32
  {
    Crc32Bytes(Utf8.Encode(s))
  }

  /**
   * `crc32.ChecksumIEEE` of a byte string: CRC-32 with the reflected IEEE
   * 802.3 polynomial 0xEDB88320, initial value and final mask all ones,
   * computed bit by bit.
   */
  function Crc32Bytes(b: seq<byte>): uint32
  {
    (CrcUpdate(0xFFFF_FFFF, b) ^ 0xFFFF_FFFF) as int as uint32
  }

  function CrcUpdate(crc: bv32, b: seq<byte>): bv32
    decreases |b|
  {
    if b == [] then crc
    else CrcUpdate(CrcByte(crc ^ (b[0] as int as bv32)), b[1..])
  }

  /** Eight shifts of the register, one per bit of the byte just folded in. */
  function CrcByte(c: bv32): bv32
  {
    CrcBit(CrcBit(CrcBit(CrcBit(CrcBit(CrcBit(CrcBit(CrcBit(c))))))))
  }

  /** One shift: the low bit leaves the register and, when it was set, the polynomial is folded in. */
  function CrcBit(c: bv32): bv32
  {
    if c & 1 == 1 then (c >> 1) ^ 0xEDB8_8320 else c >> 1
  }

  /**
   * Check values of `crc32.ChecksumIEEE`: the empty string hashes to 0 and
   * "a" to 0xE8B7BE43.
   */
  lemma Crc32KnownAnswers()
    ensures Crc32("") == 0
    ensures Crc32("a") == 0xE8B7_BE43
  {
    var a: seq<byte> := [0x61];
    assert Utf8.Encode("a") == a;
    assert a[0] as int as bv32 == 0x61 && a[1..] == [];
    assert CrcByte(0xFFFF_FF9E) == 0x1748_41BC;
    assert CrcUpdate(0xFFFF_FFFF, a) == 0x1748_41BC;
  }

  /**
   * A character outside ASCII is hashed through its UTF-8 bytes: "é"
   * (U+00E9) is checksummed as the two bytes C3 A9, not as the one byte E9.
   */
  lemma Crc32HashesUtf8()
    ensures Utf8.Encode("é") == [0xC3, 0xA9]
    ensures Crc32("é") == Crc32Bytes(Utf8.Encode("é"))
  {
    assert Utf8.Encode("é") == [0xC3, 0xA9];
  }

  /** A string of ASCII characters is checksummed as its characters' codes. */
  lemma Crc32OfAscii(s: string)
    requires forall i :: 0 <= i < |s| ==> s[i] as int < 0x80
    ensures Crc32(s) == Crc32Bytes(seq(|s|, i requires 0 <= i < |s| => s[i] as int as byte))
  {
    Utf8.EncodeAscii(s);
  }

  /** How many virtual positions a node gets: the `for i := 0; i < replicas` loop runs this often. */
  function Count(replicas: int): nat
  {
    if replicas < 0 then 0 else replicas
  }

  /** The virtual positions of `node`, in the order `Add` computes them. */
  function VirtualKeys(hash: Hash, replicas: int, node: string): seq<int>
  {
    seq(Count(replicas), i requires 0 <= i => hash(Itoa(i) + node) as int)
  }

  /** All positions `Add(nodes...)` appends, node by node. */
  function Positions(hash: Hash, replicas: int, nodes: seq<string>): seq<int>
  {
    if nodes == [] then []
    else Positions(hash, replicas, nodes[..|nodes| - 1]) + VirtualKeys(hash, replicas, nodes[|nodes| - 1])
  }

  /** The position-to-node map after writing the first `count` virtual positions of `node`. */
  function AssignNode(m: map<int, string>, hash: Hash, node: string, count: nat): map<int, string>
  {
    if count == 0 then m
    else AssignNode(m, hash, node, count - 1)[hash(Itoa(count - 1) + node) as int := node]
  }

  /** The position-to-node map after `Add(nodes...)`; a later write to a position wins. */
  function Assign(m: map<int, string>, hash: Hash, replicas: int, nodes: seq<string>): map<int, string>
  {
    if nodes == [] then m
    else AssignNode(Assign(m, hash, replicas, nodes[..|nodes| - 1]), hash, nodes[|nodes| - 1], Count(replicas))
  }

  ghost predicate Sorted(s: seq<int>)
  {
    forall i, j :: 0 <= i < j < |s| ==> s[i] <= s[j]
  }

  /** Insert `x` into a sorted sequence. */
  function Insert(s: seq<int>, x: int): (r: seq<int>)
    requires Sorted(s)
    ensures Sorted(r) && multiset(r) == multiset(s) + multiset{x}
  {
    if s == [] || x <= s[0] then [x] + s
    else
      var t := Insert(s[1..], x);
      InsertBehindHead(s, x, t);
      [s[0]] + t
  }

  /** Putting the head of `s` in front of `s`'s tail with `x` inserted keeps the order. */
  lemma InsertBehindHead(s: seq<int>, x: int, t: seq<int>)
    requires Sorted(s) && s != [] && s[0] < x
    requires Sorted(t) && multiset(t) == multiset(s[1..]) + multiset{x}
    ensures Sorted([s[0]] + t) && multiset([s[0]] + t) == multiset(s) + multiset{x}
  {
    assert s == [s[0]] + s[1..];
    forall k | 0 <= k < |t| ensures s[0] <= t[k] {
      var y := t[k];
      assert y in multiset(t);
      assert y == x || y in multiset(s[1..]);
      if y != x {
        var j :| 0 <= j < |s[1..]| && s[1..][j] == y;
        assert s[j + 1] == y;
      }
    }
  }

  /** `sort.Ints`: the same numbers in ascending order. */
  function SortInts(s: seq<int>): (r: seq<int>)
    ensures Sorted(r) && multiset(r) == multiset(s)
  {
    if s == [] then []
    else
      assert s == s[..|s| - 1] + [s[|s| - 1]];
      Insert(SortInts(s[..|s| - 1]), s[|s| - 1])
  }

  /** The first index whose position is at least `h`, or `|s|` when there is none. */
  function FirstAtLeast(s: seq<int>, h: int): (i: nat)
    ensures i <= |s|
    ensures forall j :: 0 <= j < i ==> s[j] < h
    ensures i < |s| ==> s[i] >= h
  {
    if s == [] || s[0] >= h then 0 else 1 + FirstAtLeast(s[1..], h)
  }

  /** `sort.Search` over a sorted sequence with the test `s[i] >= h`: a binary search. */
  method Search(s: seq<int>, h: int) returns (idx: nat)
    requires Sorted(s)
    ensures idx == FirstAtLeast(s, h)
  {
    var lo, hi := 0, |s|;
    while lo < hi
      invariant 0 <= lo <= hi <= |s|
      invariant forall j :: 0 <= j < lo ==> s[j] < h
      invariant forall j :: hi <= j < |s| ==> s[j] >= h
    {
      var mid := lo + (hi - lo) / 2;
      if s[mid] >= h {
        hi := mid;
      } else {
        lo := mid + 1;
      }
    }
    idx := lo;
    FirstAtLeastUnique(s, h, idx);
  }

  /** Any index with only smaller positions before it and a large-enough one at it is the first. */
  lemma FirstAtLeastUnique(s: seq<int>, h: int, i: nat)
    requires i <= |s|
    requires forall j :: 0 <= j < i ==> s[j] < h
    requires i < |s| ==> s[i] >= h
    ensures i == FirstAtLeast(s, h)
  {
  }

  /** A position that is on the sorted ring is found by the search, at its first occurrence. */
  lemma FoundWhenPresent(s: seq<int>, h: int)
    requires Sorted(s) && h in s
    ensures FirstAtLeast(s, h) < |s| && s[FirstAtLeast(s, h)] == h
  {
    var k :| 0 <= k < |s| && s[k] == h;
  }

  /** The node mapped at a position, or "" when the position has no entry (Go's zero value). */
  function Lookup(m: map<int, string>, p: int): string
  {
    if p in m then m[p] else ""
  }

  lemma ModSmall(i: nat, n: nat)
    requires i < n
    ensures i % n == i
  {
  }

  lemma ModSelf(n: nat)
    requires n > 0
    ensures n % n == 0
  {
  }

  /**
   * The ring rule, first half: on a sorted ring with some position at or
   * after `h`, the position chosen for `h` is the smallest such position.
   */
  lemma {:induction false} ClockwiseSuccessor(s: seq<int>, h: int)
    requires Sorted(s) && s != [] && h <= s[|s| - 1]
    ensures FirstAtLeast(s, h) < |s| && FirstAtLeast(s, h) % |s| == FirstAtLeast(s, h)
    ensures s[FirstAtLeast(s, h)] >= h
    ensures forall q | q in s && q >= h :: s[FirstAtLeast(s, h)] <= q
  {
    var i := FirstAtLeast(s, h);
    assert i < |s|;
    ModSmall(i, |s|);
    forall q | q in s && q >= h ensures s[i] <= q {
      var k :| 0 <= k < |s| && s[k] == q;
      assert i <= k;
    }
  }

  /**
   * The ring rule, second half: when every position is below `h`, the choice
   * wraps around to the first, smallest, position.
   */
  lemma {:induction false} WrapAround(s: seq<int>, h: int)
    requires Sorted(s) && s != [] && s[|s| - 1] < h
    ensures FirstAtLeast(s, h) == |s| && FirstAtLeast(s, h) % |s| == 0
    ensures forall q | q in s :: s[0] <= q
  {
    var i := FirstAtLeast(s, h);
    assert i == |s|;
    ModSelf(i);
    forall q | q in s ensures s[0] <= q {
      var k :| 0 <= k < |s| && s[k] == q;
      assert 0 == k || 0 < k;
    }
  }

  /** `Add(nodes...)` writes a mapping for each of its positions, naming one of the added nodes. */
  lemma {:induction false} AssignCovers(m: map<int, string>, hash: Hash, replicas: int, nodes: seq<string>)
    ensures forall p | p in Positions(hash, replicas, nodes) ::
      p in Assign(m, hash, replicas, nodes) && Assign(m, hash, replicas, nodes)[p] in nodes
  {
    if nodes != [] {
      var init := nodes[..|nodes| - 1];
      var last := nodes[|nodes| - 1];
      AssignCovers(m, hash, replicas, init);
      var before := Assign(m, hash, replicas, init);
      forall p | p in Positions(hash, replicas, nodes)
        ensures p in Assign(m, hash, replicas, nodes) && Assign(m, hash, replicas, nodes)[p] in nodes
      {
        var vk := VirtualKeys(hash, replicas, last);
        if p in vk {
          var i :| 0 <= i < |vk| && vk[i] == p;
          AssignNodeSets(before, hash, last, Count(replicas), i);
        } else {
          assert p in Positions(hash, replicas, init);
          AssignNodeKeeps(before, hash, last, Count(replicas), p);
          assert before[p] in init;
          var j :| 0 <= j < |init| && init[j] == before[p];
          assert nodes[j] == before[p];
        }
      }
    }
  }

  /** Writing a node's positions maps each of them to that node. */
  lemma {:induction false} AssignNodeSets(m: map<int, string>, hash: Hash, node: string, count: nat, i: nat)
    requires i < count
    ensures hash(Itoa(i) + node) as int in AssignNode(m, hash, node, count)
    ensures AssignNode(m, hash, node, count)[hash(Itoa(i) + node) as int] == node
  {
    if i < count - 1 {
      AssignNodeSets(m, hash, node, count - 1, i);
    }
  }

  /** Writing a node's positions leaves every other mapping as it was, or maps it to that node. */
  lemma {:induction false} AssignNodeKeeps(m: map<int, string>, hash: Hash, node: string, count: nat, p: int)
    requires p in m
    ensures p in AssignNode(m, hash, node, count)
    ensures AssignNode(m, hash, node, count)[p] in {m[p], node}
  {
    if count > 0 {
      AssignNodeKeeps(m, hash, node, count - 1, p);
    }
  }

  /** Every node a map names after `Add(nodes...)` was already named or is one of `nodes`. */
  lemma {:induction false} AssignValues(m: map<int, string>, hash: Hash, replicas: int, nodes: seq<string>)
    ensures forall p | p in Assign(m, hash, replicas, nodes) ::
      (p in m && Assign(m, hash, replicas, nodes)[p] == m[p]) || Assign(m, hash, replicas, nodes)[p] in nodes
  {
    if nodes != [] {
      var init := nodes[..|nodes| - 1];
      var last := nodes[|nodes| - 1];
      AssignValues(m, hash, replicas, init);
      var before := Assign(m, hash, replicas, init);
      AssignNodeValues(before, hash, last, Count(replicas));
      forall p | p in Assign(m, hash, replicas, nodes)
        ensures (p in m && Assign(m, hash, replicas, nodes)[p] == m[p]) || Assign(m, hash, replicas, nodes)[p] in nodes
      {
        if Assign(m, hash, replicas, nodes)[p] != last {
          assert p in before && Assign(m, hash, replicas, nodes)[p] == before[p];
          if before[p] in init {
            var j :| 0 <= j < |init| && init[j] == before[p];
            assert nodes[j] == before[p];
          }
        }
      }
    }
  }

  /** Writing a node's positions only ever records that node. */
  lemma {:induction false} AssignNodeValues(m: map<int, string>, hash: Hash, node: string, count: nat)
    ensures forall p | p in AssignNode(m, hash, node, count) ::
      (p in m && AssignNode(m, hash, node, count)[p] == m[p]) || AssignNode(m, hash, node, count)[p] == node
  {
    if count > 0 {
      AssignNodeValues(m, hash, node, count - 1);
    }
  }

  /** `Add(nodes...)` appends exactly `replicas` positions per node. */
  lemma {:induction false} PositionsCount(hash: Hash, replicas: int, nodes: seq<string>)
    ensures |Positions(hash, replicas, nodes)| == |nodes| * Count(replicas)
  {
    if nodes != [] {
      PositionsCount(hash, replicas, nodes[..|nodes| - 1]);
      assert (|nodes| - 1) * Count(replicas) + Count(replicas) == |nodes| * Count(replicas);
    }
  }

  /** Every mapped position is one of the virtual positions of the node it names. */
  ghost predicate MapConsistent(hash: Hash, replicas: int, hm: map<int, string>)
  {
    forall p | p in hm :: p in VirtualKeys(hash, replicas, hm[p])
  }

  /** Writing a node's first `count` virtual positions keeps every position mapped to a node it belongs to. */
  lemma {:induction false} AssignNodeConsistent(m: map<int, string>, hash: Hash, replicas: int, node: string, count: nat)
    requires MapConsistent(hash, replicas, m) && count <= Count(replicas)
    ensures MapConsistent(hash, replicas, AssignNode(m, hash, node, count))
  {
    if count > 0 {
      AssignNodeConsistent(m, hash, replicas, node, count - 1);
      assert VirtualKeys(hash, replicas, node)[count - 1] == hash(Itoa(count - 1) + node) as int;
    }
  }

  /** `Add` keeps every position mapped to a node it belongs to. */
  lemma {:induction false} AssignConsistent(m: map<int, string>, hash: Hash, replicas: int, nodes: seq<string>)
    requires MapConsistent(hash, replicas, m)
    ensures MapConsistent(hash, replicas, Assign(m, hash, replicas, nodes))
  {
    if nodes != [] {
      AssignConsistent(m, hash, replicas, nodes[..|nodes| - 1]);
      AssignNodeConsistent(Assign(m, hash, replicas, nodes[..|nodes| - 1]), hash, replicas, nodes[|nodes| - 1], Count(replicas));
    }
  }

  /**
   * The clockwise successor of `h` on a non-empty sorted ring: the smallest
   * position at or after `h`, or, when there is none, the smallest position.
   */
  function Successor(s: seq<int>, h: int): (p: int)
    requires Sorted(s) && s != []
    ensures p in s
    ensures (exists q | q in s :: q >= h) ==> p >= h && forall q | q in s && q >= h :: p <= q
    ensures (forall q | q in s :: q < h) ==> forall q | q in s :: p <= q
  {
    if h <= s[|s| - 1] then
      ClockwiseSuccessor(s, h);
      s[FirstAtLeast(s, h) % |s|]
    else
      WrapAround(s, h);
      s[FirstAtLeast(s, h) % |s|]
  }

  /** The node that owns a key with hash `h`: "" on an empty ring or for a position whose mapping was deleted. */
  function OwnerOf(keys: seq<int>, hm: map<int, string>, h: int): string
    requires Sorted(keys)
  {
    if keys == [] then "" else Lookup(hm, Successor(keys, h))
  }

  /** After `Add(nodes...)` on an empty ring, every key is owned by one of the added nodes. */
  lemma OwnerAmongNodes(hash: Hash, replicas: int, nodes: seq<string>, keys: seq<int>, h: int)
    requires Sorted(keys) && multiset(keys) == multiset(Positions(hash, replicas, nodes))
    requires replicas > 0 && nodes != []
    ensures OwnerOf(keys, Assign(map[], hash, replicas, nodes), h) in nodes
  {
    PositionsCount(hash, replicas, nodes);
    var ps := Positions(hash, replicas, nodes);
    assert ps[0] in multiset(keys);
    assert keys != [];
    var p := Successor(keys, h);
    assert p in multiset(ps);
    AssignCovers(map[], hash, replicas, nodes);
  }

  /**
   * One step of `Remove` as written: `sort.SearchInts` finds where the
   * position would be and that element is cut out unchecked; `None` stands
   * for the slice-bounds panic when the search runs off the end.
   */
  function SpliceAsWritten(keys: seq<int>, p: int): Option<seq<int>>
  {
    var idx := FirstAtLeast(keys, p);
    if idx == |keys| then None else Some(keys[..idx] + keys[idx + 1..])
  }

  /** Why `Remove` needs the node present: a position the ring does not hold cuts out a neighbour, or panics. */
  lemma SpliceAsWrittenLosesNeighbour()
    ensures SpliceAsWritten([10], 5) == Some([])
    ensures multiset([10]) - multiset{5} == multiset{10}
    ensures SpliceAsWritten([10], 20).None?
  {
    assert FirstAtLeast([10], 5) == 0;
    assert [10][..0] + [10][1..] == [];
    assert FirstAtLeast([10], 20) == 1 by {
      assert FirstAtLeast([10][1..], 20) == 0;
    }
  }

  /** Cutting the first occurrence of a position out of the ring, if it holds one: one step of `Remove` for a present node. */
  function Splice(keys: seq<int>, p: int): seq<int>
  {
    var idx := FirstAtLeast(keys, p);
    if idx < |keys| && keys[idx] == p then keys[..idx] + keys[idx + 1..] else keys
  }

  /** Cutting one element out of a sorted sequence leaves it sorted. */
  lemma CutSorted(keys: seq<int>, idx: nat)
    requires Sorted(keys) && idx < |keys|
    ensures Sorted(keys[..idx] + keys[idx + 1..])
  {
    var r := keys[..idx] + keys[idx + 1..];
    forall i, j | 0 <= i < j < |r| ensures r[i] <= r[j] {
      var i' := if i < idx then i else i + 1;
      var j' := if j < idx then j else j + 1;
      assert r[i] == keys[i'] && r[j] == keys[j'];
    }
  }

  /** Cutting one element out of a sequence takes exactly that element out of its multiset. */
  lemma CutMultiset(keys: seq<int>, idx: nat)
    requires idx < |keys|
    ensures multiset(keys[..idx] + keys[idx + 1..]) == multiset(keys) - multiset{keys[idx]}
  {
    assert keys == keys[..idx] + [keys[idx]] + keys[idx + 1..];
  }

  /** The step removes exactly one occurrence of the position, if any, and keeps the ring sorted. */
  lemma SpliceRemovesOne(keys: seq<int>, p: int)
    requires Sorted(keys)
    ensures Sorted(Splice(keys, p))
    ensures multiset(Splice(keys, p)) == multiset(keys) - multiset{p}
  {
    var idx := FirstAtLeast(keys, p);
    if p in keys {
      FoundWhenPresent(keys, p);
      CutSorted(keys, idx);
      CutMultiset(keys, idx);
    } else {
      assert multiset(keys)[p] == 0;
    }
  }

  /** The ring after `Remove` cuts out the positions `ps`, in order. */
  function Unplace(keys: seq<int>, ps: seq<int>): seq<int>
  {
    if ps == [] then keys else Splice(Unplace(keys, ps[..|ps| - 1]), ps[|ps| - 1])
  }

  /** The position-to-node map after `Remove` deletes the positions `ps`. */
  function Drop(m: map<int, string>, ps: seq<int>): (r: map<int, string>)
    ensures forall p | p in r :: p in m && r[p] == m[p] && p !in ps
    ensures forall p | p in m && p !in ps :: p in r
  {
    if ps == [] then m else Drop(m, ps[..|ps| - 1]) - {ps[|ps| - 1]}
  }

  /** Removing positions from a sorted ring keeps it sorted and takes away exactly those positions it holds. */
  lemma {:induction false} UnplaceRemoves(keys: seq<int>, ps: seq<int>)
    requires Sorted(keys)
    ensures Sorted(Unplace(keys, ps))
    ensures multiset(Unplace(keys, ps)) == multiset(keys) - multiset(ps)
  {
    if ps != [] {
      var init := ps[..|ps| - 1];
      var p := ps[|ps| - 1];
      UnplaceRemoves(keys, init);
      SpliceRemovesOne(Unplace(keys, init), p);
      assert ps == init + [p];
      assert multiset(ps) == multiset(init) + multiset{p};
      SubtractTwice(multiset(keys), multiset(init), multiset{p});
    }
  }

  lemma SubtractTwice(a: multiset<int>, b: multiset<int>, c: multiset<int>)
    ensures (a - b) - c == a - (b + c)
  {
  }

  /** Removing a node's positions after adding them gives back the positions the ring held before. */
  lemma AddRemoveRoundTrip(hash: Hash, replicas: int, keys: seq<int>, node: string)
    ensures multiset(Unplace(SortInts(keys + VirtualKeys(hash, replicas, node)), VirtualKeys(hash, replicas, node)))
      == multiset(keys)
  {
    var vk := VirtualKeys(hash, replicas, node);
    UnplaceRemoves(SortInts(keys + vk), vk);
    assert multiset(keys + vk) - multiset(vk) == multiset(keys);
  }

  /** A consistent map no longer names a node once that node's positions are deleted. */
  lemma DropForgetsNode(hash: Hash, replicas: int, hm: map<int, string>, node: string)
    requires MapConsistent(hash, replicas, hm)
    ensures MapConsistent(hash, replicas, Drop(hm, VirtualKeys(hash, replicas, node)))
    ensures node !in Drop(hm, VirtualKeys(hash, replicas, node)).Values
  {
    var vk := VirtualKeys(hash, replicas, node);
    var r := Drop(hm, vk);
    forall p | p in r ensures r[p] != node {
      assert p in hm && r[p] == hm[p] && p !in vk;
      assert p in VirtualKeys(hash, replicas, hm[p]);
    }
  }

  /** Deleting positions keeps a map consistent. */
  lemma DropConsistent(hash: Hash, replicas: int, hm: map<int, string>, ps: seq<int>)
    requires MapConsistent(hash, replicas, hm)
    ensures MapConsistent(hash, replicas, Drop(hm, ps))
  {
  }

  /** Removing positions the ring holds shortens it by their number. */
  lemma UnplaceLength(keys: seq<int>, ps: seq<int>)
    requires Sorted(keys) && multiset(ps) <= multiset(keys)
    ensures Sorted(Unplace(keys, ps))
    ensures multiset(Unplace(keys, ps)) == multiset(keys) - multiset(ps)
    ensures |Unplace(keys, ps)| == |keys| - |ps|
  {
    UnplaceRemoves(keys, ps);
    var r := Unplace(keys, ps);
    assert multiset(keys) == multiset(r) + multiset(ps);
    assert |multiset(keys)| == |multiset(r)| + |multiset(ps)|;
  }

  /**
   * One turn of `Remove`'s loop on a ring that held all of `vk`: the ring is
   * still sorted, the search lands on the next position, and cutting it out
   * or deleting its mapping extends the removal by that position.
   */
  lemma RemoveStep(keys: seq<int>, m: map<int, string>, vk: seq<int>, i: nat)
    requires Sorted(keys) && multiset(vk) <= multiset(keys) && i < |vk|
    ensures Sorted(Unplace(keys, vk[..i]))
    ensures FirstAtLeast(Unplace(keys, vk[..i]), vk[i]) < |Unplace(keys, vk[..i])|
    ensures Unplace(keys, vk[..i])[FirstAtLeast(Unplace(keys, vk[..i]), vk[i])] == vk[i]
    ensures Unplace(keys, vk[..i + 1]) == Splice(Unplace(keys, vk[..i]), vk[i])
    ensures Drop(m, vk[..i + 1]) == Drop(m, vk[..i]) - {vk[i]}
  {
    assert vk[..i + 1][..i] == vk[..i];
    UnplaceRemoves(keys, vk[..i]);
    StillPresent(keys, vk, i);
    FoundWhenPresent(Unplace(keys, vk[..i]), vk[i]);
  }

  /** While removing `vk` in order from a ring that holds all of it, the next position is still on the ring. */
  lemma StillPresent(keys: seq<int>, vk: seq<int>, i: nat)
    requires multiset(vk) <= multiset(keys) && i < |vk|
    ensures vk[i] in multiset(keys) - multiset(vk[..i])
  {
    assert vk == vk[..i] + [vk[i]] + vk[i + 1..];
    assert multiset(vk[..i]) + multiset{vk[i]} <= multiset(vk);
  }

  /** After a node is removed, no key is owned by it. */
  lemma RemovedNodeOwnsNothing(hash: Hash, replicas: int, keys: seq<int>, hm: map<int, string>, node: string, h: int)
    requires MapConsistent(hash, replicas, hm) && Sorted(keys) && node != ""
    ensures Sorted(Unplace(keys, VirtualKeys(hash, replicas, node)))
    ensures OwnerOf(Unplace(keys, VirtualKeys(hash, replicas, node)), Drop(hm, VirtualKeys(hash, replicas, node)), h) != node
  {
    UnplaceRemoves(keys, VirtualKeys(hash, replicas, node));
    DropForgetsNode(hash, replicas, hm, node);
  }

  /**
   * The ring. `keys` holds every virtual position, sorted; `hashMap` maps a
   * position to the real node it was written for.
   */
  class Map {
    const hash: Hash
    const replicas: int
    var keys: seq<int>
    var hashMap: map<int, string>

    ghost predicate Valid()
      reads this
    {
      Sorted(keys) && MapConsistent(hash, replicas, hashMap)
    }

    /** `New`: an empty ring; a missing hash function means CRC-32. */
    constructor (replicas: int, fn: Option<Hash>)
      ensures Valid()
      ensures this.replicas == replicas
      ensures hash == if fn.Some? then fn.value else Crc32
      ensures keys == [] && hashMap == map[]
    {
      this.replicas := replicas;
      var f: Hash := if fn.Some? then fn.value else Crc32;
      hash := f;
      keys := [];
      hashMap := map[];
    }

    /** `Add(nodes...)`: appends every virtual position of every node, records its owner, then sorts. */
    method Add(nodes: seq<string>)
      requires Valid()
      modifies this
      ensures Valid()
      ensures multiset(keys) == multiset(old(keys)) + multiset(Positions(hash, replicas, nodes))
      ensures |keys| == |old(keys)| + |nodes| * Count(replicas)
      ensures hashMap == Assign(old(hashMap), hash, replicas, nodes)
    {
      for n := 0 to |nodes|
        invariant keys == old(keys) + Positions(hash, replicas, nodes[..n])
        invariant hashMap == Assign(old(hashMap), hash, replicas, nodes[..n])
      {
        PlaceNode(nodes[n]);
        assert nodes[..n + 1][..n] == nodes[..n] && nodes[..n + 1][n] == nodes[n];
        assert Positions(hash, replicas, nodes[..n + 1]) ==
          Positions(hash, replicas, nodes[..n]) + VirtualKeys(hash, replicas, nodes[n]);
      }
      assert nodes[..|nodes|] == nodes;
      AssignConsistent(old(hashMap), hash, replicas, nodes);
      PositionsCount(hash, replicas, nodes);
      keys := SortInts(keys);
      assert |multiset(keys)| == |keys|;
    }

    /** The inner loop of `Add`: the virtual positions of one node, appended and mapped to it. */
    method PlaceNode(node: string)
      modifies this
      ensures keys == old(keys) + VirtualKeys(hash, replicas, node)
      ensures hashMap == AssignNode(old(hashMap), hash, node, Count(replicas))
    {
      ghost var vk := VirtualKeys(hash, replicas, node);
      var i := 0;
      while i < replicas
        invariant 0 <= i <= Count(replicas)
        invariant keys == old(keys) + vk[..i]
        invariant hashMap == AssignNode(old(hashMap), hash, node, i)
      {
        var h := hash(Itoa(i) + node) as int;
        keys := keys + [h];
        hashMap := hashMap[h := node];
        assert vk[..i + 1] == vk[..i] + [h];
        i := i + 1;
      }
      assert vk[..i] == vk;
    }

    /** `Get(key)`: the owner of the key, found by binary search and wrapped round the ring. */
    method Get(key: string) returns (node: string)
      requires Valid()
      ensures node == OwnerOf(keys, hashMap, hash(key) as int)
    {
      if |keys| == 0 {
        return "";
      }
      var h := hash(key) as int;
      var idx := Search(keys, h);
      node := Lookup(hashMap, keys[idx % |keys|]);
    }

    /**
     * `Remove(node)`: cuts each virtual position of the node out of the ring
     * and deletes its mapping. The cut is unchecked, so every position of the
     * node must be on the ring, as often as the node has it.
     */
    method Remove(node: string)
      requires Valid()
      requires multiset(VirtualKeys(hash, replicas, node)) <= multiset(keys)
      modifies this
      ensures Valid()
      ensures keys == Unplace(old(keys), VirtualKeys(hash, replicas, node))
      ensures multiset(keys) == multiset(old(keys)) - multiset(VirtualKeys(hash, replicas, node))
      ensures |keys| == |old(keys)| - Count(replicas)
      ensures hashMap == Drop(old(hashMap), VirtualKeys(hash, replicas, node))
    {
      ghost var vk := VirtualKeys(hash, replicas, node);
      var i := 0;
      while i < replicas
        invariant 0 <= i <= Count(replicas)
        invariant keys == Unplace(old(keys), vk[..i])
        invariant hashMap == Drop(old(hashMap), vk[..i])
      {
        var h := hash(Itoa(i) + node) as int;
        assert vk[i] == h;
        RemoveStep(old(keys), old(hashMap), vk, i);
        var idx := Search(keys, h);
        keys := keys[..idx] + keys[idx + 1..];
        hashMap := hashMap - {h};
        i := i + 1;
      }
      assert vk[..i] == vk;
      UnplaceLength(old(keys), vk);
      DropConsistent(hash, replicas, old(hashMap), vk);
    }
  }
}
