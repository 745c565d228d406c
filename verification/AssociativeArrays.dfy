/** The chained hash table of assoc.c, with linked nodes that are moved between
    buckets in place, as a finite map. */
module AssociativeArrays {
  import opened Arithmetic
  import opened Prelude

  type Key = int

  datatype Entry = Entry(key: Key, data: int)

  // ----- buckets -----

  function Xor(a: nat, b: nat): nat
    decreases a + b
  {
    if a == 0 && b == 0 then 0
    else 2 * Xor(a / 2, b / 2) + if a % 2 != b % 2 then 1 else 0
  }

  /** fold_hash: the high bits are mixed into the lowest ones. */
  function Fold(hash: nat, bits: nat): (b: nat)
    ensures b < Pow2(bits)
  {
    LowBits(Xor(hash, HighBits(hash, Pow2(bits))), Pow2(bits))
  }

  function HighBits(x: nat, p: nat): nat
    requires p > 0
  {
    x / p
  }

  function LowBits(x: nat, p: nat): (r: nat)
    requires p > 0
    ensures r < p
  {
    x % p
  }

  // Bit j of a number.
  function Bit(x: nat, j: nat): bool
    decreases j
  {
    if j == 0 then x % 2 == 1 else Bit(x / 2, j - 1)
  }

  lemma {:induction false} BitOfXor(a: nat, b: nat, j: nat)
    ensures Bit(Xor(a, b), j) == (Bit(a, j) != Bit(b, j))
    decreases j
  {
    var x := Xor(a, b);
    assert x / 2 == Xor(a / 2, b / 2) && (x % 2 == 1 <==> a % 2 != b % 2) by {
      if a == 0 && b == 0 { assert Xor(0, 0) == 0; }
    }
    if j > 0 { BitOfXor(a / 2, b / 2, j - 1); }
  }

  // Halving and then dividing by p, or the other way round.
  lemma HalvesDivide(x: nat, p: nat)
    requires p > 0
    ensures x / (2 * p) == x / 2 / p && x % (2 * p) == 2 * (x / 2 % p) + x % 2
  {
    var y, b := x / 2, x % 2;
    var q, r := y / p, y % p;
    assert y == q * p + r;
    Associate(2, q, p);
    Associate(q, 2, p);
    assert x == q * (2 * p) + (2 * r + b);
    DivModOf(x, 2 * p, q, 2 * r + b);
  }

  lemma {:induction false} BitOfHigh(x: nat, k: nat, j: nat)
    ensures Bit(HighBits(x, Pow2(k)), j) == Bit(x, j + k)
    decreases k
  {
    if k > 0 {
      HalvesDivide(x, Pow2(k - 1));
      BitOfHigh(x / 2, k - 1, j);
    }
  }

  lemma {:induction false} BitOfLow(x: nat, k: nat, j: nat)
    ensures Bit(LowBits(x, Pow2(k)), j) == (j < k && Bit(x, j))
    decreases k
  {
    if k == 0 {
      NoBits(j);
    } else {
      HalvesDivide(x, Pow2(k - 1));
      if j > 0 { BitOfLow(x / 2, k - 1, j - 1); }
    }
  }

  lemma {:induction false} NoBits(j: nat)
    ensures !Bit(0, j)
  {
    if j > 0 { NoBits(j - 1); }
  }

  /** Bit j of a bucket number is that of the hash, exclusive-or the one bits places higher. */
  lemma FoldBits(hash: nat, bits: nat, j: nat)
    ensures Bit(Fold(hash, bits), j) == (j < bits && Bit(hash, j) != Bit(hash, j + bits))
  {
    BitOfLow(Xor(hash, HighBits(hash, Pow2(bits))), bits, j);
    BitOfXor(hash, HighBits(hash, Pow2(bits)), j);
    BitOfHigh(hash, bits, j);
  }

  // No bits stand for no buckets.
  function BitsSize(bits: nat): nat {
    if bits == 0 then 0 else Pow2(bits)
  }

  class Node {
    var next: Node?
    const hash: nat
    const key: Key
    var data: int

    constructor (next: Node?, hash: nat, key: Key, data: int)
      ensures this.next == next && this.hash == hash && this.key == key && this.data == data
    {
      this.next, this.hash, this.key, this.data := next, hash, key, data;
    }
  }

  // ----- chains -----

  function At(c: seq<Node>, k: nat): Node? {
    if k < |c| then c[k] else null
  }

  /** The nodes reached from head are those of c, in order. */
  ghost predicate Linked(head: Node?, c: seq<Node>)
    reads c
  {
    head == At(c, 0) && forall j :: 0 <= j < |c| ==> c[j].next == At(c, j + 1)
  }

  ghost predicate NoDuplicates(c: seq<Node>) {
    forall j, k :: 0 <= j < k < |c| ==> c[j] != c[k]
  }

  // The nodes are in the chains of their hashes, each once.
  ghost predicate Placed(chains: seq<seq<Node>>, bits: nat, nodes: set<Node>) {
    && |chains| == BitsSize(bits)
    && (bits == 0 ==> nodes == {})
    && (forall i, n :: 0 <= i < |chains| && n in chains[i] ==> n in nodes && Fold(n.hash, bits) == i)
    && (forall n :: n in nodes && bits > 0 ==> n in chains[Fold(n.hash, bits)])
    && (forall i :: 0 <= i < |chains| ==> NoDuplicates(chains[i]))
  }

  // One more node at the head of its chain.
  lemma PlacedMore(chains: seq<seq<Node>>, bits: nat, nodes: set<Node>, n: Node)
    requires Placed(chains, bits, nodes) && bits > 0 && n !in nodes
    ensures var b := Fold(n.hash, bits); Placed(chains[b := [n] + chains[b]], bits, nodes + {n})
  {
    var b := Fold(n.hash, bits);
    var chains' := chains[b := [n] + chains[b]];
    assert n !in chains[b];
    forall i | 0 <= i < |chains'| ensures NoDuplicates(chains'[i]) {
      if i == b {
        forall k | 0 <= k < |chains[b]| ensures chains[b][k] != n {
          assert chains[b][k] in chains[b];
        }
      }
    }
  }

  lemma PlacedLess(chains: seq<seq<Node>>, bits: nat, nodes: set<Node>, b: nat, j: nat)
    requires Placed(chains, bits, nodes) && b < |chains| && j < |chains[b]|
    ensures Placed(chains[b := Without(chains[b], j)], bits, nodes - {chains[b][j]})
  {
    var c, n := chains[b], chains[b][j];
    var chains' := chains[b := Without(c, j)];
    WithoutMembers(c, j);
    assert n in c && Fold(n.hash, bits) == b;
    forall i, o | 0 <= i < |chains'| && o in chains'[i] ensures o in nodes - {n} && Fold(o.hash, bits) == i {
      assert o in chains[i];
    }
    forall o | o in nodes - {n} ensures o in chains'[Fold(o.hash, bits)] {
      assert o in chains[Fold(o.hash, bits)];
    }
  }

  lemma ChainOf(chains: seq<seq<Node>>, bits: nat, nodes: set<Node>, b: nat, j: nat)
    requires Placed(chains, bits, nodes) && b < |chains| && j < |chains[b]|
    ensures chains[b][j] in nodes && Fold(chains[b][j].hash, bits) == b && NoDuplicates(chains[b])
  {
    assert chains[b][j] in chains[b];
  }

  // A node is in no other chain.
  lemma OtherChain(chains: seq<seq<Node>>, bits: nat, nodes: set<Node>, b: nat, j: nat, other: nat)
    requires Placed(chains, bits, nodes) && b < |chains| && j < |chains[b]| && other < |chains| && other != b
    ensures chains[b][j] !in chains[other]
  {
    ChainOf(chains, bits, nodes, b, j);
    forall k | 0 <= k < |chains[other]| ensures chains[other][k] != chains[b][j] {
      ChainOf(chains, bits, nodes, other, k);
    }
  }

  function Without(c: seq<Node>, j: nat): seq<Node>
    requires j < |c|
  {
    c[..j] + c[j + 1..]
  }

  lemma WithoutMembers(c: seq<Node>, j: nat)
    requires NoDuplicates(c) && j < |c|
    ensures forall n :: n in Without(c, j) <==> n in c && n != c[j]
    ensures NoDuplicates(Without(c, j))
  {
    var c' := Without(c, j);
    forall n ensures n in c' <==> n in c && n != c[j] {
      if n in c && n != c[j] {
        var k :| 0 <= k < |c| && c[k] == n;
        assert c'[if k < j then k else k - 1] == n;
      }
      if n in c' {
        var k :| 0 <= k < |c'| && c'[k] == n;
        assert c[if k < j then k else k + 1] == n;
      }
    }
  }

  /** The array's buckets head the chains, which hold exactly these nodes. */
  ghost predicate Hung(buckets: array<Node?>, chains: seq<seq<Node>>, bits: nat, nodes: set<Node>)
    reads buckets, nodes
  {
    && buckets.Length == |chains| == BitsSize(bits) && Placed(chains, bits, nodes)
    && forall b :: 0 <= b < |chains| ==> Linked(buckets[b], chains[b])
  }

  // Every node has the hash of its norm, each norm is that of one node, and the nodes
  // hold the contents.
  ghost predicate Holds(norm: Key -> int, hashOf: int -> nat, nodes: set<Node>, nodeOf: map<int, Node>, contents: map<int, Entry>)
    reads nodes
  {
    && (forall n :: n in nodes ==> n.hash == hashOf(norm(n.key)) && norm(n.key) in nodeOf && nodeOf[norm(n.key)] == n)
    && contents.Keys == nodeOf.Keys
    && (forall m :: m in nodeOf ==> nodeOf[m] in nodes && norm(nodeOf[m].key) == m)
    && (forall m :: m in nodeOf ==> nodeOf[m] in nodes && contents[m] == Entry(nodeOf[m].key, nodeOf[m].data))
  }

  lemma HoldsMore(norm: Key -> int, hashOf: int -> nat, nodes: set<Node>, nodeOf: map<int, Node>, contents: map<int, Entry>, node: Node)
    requires Holds(norm, hashOf, nodes, nodeOf, contents)
    requires norm(node.key) !in contents && node.hash == hashOf(norm(node.key)) && node !in nodes
    ensures Holds(norm, hashOf, nodes + {node}, nodeOf[norm(node.key) := node], contents[norm(node.key) := Entry(node.key, node.data)])
  {
  }

  // A norm's node is in the chain of its hash.
  lemma WhereIs(norm: Key -> int, hashOf: int -> nat, chains: seq<seq<Node>>, bits: nat, nodes: set<Node>,
                nodeOf: map<int, Node>, contents: map<int, Entry>, m: int)
    requires Holds(norm, hashOf, nodes, nodeOf, contents) && Placed(chains, bits, nodes) && m in contents
    ensures bits > 0 && m in nodeOf && nodeOf[m] in nodes && norm(nodeOf[m].key) == m && nodeOf[m].hash == hashOf(m)
    ensures nodeOf[m] in chains[Fold(hashOf(m), bits)]
  {
    assert m in nodeOf;
    var n := nodeOf[m];
    assert n in nodes && norm(n.key) == m;
  }

  // Skipping node j of a linked chain.
  lemma SkipLinked(head: Node?, c: seq<Node>, j: nat)
    requires j < |c| && head == if j == 0 then At(c, 1) else c[0]
    requires forall k :: 0 <= k < |c| && k != j - 1 ==> c[k].next == At(c, k + 1)
    requires j > 0 ==> c[j - 1].next == At(c, j + 1)
    ensures Linked(head, Without(c, j))
  {
    var c' := Without(c, j);
    forall k | 0 <= k < |c'| ensures c'[k].next == At(c', k + 1) {
      assert c'[k] == c[if k < j then k else k + 1];
    }
  }

  lemma HoldsLess(norm: Key -> int, hashOf: int -> nat, nodes: set<Node>, nodeOf: map<int, Node>, contents: map<int, Entry>, node: Node)
    requires Holds(norm, hashOf, nodes, nodeOf, contents) && node in nodes
    ensures norm(node.key) in contents
    ensures Holds(norm, hashOf, nodes - {node}, nodeOf - {norm(node.key)}, contents - {norm(node.key)})
  {
  }

  lemma SizeLess(contents: map<int, Entry>, m: int)
    requires m in contents
    ensures |contents - {m}| == |contents| - 1
  {
    assert contents == (contents - {m})[m := contents[m]];
  }

  /** Keys are equal when their norms are; the hash is one of the norm. */
  class Table {
    const norm: Key -> int
    const hashOf: int -> nat
    var used: nat
    var sizeBits: nat
    var buckets: array<Node?>
    ghost var chains: seq<seq<Node>>
    ghost var nodes: set<Node>
    ghost var nodeOf: map<int, Node>
    ghost var contents: map<int, Entry>

    ghost predicate Valid()
      reads this, buckets, nodes
    {
      && Hung(buckets, chains, sizeBits, nodes) && Holds(norm, hashOf, nodes, nodeOf, contents) && used == |contents|
      && (sizeBits == 0 || sizeBits >= 4) && Loaded(used, BitsSize(sizeBits))
    }

    constructor (norm: Key -> int, hashOf: int -> nat)
      ensures Valid() && contents == map[] && fresh(buckets) && nodes == {}
      ensures this.norm == norm && this.hashOf == hashOf
    {
      this.norm, this.hashOf := norm, hashOf;
      used, sizeBits, buckets := 0, 0, new Node?[0];
      chains, nodes, nodeOf, contents := [], {}, map[], map[];
    }

    /** assoc_array_lookup_node: the node with the key, if there is one. */
    method LookupNode(key: Key) returns (node: Node?)
      requires Valid()
      ensures node == null <==> norm(key) !in contents
      ensures node != null ==> node in nodes && norm(node.key) == norm(key)
    {
      if used == 0 { return null; }
      var hash := hashOf(norm(key));
      var bucket := Fold(hash, sizeBits);
      node := Walk(buckets[bucket], hash, key, chains[bucket]);
      if norm(key) in contents {
        WhereIs(norm, hashOf, chains, sizeBits, nodes, nodeOf, contents, norm(key));
      }
    }

    // The first node with the hash and the key in a chain.
    method Walk(head: Node?, hash: nat, key: Key, ghost c: seq<Node>) returns (node: Node?)
      requires Linked(head, c)
      ensures node == null ==> forall n :: n in c ==> !(n.hash == hash && norm(n.key) == norm(key))
      ensures node != null ==> node in c && node.hash == hash && norm(node.key) == norm(key)
    {
      node := head;
      ghost var j := 0;
      while node != null
        invariant 0 <= j <= |c| && node == At(c, j)
        invariant forall k :: 0 <= k < j ==> !(c[k].hash == hash && norm(c[k].key) == norm(key))
        decreases |c| - j
      {
        if node.hash == hash && norm(node.key) == norm(key) { return; }
        node, j := node.next, j + 1;
      }
    }

    /** assoc_array_lookup_key: the data and the key that is stored. */
    method Lookup(key: Key) returns (found: bool, k: Key, data: int)
      requires Valid()
      ensures found <==> norm(key) in contents
      ensures found ==> contents[norm(key)] == Entry(k, data)
    {
      var node := LookupNode(key);
      if node == null { return false, 0, 0; }
      found, k, data := true, node.key, node.data;
    }

    // Changes the data of a node.
    method SetData(node: Node, data: int)
      requires Valid() && node in nodes
      modifies this`contents, nodes
      ensures Valid() && nodes == old(nodes)
      ensures contents == old(contents)[norm(node.key) := Entry(node.key, data)]
    {
      hide Placed, Linked, Holds;
      Store(node, data);
      contents := contents[norm(node.key) := Entry(node.key, data)];
    }

    method Store(node: Node, data: int)
      requires Hung(buckets, chains, sizeBits, nodes) && Holds(norm, hashOf, nodes, nodeOf, contents) && node in nodes
      modifies node`data
      ensures unchanged(this) && Hung(buckets, chains, sizeBits, nodes)
      ensures norm(node.key) in contents
      ensures Holds(norm, hashOf, nodes, nodeOf, contents[norm(node.key) := Entry(node.key, data)])
    {
      node.data := data;
      forall b | 0 <= b < |chains| ensures Linked(buckets[b], chains[b]) {
        assert old(Linked(buckets[b], chains[b]));
      }
    }

    /** assoc_array_set: keeps the key that is stored already. */
    method Set(key: Key, data: int)
      requires Valid()
      modifies this, buckets, nodes
      ensures Valid() && fresh(nodes - old(nodes)) && (buckets == old(buckets) || fresh(buckets))
      ensures contents == old(contents)[norm(key) := Entry(if norm(key) in old(contents) then old(contents)[norm(key)].key else key, data)]
    {
      var node := LookupNode(key);
      if node != null {
        SetData(node, data);
      } else {
        node := Add(key, data);
      }
    }

    /** assoc_array_force_ref: the node of the key, added with null data if need be. */
    method ForceRef(key: Key) returns (node: Node)
      requires Valid()
      modifies this, buckets, nodes
      ensures Valid() && fresh(nodes - old(nodes)) && (buckets == old(buckets) || fresh(buckets))
      ensures node in nodes && norm(node.key) == norm(key)
      ensures contents == if norm(key) in old(contents) then old(contents) else old(contents)[norm(key) := Entry(key, 0)]
    {
      var found := LookupNode(key);
      if found != null {
        node := found;
      } else {
        node := Add(key, 0);
      }
    }

    // Adds a key that is not in the table, in a larger table if it is two thirds full.
    method Add(key: Key, data: int) returns (node: Node)
      requires Valid() && norm(key) !in contents
      modifies this, buckets, nodes
      ensures Valid() && fresh(nodes - old(nodes)) && (buckets == old(buckets) || fresh(buckets))
      ensures node in nodes && node.key == key
      ensures contents == old(contents)[norm(key) := Entry(key, data)]
    {
      if used * 3 >= BitsSize(sizeBits) * 2 {
        Grow();
      }
      node := Insert(key, data);
    }

    method Grow()
      requires Valid() && used * 3 >= BitsSize(sizeBits) * 2
      modifies this, buckets, nodes
      ensures Valid() && nodes == old(nodes) && fresh(buckets) && contents == old(contents)
      ensures used * 3 < BitsSize(sizeBits) * 2
    {
      var bits := if sizeBits != 0 then sizeBits + 1 else 4;
      Doubled(used, sizeBits);
      Rehash(bits);
    }

    // rehash_assoc_array: moves every node to its bucket in an array of the new size.
    method Rehash(bits: nat)
      requires Valid() && bits >= 4 && Loaded(used, BitsSize(bits))
      modifies this, buckets, nodes
      ensures Valid() && nodes == old(nodes) && contents == old(contents) && used == old(used)
      ensures fresh(buckets) && sizeBits == bits
    {
      hide Placed, Linked, Holds;
      var newBuckets := new Node?[BitsSize(bits)](_ => null);
      ghost var newChains := MoveAllHeld(newBuckets, bits);
      buckets, sizeBits, chains := newBuckets, bits, newChains;
    }

    // The contents stay what they are while the nodes move.
    method MoveAllHeld(newBuckets: array<Node?>, bits: nat) returns (ghost newChains: seq<seq<Node>>)
      requires Hung(buckets, chains, sizeBits, nodes) && Holds(norm, hashOf, nodes, nodeOf, contents) && bits > 0
      requires newBuckets != buckets && newBuckets.Length == BitsSize(bits) && forall b :: 0 <= b < newBuckets.Length ==> newBuckets[b] == null
      modifies newBuckets, nodes
      ensures unchanged(this) && Hung(newBuckets, newChains, bits, nodes) && Holds(norm, hashOf, nodes, nodeOf, contents)
    {
      hide Placed, Linked, Hung;
      newChains := MoveAll(newBuckets, bits);
    }

    // Moves the nodes of all buckets.
    method MoveAll(newBuckets: array<Node?>, bits: nat) returns (ghost newChains: seq<seq<Node>>)
      requires Hung(buckets, chains, sizeBits, nodes) && bits > 0
      requires newBuckets != buckets && newBuckets.Length == BitsSize(bits) && forall b :: 0 <= b < newBuckets.Length ==> newBuckets[b] == null
      modifies newBuckets, nodes
      ensures unchanged(this) && Hung(newBuckets, newChains, bits, nodes)
      ensures forall n :: n in nodes ==> n.data == old(n.data)
    {
      newChains := seq(BitsSize(bits), _ => []);
      ghost var done: set<Node> := {};
      var i := 0;
      while i < buckets.Length
        invariant 0 <= i <= buckets.Length && unchanged(this) && unchanged(buckets)
        invariant Hung(newBuckets, newChains, bits, done)
        invariant forall n :: n in nodes ==> n.data == old(n.data)
        invariant forall n :: n in nodes && n !in done ==> n.next == old(n.next)
        invariant forall n :: n in done <==> n in nodes && Fold(n.hash, sizeBits) < i
      {
        assert Linked(buckets[i], chains[i]) by {
          assert old(Linked(buckets[i], chains[i]));
          forall j | 0 <= j < |chains[i]| ensures chains[i][j].next == At(chains[i], j + 1) {
            assert chains[i][j] in chains[i];
          }
        }
        newChains, done := MoveChain(newBuckets, newChains, bits, done, i);
        i := i + 1;
      }
      assert done == nodes;
    }

    // Moves the nodes of one bucket.
    method MoveChain(newBuckets: array<Node?>, ghost newChains: seq<seq<Node>>, bits: nat, ghost done: set<Node>, i: nat)
      returns (ghost newChains': seq<seq<Node>>, ghost done': set<Node>)
      requires bits > 0 && i < |chains| == buckets.Length && newBuckets != buckets
      requires Linked(buckets[i], chains[i]) && NoDuplicates(chains[i])
      requires Hung(newBuckets, newChains, bits, done)
      requires forall n :: n in chains[i] ==> n !in done
      modifies newBuckets, chains[i]
      ensures forall n :: n in done' <==> n in done || n in chains[i]
      ensures Hung(newBuckets, newChains', bits, done')
      ensures unchanged(this) && unchanged(buckets) && forall n :: n in chains[i] ==> n.data == old(n.data)
    {
      hide Placed, Hung;
      newChains', done' := newChains, done;
      var node := buckets[i];
      ghost var c, j := chains[i], 0;
      while node != null
        invariant 0 <= j <= |c| && node == At(c, j) && unchanged(this) && unchanged(buckets)
        invariant done <= done' && (forall k :: 0 <= k < j ==> c[k] in done') && (forall n :: n in done' ==> n in done || n in c)
        invariant Hung(newBuckets, newChains', bits, done')
        invariant forall n :: n in c ==> n.data == old(n.data)
        invariant forall k :: j <= k < |c| ==> c[k].next == old(c[k].next) && c[k] !in done'
        decreases |c| - j
      {
        var next := node.next;
        assert node == c[j] && node in c;
        newChains' := Link(newBuckets, newChains', bits, done', node);
        done' := done' + {node};
        node, j := next, j + 1;
      }
    }

    // Puts a node at the head of its bucket.
    method Link(newBuckets: array<Node?>, ghost newChains: seq<seq<Node>>, bits: nat, ghost done: set<Node>, node: Node)
      returns (ghost newChains': seq<seq<Node>>)
      requires bits > 0 && Hung(newBuckets, newChains, bits, done) && node !in done
      modifies newBuckets, node`next
      ensures Hung(newBuckets, newChains', bits, done + {node})
      ensures unchanged(this) && (buckets != newBuckets ==> unchanged(buckets))
    {
      hide Placed;
      var b := Fold(node.hash, bits);
      PlacedMore(newChains, bits, done, node);
      ghost var c := newChains[b];
      newChains' := newChains[b := [node] + c];
      forall k | 0 <= k < |newChains| ensures node !in newChains[k] {
        EachOnce(newChains, bits, done, k);
      }
      assert Linked(newBuckets[b], c);
      node.next := newBuckets[b];
      newBuckets[b] := node;
      assert Linked(node, [node] + c);
      forall k | 0 <= k < |newChains'| && k != b ensures Linked(newBuckets[k], newChains'[k]) {
        assert old(Linked(newBuckets[k], newChains[k]));
      }
    }

    /** assoc_array_remove: whether the key was found. */
    method Remove(key: Key) returns (found: bool, ghost bucket: nat, ghost j: nat)
      requires Valid()
      modifies this, buckets, nodes
      ensures Valid() && buckets == old(buckets) && nodes <= old(nodes)
      ensures found <==> norm(key) in old(contents)
      ensures contents == old(contents) - {norm(key)}
      ensures sizeBits == old(sizeBits) && forall n :: n in old(nodes) ==> n.data == old(n.data)
      ensures !found ==> chains == old(chains) && nodes == old(nodes)
      ensures found ==> bucket < |old(chains)| && j < |old(chains)[bucket]| && norm(old(chains)[bucket][j].key) == norm(key)
                        && chains == old(chains)[bucket := Without(old(chains)[bucket], j)]
    {
      hide Placed, Linked, Holds;
      bucket, j := 0, 0;
      if used == 0 {
        assert contents == map[];
        found := false;
        return;
      }
      var hash := hashOf(norm(key));
      var b := Fold(hash, sizeBits);
      var node, prev;
      node, prev, j := WalkBefore(buckets[b], hash, key, chains[b]);
      if norm(key) in contents {
        WhereIs(norm, hashOf, chains, sizeBits, nodes, nodeOf, contents, norm(key));
      }
      found, bucket := node != null, b;
      if found {
        RemoveNode(b, node, prev, j);
      } else {
        assert contents - {norm(key)} == contents;
      }
    }

    // The first node with the hash and the key, and the node before it.
    method WalkBefore(head: Node?, hash: nat, key: Key, ghost c: seq<Node>) returns (node: Node?, prev: Node?, ghost j: nat)
      requires Linked(head, c)
      ensures node == null ==> forall n :: n in c ==> !(n.hash == hash && norm(n.key) == norm(key))
      ensures node != null ==> j < |c| && node == c[j] && node.hash == hash && norm(node.key) == norm(key)
      ensures prev == if j == 0 then null else At(c, j - 1)
    {
      node, prev, j := head, null, 0;
      while node != null
        invariant 0 <= j <= |c| && node == At(c, j) && prev == if j == 0 then null else At(c, j - 1)
        invariant forall k :: 0 <= k < j ==> !(c[k].hash == hash && norm(c[k].key) == norm(key))
        decreases |c| - j
      {
        if node.hash == hash && norm(node.key) == norm(key) { return; }
        node, prev, j := node.next, node, j + 1;
      }
    }

    // Takes node j out of its chain and out of the contents.
    method RemoveNode(bucket: nat, node: Node, prev: Node?, ghost j: nat)
      requires Valid() && used > 0 && bucket < |chains| && j < |chains[bucket]| && node == chains[bucket][j]
      requires prev == if j == 0 then null else chains[bucket][j - 1]
      modifies this, buckets, nodes
      ensures Valid() && buckets == old(buckets) && nodes == old(nodes) - {node}
      ensures norm(node.key) in old(contents) && contents == old(contents) - {norm(node.key)}
      ensures sizeBits == old(sizeBits) && chains == old(chains)[bucket := Without(old(chains[bucket]), j)]
      ensures forall n :: n in old(nodes) ==> n.data == old(n.data)
    {
      hide Placed, Linked, Holds, Hung;
      UnhookHeld(bucket, node, prev, j);
      HoldsLess(norm, hashOf, nodes, nodeOf, contents, node);
      SizeLess(contents, norm(node.key));
      ghost var m := norm(node.key);
      Become(chains[bucket := Without(chains[bucket], j)], nodes - {node}, nodeOf - {m}, contents - {m}, used - 1);
    }

    // The bookkeeping for changed chains.
    method Become(ghost chains: seq<seq<Node>>, ghost nodes: set<Node>, ghost nodeOf: map<int, Node>,
                  ghost contents: map<int, Entry>, used: nat)
      requires Hung(buckets, chains, sizeBits, nodes) && Holds(norm, hashOf, nodes, nodeOf, contents)
      requires used == |contents| && (sizeBits == 0 || sizeBits >= 4) && Loaded(used, BitsSize(sizeBits))
      modifies this
      ensures Valid() && buckets == old(buckets) && sizeBits == old(sizeBits)
      ensures this.chains == chains && this.nodes == nodes && this.contents == contents
    {
      hide Placed, Linked, Holds, Hung;
      this.chains, this.nodes, this.nodeOf, this.contents, this.used := chains, nodes, nodeOf, contents, used;
    }

    // The contents do not depend on the links.
    method UnhookHeld(bucket: nat, node: Node, prev: Node?, ghost j: nat)
      requires Hung(buckets, chains, sizeBits, nodes) && Holds(norm, hashOf, nodes, nodeOf, contents)
      requires bucket < |chains| && j < |chains[bucket]| && node == chains[bucket][j]
      requires prev == if j == 0 then null else chains[bucket][j - 1]
      modifies buckets, nodes
      ensures forall n :: n in nodes ==> n.data == old(n.data)
      ensures unchanged(this) && node in nodes && Holds(norm, hashOf, nodes, nodeOf, contents)
      ensures Hung(buckets, chains[bucket := Without(chains[bucket], j)], sizeBits, nodes - {node})
    {
      hide Placed, Linked, Hung;
      Unhook(bucket, node, prev, j);
    }

    // The link to the node goes to the one after it.
    method Unhook(bucket: nat, node: Node, prev: Node?, ghost j: nat)
      requires Hung(buckets, chains, sizeBits, nodes)
      requires bucket < |chains| && j < |chains[bucket]| && node == chains[bucket][j]
      requires prev == if j == 0 then null else chains[bucket][j - 1]
      modifies buckets, nodes
      ensures forall n :: n in nodes ==> n.data == old(n.data)
      ensures unchanged(this) && node in nodes
      ensures Hung(buckets, chains[bucket := Without(chains[bucket], j)], sizeBits, nodes - {node})
    {
      hide Placed;
      ghost var c := chains[bucket];
      ChainOf(chains, sizeBits, nodes, bucket, j);
      PlacedLess(chains, sizeBits, nodes, bucket, j);
      if j > 0 {
        ChainOf(chains, sizeBits, nodes, bucket, j - 1);
        forall b | 0 <= b < |chains| && b != bucket ensures prev !in chains[b] {
          OtherChain(chains, sizeBits, nodes, bucket, j - 1, b);
        }
      }
      Relink(bucket, node, prev, c, j);
    }

    // The pointer to node j now points behind it.
    method Relink(bucket: nat, node: Node, prev: Node?, ghost c: seq<Node>, ghost j: nat)
      requires bucket < buckets.Length && Linked(buckets[bucket], c) && NoDuplicates(c) && j < |c| && node == c[j]
      requires prev == if j == 0 then null else c[j - 1]
      modifies buckets, if prev == null then {} else {prev}
      ensures unchanged(this) && Linked(buckets[bucket], Without(c, j))
      ensures prev != null ==> prev.data == old(prev.data)
      ensures forall b :: 0 <= b < buckets.Length && b != bucket ==> buckets[b] == old(buckets[b])
    {
      if prev == null {
        buckets[bucket] := node.next;
      } else {
        prev.next := node.next;
      }
      SkipLinked(buckets[bucket], c, j);
    }

    // ----- visiting all entries -----

    // The nodes still hold what they held at the start of the visit.
    ghost predicate Original(nodes: set<Node>, nodeOf0: map<int, Node>, contents0: map<int, Entry>)
      reads nodes
    {
      forall n :: n in nodes ==> norm(n.key) in nodeOf0 && nodeOf0[norm(n.key)] == n
                                 && norm(n.key) in contents0 && contents0[norm(n.key)] == Entry(n.key, n.data)
    }

    // Of the nodes visited, those to be dropped are gone.
    ghost predicate Remaining(nodeOf0: map<int, Node>, contents0: map<int, Entry>, done: set<Node>, drop: (Key, int) -> bool,
                              contents: map<int, Entry>)
    {
      && contents0.Keys == nodeOf0.Keys && (forall m :: m in nodeOf0 ==> norm(nodeOf0[m].key) == m)
      && (forall m :: m in contents0 ==> (m in contents <==> !(nodeOf0[m] in done && drop(contents0[m].key, contents0[m].data))))
      && (forall m :: m in contents ==> m in contents0 && contents[m] == contents0[m])
    }

    // Every node visited was reported once.
    ghost predicate Reported(nodeOf0: map<int, Node>, contents0: map<int, Entry>, done: set<Node>, visited: seq<Entry>) {
      && contents0.Keys == nodeOf0.Keys && |visited| == |done|
      && (forall q :: 0 <= q < |visited| ==> norm(visited[q].key) in contents0 && visited[q] == contents0[norm(visited[q].key)]
                                             && nodeOf0[norm(visited[q].key)] in done)
      && (forall p, q :: 0 <= p < q < |visited| ==> norm(visited[p].key) != norm(visited[q].key))
    }

    /** assoc_array_foreach, with a function that may remove the entry it is called for:
        it is called for every entry exactly once. */
    method ForEach(drop: (Key, int) -> bool) returns (visited: seq<Entry>)
      requires Valid()
      modifies this, buckets, nodes
      ensures Valid() && |visited| == |old(contents)|
      ensures forall q :: 0 <= q < |visited| ==> norm(visited[q].key) in old(contents) && visited[q] == old(contents)[norm(visited[q].key)]
      ensures forall p, q :: 0 <= p < q < |visited| ==> norm(visited[p].key) != norm(visited[q].key)
      ensures contents == map m | m in old(contents) && !drop(old(contents)[m].key, old(contents)[m].data) :: old(contents)[m]
    {
      hide Placed, Linked, Holds, Remaining, Reported, Original, Values;
      visited := [];
      ghost var nodes0, nodeOf0, contents0, chains0 := nodes, nodeOf, contents, chains;
      ghost var done: set<Node> := {};
      AllNodes(nodes, nodeOf, contents);
      StartVisit(nodes, nodeOf, contents, drop);
      var i := 0;
      while i < buckets.Length
        invariant 0 <= i <= buckets.Length && Valid() && buckets == old(buckets) && sizeBits == old(sizeBits)
        invariant |chains| == |chains0| && forall b :: i <= b < |chains| ==> chains[b] == chains0[b]
        invariant nodes <= nodes0 && Original(nodes, nodeOf0, contents0)
        invariant Remaining(nodeOf0, contents0, done, drop, contents) && Reported(nodeOf0, contents0, done, visited)
        invariant forall n :: n in done <==> n in nodes0 && Fold(n.hash, sizeBits) < i
      {
        EachOnce(chains0, sizeBits, nodes0, i);
        visited, done := VisitChain(drop, i, visited, nodeOf0, contents0, done);
        i := i + 1;
      }
      assert done == nodes0;
      FinishVisit(nodes0, nodeOf0, contents0, drop, contents, visited);
    }

    lemma StartVisit(nodes: set<Node>, nodeOf: map<int, Node>, contents: map<int, Entry>, drop: (Key, int) -> bool)
      requires Holds(norm, hashOf, nodes, nodeOf, contents)
      ensures Original(nodes, nodeOf, contents) && Remaining(nodeOf, contents, {}, drop, contents)
      ensures Reported(nodeOf, contents, {}, [])
      ensures Values(nodeOf, nodes)
    {
      forall n | n in nodes
        ensures norm(n.key) in nodeOf && nodeOf[norm(n.key)] == n
        ensures norm(n.key) in contents && contents[norm(n.key)] == Entry(n.key, n.data)
      {
        KnownNode(nodes, nodeOf, contents, n);
      }
    }

    // What a visit to all nodes has done.
    lemma FinishVisit(nodes0: set<Node>, nodeOf0: map<int, Node>, contents0: map<int, Entry>, drop: (Key, int) -> bool,
                      contents: map<int, Entry>, visited: seq<Entry>)
      requires Remaining(nodeOf0, contents0, nodes0, drop, contents) && Reported(nodeOf0, contents0, nodes0, visited)
      requires |nodes0| == |contents0| && Values(nodeOf0, nodes0)
      ensures |visited| == |contents0|
      ensures forall q :: 0 <= q < |visited| ==> norm(visited[q].key) in contents0 && visited[q] == contents0[norm(visited[q].key)]
      ensures forall p, q :: 0 <= p < q < |visited| ==> norm(visited[p].key) != norm(visited[q].key)
      ensures contents == map m | m in contents0 && !drop(contents0[m].key, contents0[m].data) :: contents0[m]
    {
      var kept := map m | m in contents0 && !drop(contents0[m].key, contents0[m].data) :: contents0[m];
      forall m ensures m in contents <==> m in kept {
        if m in contents0 {
          assert m in nodeOf0.Keys && m in nodeOf0;
        }
      }
      forall m | m in contents ensures contents[m] == kept[m] {
      }
      assert contents == kept;
    }

    ghost predicate Values(nodeOf: map<int, Node>, nodes: set<Node>) {
      forall m :: m in nodeOf ==> nodeOf[m] in nodes
    }

    lemma NoNodes(nodeOf: map<int, Node>, contents: map<int, Entry>)
      requires Holds(norm, hashOf, {}, nodeOf, contents)
      ensures contents == map[]
    {
      assert forall m :: m !in nodeOf.Keys;
      assert nodeOf.Keys == {} == contents.Keys;
    }

    lemma {:induction false} AllNodes(nodes: set<Node>, nodeOf: map<int, Node>, contents: map<int, Entry>)
      requires Holds(norm, hashOf, nodes, nodeOf, contents)
      ensures |nodes| == |contents|
      decreases nodes
    {
      if nodes == {} {
        NoNodes(nodeOf, contents);
      } else {
        var n :| n in nodes;
        HoldsLess(norm, hashOf, nodes, nodeOf, contents, n);
        SizeLess(contents, norm(n.key));
        AllNodes(nodes - {n}, nodeOf - {norm(n.key)}, contents - {norm(n.key)});
      }
    }

    // Visits the entries of one bucket.
    method VisitChain(drop: (Key, int) -> bool, i: nat, visited: seq<Entry>,
                      ghost nodeOf0: map<int, Node>, ghost contents0: map<int, Entry>, ghost done: set<Node>)
      returns (visited': seq<Entry>, ghost done': set<Node>)
      requires Valid() && i < buckets.Length && Original(nodes, nodeOf0, contents0)
      requires Remaining(nodeOf0, contents0, done, drop, contents) && Reported(nodeOf0, contents0, done, visited)
      requires forall n :: n in chains[i] ==> n !in done
      modifies this, buckets, nodes
      ensures Valid() && buckets == old(buckets) && sizeBits == old(sizeBits) && nodes <= old(nodes)
      ensures |chains| == |old(chains)| && forall b :: 0 <= b < |chains| && b != i ==> chains[b] == old(chains[b])
      ensures Original(nodes, nodeOf0, contents0)
      ensures Remaining(nodeOf0, contents0, done', drop, contents) && Reported(nodeOf0, contents0, done', visited')
      ensures forall n :: n in done' <==> n in done || n in old(chains[i])
    {
      hide Placed, Linked, Holds, Remaining, Reported, Original;
      visited', done' := visited, done;
      ghost var c, k := chains[i], 0;
      EachOnce(chains, sizeBits, nodes, i);
      var node := Head(i);
      while node != null
        invariant 0 <= k <= |c| && node == At(c, k)
        invariant Valid() && buckets == old(buckets) && sizeBits == old(sizeBits) && nodes <= old(nodes)
        invariant |chains| == |old(chains)| && forall b :: 0 <= b < |chains| && b != i ==> chains[b] == old(chains[b])
        invariant Suffix(chains[i], c, k)
        invariant Original(nodes, nodeOf0, contents0)
        invariant Remaining(nodeOf0, contents0, done', drop, contents) && Reported(nodeOf0, contents0, done', visited')
        invariant forall j :: k <= j < |c| ==> c[j] !in done'
        invariant forall n :: n in done' ==> n in done || n in c
        invariant done <= done' && forall j :: 0 <= j < k ==> c[j] in done'
        decreases |c| - k
      {
        node, visited' := Visit(drop, i, node, visited', c, k, nodeOf0, contents0, done');
        done' := done' + {c[k]};
        k := k + 1;
      }
    }

    method Head(i: nat) returns (node: Node?)
      requires Hung(buckets, chains, sizeBits, nodes) && i < |chains|
      ensures node == At(chains[i], 0)
    {
      assert Linked(buckets[i], chains[i]);
      node := buckets[i];
    }

    lemma EachOnce(chains: seq<seq<Node>>, bits: nat, nodes: set<Node>, i: nat)
      requires Placed(chains, bits, nodes) && i < |chains|
      ensures NoDuplicates(chains[i])
      ensures forall n :: n in chains[i] <==> n in nodes && Fold(n.hash, bits) == i
    {
    }

    // The chain now ends with the nodes of c from k on.
    ghost predicate Suffix(now: seq<Node>, c: seq<Node>, k: nat) {
      k <= |c| && |c| - k <= |now| && now[|now| - (|c| - k)..] == c[k..]
    }

    // Visits one entry, and goes on to the next.
    method Visit(drop: (Key, int) -> bool, i: nat, node: Node, visited: seq<Entry>, ghost c: seq<Node>, ghost k: nat,
                 ghost nodeOf0: map<int, Node>, ghost contents0: map<int, Entry>, ghost done: set<Node>)
      returns (next: Node?, visited': seq<Entry>)
      requires Valid() && i < |chains| && k < |c| && node == c[k] && Suffix(chains[i], c, k) && node !in done
      requires Original(nodes, nodeOf0, contents0)
      requires Remaining(nodeOf0, contents0, done, drop, contents) && Reported(nodeOf0, contents0, done, visited)
      modifies this, buckets, nodes
      ensures next == At(c, k + 1)
      ensures Valid() && buckets == old(buckets) && sizeBits == old(sizeBits) && nodes <= old(nodes)
      ensures |chains| == |old(chains)| && forall b :: 0 <= b < |chains| && b != i ==> chains[b] == old(chains[b])
      ensures Suffix(chains[i], c, k + 1)
      ensures Original(nodes, nodeOf0, contents0)
      ensures Remaining(nodeOf0, contents0, done + {node}, drop, contents) && Reported(nodeOf0, contents0, done + {node}, visited')
    {
      hide Placed, Linked, Holds;
      ghost var p := |chains[i]| - (|c| - k);
      SuffixAt(chains[i], c, k);
      ChainOf(chains, sizeBits, nodes, i, p);
      next := NextOf(node, i, p);
      visited' := visited + [Entry(node.key, node.data)];
      ReportsOne(nodeOf0, contents0, done, visited, node);
      if drop(node.key, node.data) {
        RemainingDropped(nodeOf0, contents0, done, drop, contents, node);
        KnownNode(nodes, nodeOf, contents, node);
        SuffixWithout(chains[i], c, k);
        RemoveKnown(node, i, p);
      } else {
        RemainingKept(nodeOf0, contents0, done, drop, contents, node);
      }
    }

    // Removing a node's key takes it out of its place.
    method RemoveKnown(node: Node, ghost i: nat, ghost p: nat)
      requires Valid() && i < |chains| && p < |chains[i]| && node == chains[i][p]
      modifies this, buckets, nodes
      ensures Valid() && buckets == old(buckets) && sizeBits == old(sizeBits) && nodes <= old(nodes)
      ensures chains == old(chains)[i := Without(old(chains[i]), p)]
      ensures contents == old(contents) - {norm(node.key)}
      ensures forall n :: n in old(nodes) ==> n.data == old(n.data)
    {
      hide Placed, Linked, Holds;
      ChainOf(chains, sizeBits, nodes, i, p);
      KnownNode(nodes, nodeOf, contents, node);
      OnePlace(chains, sizeBits, nodes, nodeOf, contents, norm(node.key), i, p);
      var found;
      ghost var bucket, j;
      found, bucket, j := Remove(node.key);
    }

    // The only place of a norm.
    lemma OnePlace(chains: seq<seq<Node>>, bits: nat, nodes: set<Node>, nodeOf: map<int, Node>, contents: map<int, Entry>,
                   m: int, i: nat, p: nat)
      requires Placed(chains, bits, nodes) && Holds(norm, hashOf, nodes, nodeOf, contents)
      requires i < |chains| && p < |chains[i]| && norm(chains[i][p].key) == m
      ensures forall b, j :: 0 <= b < |chains| && 0 <= j < |chains[b]| && norm(chains[b][j].key) == m ==> b == i && j == p
    {
      ChainOf(chains, bits, nodes, i, p);
      forall b, j | 0 <= b < |chains| && 0 <= j < |chains[b]| && norm(chains[b][j].key) == m ensures b == i && j == p {
        ChainOf(chains, bits, nodes, b, j);
        assert chains[b][j] == nodeOf[m] == chains[i][p];
      }
    }

    lemma KnownNode(nodes: set<Node>, nodeOf: map<int, Node>, contents: map<int, Entry>, node: Node)
      requires Holds(norm, hashOf, nodes, nodeOf, contents) && node in nodes
      ensures norm(node.key) in nodeOf && nodeOf[norm(node.key)] == node
      ensures norm(node.key) in contents && contents[norm(node.key)] == Entry(node.key, node.data)
    {
      var m := norm(node.key);
      assert m in nodeOf.Keys && nodeOf[m] == node;
      assert m in contents;
    }

    lemma ReportsOne(nodeOf0: map<int, Node>, contents0: map<int, Entry>, done: set<Node>, visited: seq<Entry>, node: Node)
      requires Reported(nodeOf0, contents0, done, visited) && node !in done && Original({node}, nodeOf0, contents0)
      ensures Reported(nodeOf0, contents0, done + {node}, visited + [Entry(node.key, node.data)])
    {
    }

    lemma RemainingDropped(nodeOf0: map<int, Node>, contents0: map<int, Entry>, done: set<Node>, drop: (Key, int) -> bool,
                           contents: map<int, Entry>, node: Node)
      requires Remaining(nodeOf0, contents0, done, drop, contents) && Original({node}, nodeOf0, contents0) && drop(node.key, node.data)
      ensures Remaining(nodeOf0, contents0, done + {node}, drop, contents - {norm(node.key)})
    {
    }

    lemma RemainingKept(nodeOf0: map<int, Node>, contents0: map<int, Entry>, done: set<Node>, drop: (Key, int) -> bool,
                        contents: map<int, Entry>, node: Node)
      requires Remaining(nodeOf0, contents0, done, drop, contents) && Original({node}, nodeOf0, contents0) && !drop(node.key, node.data)
      ensures Remaining(nodeOf0, contents0, done + {node}, drop, contents)
    {
    }

    lemma SuffixAt(now: seq<Node>, c: seq<Node>, k: nat)
      requires Suffix(now, c, k) && k < |c|
      ensures var p := |now| - (|c| - k);
              0 <= p < |now| && now[p] == c[k] && At(now, p + 1) == At(c, k + 1) && Suffix(now, c, k + 1)
    {
      var p := |now| - (|c| - k);
      assert forall j :: 0 <= j < |c| - k ==> now[p + j] == now[p..][j] == c[k..][j];
      assert now[p] == now[p..][0] == c[k..][0];
      assert now[p + 1..] == now[p..][1..] && c[k + 1..] == c[k..][1..];
      if k + 1 < |c| { assert now[p + 1] == now[p..][1] == c[k..][1]; }
    }

    lemma SuffixWithout(now: seq<Node>, c: seq<Node>, k: nat)
      requires Suffix(now, c, k) && k < |c|
      ensures var p := |now| - (|c| - k); 0 <= p < |now| && Suffix(Without(now, p), c, k + 1)
    {
      SuffixAt(now, c, k);
      var p := |now| - (|c| - k);
      assert Without(now, p)[p..] == now[p + 1..];
    }

    method NextOf(node: Node, ghost i: nat, ghost p: nat) returns (next: Node?)
      requires Hung(buckets, chains, sizeBits, nodes) && i < |chains| && p < |chains[i]| && node == chains[i][p]
      ensures next == At(chains[i], p + 1)
    {
      assert Linked(buckets[i], chains[i]);
      next := node.next;
    }

    // A new node, at the head of its bucket.
    method Insert(key: Key, data: int) returns (node: Node)
      requires Valid() && norm(key) !in contents && used * 3 < BitsSize(sizeBits) * 2
      modifies this, buckets
      ensures Valid() && fresh(node) && nodes == old(nodes) + {node} && buckets == old(buckets) && node.key == key
      ensures contents == old(contents)[norm(key) := Entry(key, data)]
    {
      hide Placed, Linked, Holds;
      var hash := hashOf(norm(key));
      node := new Node(buckets[Fold(hash, sizeBits)], hash, key, data);
      ghost var newChains := Link(buckets, chains, sizeBits, nodes, node);
      HoldsMore(norm, hashOf, nodes, nodeOf, contents, node);
      Become(newChains, nodes + {node}, nodeOf[norm(key) := node], contents[norm(key) := Entry(key, data)], used + 1);
    }
  }

  // ----- whole runs -----

  datatype Operation = SetOp(key: Key, data: int) | ForceOp(key: Key) | RemoveOp(key: Key) | LookupOp(key: Key)

  // What an operation does to a map from norms.
  function Applied(norm: Key -> int, op: Operation, m: map<int, Entry>): map<int, Entry> {
    var n := norm(op.key);
    match op
    case SetOp(k, d) => m[n := Entry(if n in m then m[n].key else k, d)]
    case ForceOp(k) => if n in m then m else m[n := Entry(k, 0)]
    case RemoveOp(_) => m - {n}
    case LookupOp(_) => m
  }

  // What a lookup finds, where the operation is one.
  function Found(norm: Key -> int, op: Operation, m: map<int, Entry>): Option<Entry> {
    if op.LookupOp? && norm(op.key) in m then Some(m[norm(op.key)]) else None
  }

  function AllApplied(norm: Key -> int, ops: seq<Operation>, m: map<int, Entry>): map<int, Entry> {
    if ops == [] then m else Applied(norm, ops[|ops|-1], AllApplied(norm, ops[..|ops|-1], m))
  }

  /** Any sequence of operations on an empty table acts as on a finite map. */
  method Perform(norm: Key -> int, hashOf: int -> nat, ops: seq<Operation>) returns (t: Table, found: seq<Option<Entry>>)
    ensures fresh(t) && t.Valid() && t.contents == AllApplied(norm, ops, map[]) && |found| == |ops|
    ensures forall i :: 0 <= i < |ops| ==> found[i] == Found(norm, ops[i], AllApplied(norm, ops[..i], map[]))
  {
    hide Placed, Linked, Holds, Hung, Applied, AllApplied, Found;
    t := new Table(norm, hashOf);
    found := [];
    NothingApplied(norm);
    var i := 0;
    while i < |ops|
      invariant 0 <= i <= |ops| && |found| == i && fresh(t) && fresh(t.buckets) && fresh(t.nodes)
      invariant t.Valid() && t.norm == norm && t.contents == AllApplied(norm, ops[..i], map[])
      invariant forall j :: 0 <= j < i ==> found[j] == Found(norm, ops[j], AllApplied(norm, ops[..j], map[]))
    {
      OneMore(norm, ops, i);
      var r := PerformOne(t, ops[i]);
      found := found + [r];
      i := i + 1;
    }
    assert ops[..i] == ops;
  }

  lemma NothingApplied(norm: Key -> int)
    ensures AllApplied(norm, [], map[]) == map[]
  {
  }

  lemma OneMore(norm: Key -> int, ops: seq<Operation>, i: nat)
    requires i < |ops|
    ensures AllApplied(norm, ops[..i + 1], map[]) == Applied(norm, ops[i], AllApplied(norm, ops[..i], map[]))
  {
    assert ops[..i + 1][..i] == ops[..i];
  }

  method PerformOne(t: Table, op: Operation) returns (r: Option<Entry>)
    requires t.Valid()
    modifies t, t.buckets, t.nodes
    ensures t.Valid() && fresh(t.nodes - old(t.nodes)) && (t.buckets == old(t.buckets) || fresh(t.buckets))
    ensures t.contents == Applied(t.norm, op, old(t.contents)) && r == Found(t.norm, op, old(t.contents))
  {
    hide Placed, Linked, Holds, Hung;
    r := None;
    match op
    case SetOp(k, d) => t.Set(k, d);
    case ForceOp(k) => var node := t.ForceRef(k);
    case RemoveOp(k) =>
      var ok;
      ghost var bucket, j;
      ok, bucket, j := t.Remove(k);
    case LookupOp(k) =>
      var ok, key, data := t.Lookup(k);
      if ok { r := Some(Entry(key, data)); }
  }

  // At most one entry more than two thirds of the buckets.
  predicate Loaded(used: nat, size: nat) {
    used == 0 || used * 3 < size * 2 + 3
  }

  lemma Doubled(used: nat, bits: nat)
    requires Loaded(used, BitsSize(bits)) && (bits == 0 || bits >= 4)
    ensures var bits' := if bits != 0 then bits + 1 else 4; used * 3 < BitsSize(bits') * 2
  {
    assert Pow2(4) == 2 * Pow2(3) == 16;
    if bits != 0 {
      assert Pow2(bits + 1) == 2 * Pow2(bits);
      PowLarge(bits);
    }
  }

  lemma {:induction false} PowLarge(bits: nat)
    requires bits >= 4
    ensures Pow2(bits) >= 16
  {
    if bits == 4 {
      assert Pow2(4) == 2 * Pow2(3) == 16;
    } else {
      PowLarge(bits - 1);
    }
  }
}
