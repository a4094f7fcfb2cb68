/**
 The chained hash table over a fixed pool of nodes.  The table is one block of memory:
 bucket heads at addresses 0 .. B-1, nodes at B .. B+N-1, and the two links of each as
 addresses, so the circular lists are updated in place as the source does.
 */
module HashTable {
  import opened Options

  const NULL: int := -1

  datatype Config<!K> = Config(buckets: nat, nodes: nat, hash: K -> nat) {
    function Size(): nat { buckets + nodes }
    predicate IsNode(a: int) { buckets <= a < buckets + nodes }

    /** The hash value is cut to the number of buckets. */
    function Bucket(k: K): (b: nat)
      ensures buckets > 0 ==> b < buckets
    {
      if buckets == 0 then 0 else hash(k) % buckets
    }
  }

  /** Links and contents, by address (the contents of heads are not used). */
  datatype Memory<K, V> = Memory(next: seq<int>, prev: seq<int>, keys: seq<K>, vals: seq<V>)

  // ---------------------------------------------------------------- one circular list

  /** The address i places after the head `b` of a list with nodes `l`. */
  function At(b: int, l: seq<int>, i: int): int
  {
    if 0 <= i < |l| then l[i] else b
  }

  /** Head and nodes are linked in a circle, forwards and backwards. */
  ghost predicate Circular(next: seq<int>, prev: seq<int>, b: int, l: seq<int>)
  {
    && 0 <= b < |next| == |prev|
    && (forall i :: 0 <= i < |l| ==> 0 <= l[i] < |next| && l[i] != b)
    && (forall i, j :: 0 <= i < j < |l| ==> l[i] != l[j])
    && (forall i {:trigger next[At(b, l, i)]} :: -1 <= i < |l| ==> next[At(b, l, i)] == At(b, l, i + 1))
    && (forall i {:trigger prev[At(b, l, i)]} :: 0 <= i <= |l| ==> prev[At(b, l, i)] == At(b, l, i - 1))
  }

  /** odph_list_add: a new node right after the head. */
  function LinkNext(next: seq<int>, b: int, n: int): (r: seq<int>)
    requires 0 <= b < |next| && 0 <= n < |next|
    ensures |r| == |next|
  {
    next[n := next[b]][b := n]
  }

  function LinkPrev(next: seq<int>, prev: seq<int>, b: int, n: int): (r: seq<int>)
    requires 0 <= b < |next| == |prev| && 0 <= n < |prev| && 0 <= next[b] < |prev|
    ensures |r| == |prev|
  {
    prev[next[b] := n][n := b]
  }

  lemma AddKeepsCircle(next: seq<int>, prev: seq<int>, b: int, l: seq<int>, n: int)
    requires Circular(next, prev, b, l) && 0 <= n < |next| && n != b && n !in l
    ensures 0 <= next[b] < |prev|
    ensures Circular(LinkNext(next, b, n), LinkPrev(next, prev, b, n), b, [n] + l)
  {
    assert next[At(b, l, -1)] == At(b, l, 0);
    var next', prev', l' := LinkNext(next, b, n), LinkPrev(next, prev, b, n), [n] + l;
    assert forall i :: 0 <= i <= |l| ==> At(b, l', i + 1) == At(b, l, i);
    forall i | -1 <= i < |l'|
      ensures next'[At(b, l', i)] == At(b, l', i + 1)
    {
      if i >= 1 { assert next[At(b, l, i - 1)] == At(b, l, i); }
    }
    forall i | 0 <= i <= |l'|
      ensures prev'[At(b, l', i)] == At(b, l', i - 1)
    {
      if i >= 2 { assert prev[At(b, l, i - 1)] == At(b, l, i - 2); }
    }
  }

  /** A list untouched by the change of other addresses stays a circle. */
  lemma CircleFrame(next: seq<int>, prev: seq<int>, next': seq<int>, prev': seq<int>, b: int, l: seq<int>)
    requires Circular(next, prev, b, l) && |next'| == |next| && |prev'| == |prev|
    requires next'[b] == next[b] && prev'[b] == prev[b]
    requires forall i :: 0 <= i < |l| ==> next'[l[i]] == next[l[i]] && prev'[l[i]] == prev[l[i]]
    ensures Circular(next', prev', b, l)
  {
    forall i | -1 <= i < |l|
      ensures next'[At(b, l, i)] == At(b, l, i + 1)
    {
      assert next[At(b, l, i)] == At(b, l, i + 1);
    }
    forall i | 0 <= i <= |l|
      ensures prev'[At(b, l, i)] == At(b, l, i - 1)
    {
      assert prev[At(b, l, i)] == At(b, l, i - 1);
    }
  }

  /** The nodes without the one at position k. */
  function Without(l: seq<int>, k: nat): (r: seq<int>)
    requires k < |l|
    ensures |r| == |l| - 1 && forall i :: 0 <= i < |r| ==> r[i] == l[if i < k then i else i + 1]
  {
    l[..k] + l[k + 1..]
  }

  /** odph_list_del and the clearing of the node: its neighbours are linked to each other. */
  lemma DelKeepsCircle(next: seq<int>, prev: seq<int>, b: int, l: seq<int>, k: nat)
    requires Circular(next, prev, b, l) && k < |l|
    ensures var n := l[k];
            && 0 <= next[n] < |next| && 0 <= prev[n] < |next|
            && Circular(next[prev[n] := next[n]][n := NULL], prev[next[n] := prev[n]][n := NULL], b, Without(l, k))
  {
    var n, r := l[k], Without(l, k);
    assert next[At(b, l, k)] == At(b, l, k + 1);
    assert prev[At(b, l, k)] == At(b, l, k - 1);
    var next', prev' := next[prev[n] := next[n]][n := NULL], prev[next[n] := prev[n]][n := NULL];
    forall i | -1 <= i < |r|
      ensures next'[At(b, r, i)] == At(b, r, i + 1)
    {
      assert next[At(b, l, i)] == At(b, l, i + 1);
      assert next[At(b, l, i + 1)] == At(b, l, i + 2);
    }
    forall i | 0 <= i <= |r|
      ensures prev'[At(b, r, i)] == At(b, r, i - 1)
    {
      assert prev[At(b, l, i)] == At(b, l, i - 1);
      assert prev[At(b, l, i + 1)] == At(b, l, i);
    }
  }

  // ---------------------------------------------------------------- the table

  /** A node of the pool is available while both its links are null. */
  predicate IsFree<K, V>(m: Memory<K, V>, n: int)
    requires 0 <= n < |m.next| == |m.prev|
  {
    m.next[n] == NULL && m.prev[n] == NULL
  }

  ghost predicate Sized<K, V>(c: Config<K>, m: Memory<K, V>, lists: seq<seq<int>>)
  {
    |m.next| == |m.prev| == |m.keys| == |m.vals| == c.Size() && |lists| == c.buckets
  }

  ghost function FreeNodes<K, V>(c: Config<K>, m: Memory<K, V>): set<int>
    requires |m.next| == |m.prev| == c.Size()
  {
    set n | c.buckets <= n < c.Size() && IsFree(m, n)
  }

  /** Bucket b: a circle of nodes whose keys hash to b, are different, and map as they say. */
  ghost predicate BucketOk<K, V>(c: Config<K>, m: Memory<K, V>, l: seq<int>, b: nat, model: map<K, V>)
    requires |m.next| == |m.prev| == |m.keys| == |m.vals| == c.Size()
  {
    && Circular(m.next, m.prev, b, l)
    && (forall i :: 0 <= i < |l| ==>
          c.IsNode(l[i]) && c.Bucket(m.keys[l[i]]) == b && m.keys[l[i]] in model && model[m.keys[l[i]]] == m.vals[l[i]])
    && (forall i, j :: 0 <= i < j < |l| ==> m.keys[l[i]] != m.keys[l[j]])
  }

  /** The key is found in its bucket. */
  ghost predicate Found<K, V>(c: Config<K>, m: Memory<K, V>, lists: seq<seq<int>>, k: K)
    requires Sized(c, m, lists)
  {
    c.Bucket(k) < c.buckets && exists n :: n in lists[c.Bucket(k)] && 0 <= n < c.Size() && m.keys[n] == k
  }

  /** The node is free, or in the bucket of its key. */
  ghost predicate NodeOk<K, V>(c: Config<K>, m: Memory<K, V>, lists: seq<seq<int>>, n: int)
    requires Sized(c, m, lists) && c.IsNode(n)
  {
    IsFree(m, n) || (c.Bucket(m.keys[n]) < c.buckets && n in lists[c.Bucket(m.keys[n])])
  }

  ghost predicate BucketsOk<K, V>(c: Config<K>, m: Memory<K, V>, lists: seq<seq<int>>, model: map<K, V>)
    requires Sized(c, m, lists)
  {
    forall b {:trigger BucketOk(c, m, lists[b], b, model)} :: 0 <= b < c.buckets ==> BucketOk(c, m, lists[b], b, model)
  }

  ghost predicate NodesOk<K, V>(c: Config<K>, m: Memory<K, V>, lists: seq<seq<int>>)
    requires Sized(c, m, lists)
  {
    forall n :: c.IsNode(n) ==> NodeOk(c, m, lists, n)
  }

  ghost predicate KeysOk<K, V>(c: Config<K>, m: Memory<K, V>, lists: seq<seq<int>>, model: map<K, V>)
    requires Sized(c, m, lists)
  {
    forall k :: k in model ==> Found(c, m, lists, k)
  }

  /** The table represents the map. */
  ghost predicate Represents<K, V>(c: Config<K>, m: Memory<K, V>, lists: seq<seq<int>>, model: map<K, V>)
  {
    && Sized(c, m, lists)
    && BucketsOk(c, m, lists, model)
    && NodesOk(c, m, lists)
    && KeysOk(c, m, lists, model)
    && |model| + |FreeNodes(c, m)| == c.nodes
  }

  /** A key of the map is the key of a node in its bucket. */
  lemma KeyInBucket<K, V>(c: Config<K>, m: Memory<K, V>, lists: seq<seq<int>>, model: map<K, V>, k: K)
    requires Represents(c, m, lists, model) && c.Bucket(k) < c.buckets
    ensures k in model ==>
              exists i :: 0 <= i < |lists[c.Bucket(k)]| && 0 <= lists[c.Bucket(k)][i] < c.Size()
                  && m.keys[lists[c.Bucket(k)][i]] == k
  {
    if k in model {
      assert Found(c, m, lists, k);
    }
  }

  /** What the head of a bucket points to, and that its nodes are not free. */
  lemma BucketLinks<K, V>(c: Config<K>, m: Memory<K, V>, l: seq<int>, b: nat, model: map<K, V>)
    requires |m.next| == |m.prev| == |m.keys| == |m.vals| == c.Size()
    requires BucketOk(c, m, l, b, model)
    ensures m.next[b] == (if l == [] then b else l[0])
    ensures forall i :: 0 <= i < |l| ==> c.IsNode(l[i]) && !IsFree(m, l[i])
  {
    assert m.next[At(b, l, -1)] == At(b, l, 0);
    forall i | 0 <= i < |l|
      ensures !IsFree(m, l[i])
    {
      assert m.next[At(b, l, i)] == At(b, l, i + 1);
    }
  }

  ghost predicate Unlisted(lists: seq<seq<int>>, n: int)
  {
    forall b :: 0 <= b < |lists| ==> n !in lists[b]
  }

  lemma FreeIsUnlisted<K, V>(c: Config<K>, m: Memory<K, V>, lists: seq<seq<int>>, model: map<K, V>, n: int)
    requires Sized(c, m, lists) && BucketsOk(c, m, lists, model) && c.IsNode(n) && IsFree(m, n)
    ensures Unlisted(lists, n)
  {
    forall b | 0 <= b < |lists|
      ensures n !in lists[b]
    {
      assert BucketOk(c, m, lists[b], b, model);
      BucketLinks(c, m, lists[b], b, model);
    }
  }

  // ---------------------------------------------------------------- overwriting

  /** Overwriting the value of a listed node, seen from one bucket. */
  lemma UpdateBucket<K, V>(c: Config<K>, m: Memory<K, V>, l: seq<int>, b: nat, model: map<K, V>, n: int, v: V)
    requires |m.next| == |m.prev| == |m.keys| == |m.vals| == c.Size() && c.IsNode(n)
    requires BucketOk(c, m, l, b, model) && (c.Bucket(m.keys[n]) == b ==> n in l)
    ensures BucketOk(c, m.(vals := m.vals[n := v]), l, b, model[m.keys[n] := v])
  {
    if n in l {
      var k :| 0 <= k < |l| && l[k] == n;
    }
  }

  /** Overwriting the value of a listed node updates the map. */
  lemma UpdateValue<K, V>(c: Config<K>, m: Memory<K, V>, lists: seq<seq<int>>, model: map<K, V>, n: int, v: V)
    requires Represents(c, m, lists, model) && c.IsNode(n) && c.Bucket(m.keys[n]) < c.buckets
    requires n in lists[c.Bucket(m.keys[n])]
    ensures Represents(c, m.(vals := m.vals[n := v]), lists, model[m.keys[n] := v])
  {
    var m', model' := m.(vals := m.vals[n := v]), model[m.keys[n] := v];
    var h := c.Bucket(m.keys[n]);
    assert m.keys[n] in model by {
      assert BucketOk(c, m, lists[h], h, model);
    }
    assert BucketsOk(c, m', lists, model') by {
      forall b | 0 <= b < c.buckets
        ensures BucketOk(c, m', lists[b], b, model')
      {
        assert BucketOk(c, m, lists[b], b, model);
        UpdateBucket(c, m, lists[b], b, model, n, v);
      }
    }
    UpdateRest(c, m, lists, model, n, v);
  }

  lemma UpdateRest<K, V>(c: Config<K>, m: Memory<K, V>, lists: seq<seq<int>>, model: map<K, V>, n: int, v: V)
    requires Sized(c, m, lists) && NodesOk(c, m, lists) && KeysOk(c, m, lists, model) && c.IsNode(n)
    requires m.keys[n] in model
    ensures NodesOk(c, m.(vals := m.vals[n := v]), lists)
    ensures KeysOk(c, m.(vals := m.vals[n := v]), lists, model[m.keys[n] := v])
    ensures |model[m.keys[n] := v]| == |model| && FreeNodes(c, m.(vals := m.vals[n := v])) == FreeNodes(c, m)
  {
    var m', model' := m.(vals := m.vals[n := v]), model[m.keys[n] := v];
    assert model'.Keys == model.Keys;
    forall x | c.IsNode(x) ensures NodeOk(c, m', lists, x) { assert NodeOk(c, m, lists, x); }
    forall q | q in model' ensures Found(c, m', lists, q) { assert Found(c, m, lists, q); }
  }

  // ---------------------------------------------------------------- adding

  /** Memory after a free node n has been filled and put in front of bucket b. */
  function Added<K, V>(m: Memory<K, V>, b: int, n: int, k: K, v: V): (r: Memory<K, V>)
    requires |m.next| == |m.prev| == |m.keys| == |m.vals| && 0 <= b < |m.next| && 0 <= n < |m.next|
    requires 0 <= m.next[b] < |m.prev|
  {
    Memory(LinkNext(m.next, b, n), LinkPrev(m.next, m.prev, b, n), m.keys[n := k], m.vals[n := v])
  }

  /** Bucket b does not notice a node added to another. */
  lemma AddOtherBucket<K, V>(c: Config<K>, m: Memory<K, V>, l: seq<int>, b: nat, model: map<K, V>,
                             h: nat, n: int, k: K, v: V)
    requires |m.next| == |m.prev| == |m.keys| == |m.vals| == c.Size() && b < c.buckets && h < c.buckets && b != h
    requires BucketOk(c, m, l, b, model) && c.IsNode(n) && n !in l && k !in model
    requires 0 <= m.next[h] < c.Size() && m.next[h] != b && m.next[h] !in l
    ensures BucketOk(c, Added(m, h, n, k, v), l, b, model[k := v])
  {
    var m' := Added(m, h, n, k, v);
    CircleFrame(m.next, m.prev, m'.next, m'.prev, b, l);
  }

  lemma AddOwnBucket<K, V>(c: Config<K>, m: Memory<K, V>, l: seq<int>, h: nat, model: map<K, V>, n: int, k: K, v: V)
    requires |m.next| == |m.prev| == |m.keys| == |m.vals| == c.Size() && h < c.buckets
    requires BucketOk(c, m, l, h, model) && c.IsNode(n) && n !in l && c.Bucket(k) == h && k !in model
    ensures 0 <= m.next[h] < c.Size()
    ensures BucketOk(c, Added(m, h, n, k, v), [n] + l, h, model[k := v])
  {
    AddKeepsCircle(m.next, m.prev, h, l, n);
    var l' := [n] + l;
    forall i, j | 0 <= i < j < |l'|
      ensures m.keys[n := k][l'[i]] != m.keys[n := k][l'[j]]
    {
      assert l'[j] == l[j - 1];
      if i > 0 { assert l'[i] == l[i - 1]; }
    }
  }

  /** The first node of one bucket is in no other. */
  lemma HeadsApart<K, V>(c: Config<K>, m: Memory<K, V>, l: seq<int>, b: nat, lh: seq<int>, h: nat, model: map<K, V>)
    requires |m.next| == |m.prev| == |m.keys| == |m.vals| == c.Size() && b < c.buckets && h < c.buckets && b != h
    requires BucketOk(c, m, l, b, model) && BucketOk(c, m, lh, h, model)
    ensures 0 <= m.next[h] < c.Size() && m.next[h] != b && m.next[h] !in l
  {
    BucketLinks(c, m, lh, h, model);
    BucketLinks(c, m, l, b, model);
    assert lh != [] ==> c.Bucket(m.keys[lh[0]]) == h;
  }

  /** A free node in front of the bucket of a new key: the table then represents the larger map. */
  lemma AddNode<K, V>(c: Config<K>, m: Memory<K, V>, lists: seq<seq<int>>, model: map<K, V>, n: int, k: K, v: V)
    requires Represents(c, m, lists, model) && c.Bucket(k) < c.buckets && k !in model && c.IsNode(n) && IsFree(m, n)
    ensures 0 <= m.next[c.Bucket(k)] < c.Size()
    ensures Represents(c, Added(m, c.Bucket(k), n, k, v), lists[c.Bucket(k) := [n] + lists[c.Bucket(k)]], model[k := v])
  {
    var h := c.Bucket(k);
    assert BucketOk(c, m, lists[h], h, model);
    BucketLinks(c, m, lists[h], h, model);
    AddOwnBucket(c, m, lists[h], h, model, n, k, v);
    var m', lists', model' := Added(m, h, n, k, v), lists[h := [n] + lists[h]], model[k := v];
    assert BucketsOk(c, m', lists', model') by {
      forall b | 0 <= b < c.buckets
        ensures BucketOk(c, m', lists'[b], b, model')
      {
        if b != h {
          assert BucketOk(c, m, lists[b], b, model);
          BucketLinks(c, m, lists[b], b, model);
          HeadsApart(c, m, lists[b], b, lists[h], h, model);
          AddOtherBucket(c, m, lists[b], b, model, h, n, k, v);
        }
      }
    }
    AddNodes(c, m, lists, h, n, k, v);
    FreeIsUnlisted(c, m, lists, model, n);
    AddKeys(c, m, lists, model, n, k, v);
  }

  /** The pool after adding: one free node less, every other node where it was. */
  lemma AddNodes<K, V>(c: Config<K>, m: Memory<K, V>, lists: seq<seq<int>>, h: nat, n: int, k: K, v: V)
    requires Sized(c, m, lists) && NodesOk(c, m, lists) && c.Bucket(k) == h < c.buckets && c.IsNode(n) && IsFree(m, n)
    requires 0 <= m.next[h] < c.Size() && (c.IsNode(m.next[h]) ==> !IsFree(m, m.next[h]))
    ensures NodesOk(c, Added(m, h, n, k, v), lists[h := [n] + lists[h]])
    ensures FreeNodes(c, Added(m, h, n, k, v)) == FreeNodes(c, m) - {n}
    ensures |FreeNodes(c, Added(m, h, n, k, v))| == |FreeNodes(c, m)| - 1
  {
    var m', lists' := Added(m, h, n, k, v), lists[h := [n] + lists[h]];
    forall x | c.IsNode(x)
      ensures NodeOk(c, m', lists', x)
      ensures IsFree(m', x) <==> IsFree(m, x) && x != n
    {
      assert NodeOk(c, m, lists, x);
      if x == n { assert lists'[h][0] == n; }
    }
    assert FreeNodes(c, m') == FreeNodes(c, m) - {n} && n in FreeNodes(c, m);
  }

  lemma AddKeys<K, V>(c: Config<K>, m: Memory<K, V>, lists: seq<seq<int>>, model: map<K, V>, n: int, k: K, v: V)
    requires Sized(c, m, lists) && KeysOk(c, m, lists, model) && c.Bucket(k) < c.buckets && c.IsNode(n) && k !in model
    requires Unlisted(lists, n)
    requires 0 <= m.next[c.Bucket(k)] < c.Size()
    ensures KeysOk(c, Added(m, c.Bucket(k), n, k, v), lists[c.Bucket(k) := [n] + lists[c.Bucket(k)]], model[k := v])
    ensures |model[k := v]| == |model| + 1
  {
    var h := c.Bucket(k);
    var m', lists', model' := Added(m, h, n, k, v), lists[h := [n] + lists[h]], model[k := v];
    assert model'.Keys == model.Keys + {k};
    forall q | q in model'
      ensures Found(c, m', lists', q)
    {
      if q == k {
        assert lists'[h][0] == n && n in lists'[h] && m'.keys[n] == q;
      } else {
        assert Found(c, m, lists, q);
        var x :| x in lists[c.Bucket(q)] && 0 <= x < c.Size() && m.keys[x] == q;
        assert x in lists'[c.Bucket(q)] && m'.keys[x] == q;
      }
    }
  }

  // ---------------------------------------------------------------- removing

  /** Memory after node n has been unlinked and cleared. */
  function Removed<K, V>(m: Memory<K, V>, n: int, zeroKey: K, zeroVal: V): (r: Memory<K, V>)
    requires |m.next| == |m.prev| == |m.keys| == |m.vals| && 0 <= n < |m.next|
    requires 0 <= m.next[n] < |m.next| && 0 <= m.prev[n] < |m.next|
  {
    Memory(m.next[m.prev[n] := m.next[n]][n := NULL], m.prev[m.next[n] := m.prev[n]][n := NULL],
           m.keys[n := zeroKey], m.vals[n := zeroVal])
  }

  lemma WithoutKeeps(l: seq<int>, k: nat, x: int)
    requires k < |l| && x in l && x != l[k]
    ensures x in Without(l, k)
  {
    var i :| 0 <= i < |l| && l[i] == x;
    assert Without(l, k)[if i < k then i else i - 1] == x;
  }

  /** The neighbours of a node are the head or nodes of the same bucket. */
  lemma Neighbours<K, V>(c: Config<K>, m: Memory<K, V>, l: seq<int>, b: nat, model: map<K, V>, k: nat)
    requires |m.next| == |m.prev| == |m.keys| == |m.vals| == c.Size()
    requires BucketOk(c, m, l, b, model) && k < |l|
    ensures m.next[l[k]] == b || m.next[l[k]] in l
    ensures m.prev[l[k]] == b || m.prev[l[k]] in l
  {
    assert m.next[At(b, l, k)] == At(b, l, k + 1);
    assert m.prev[At(b, l, k)] == At(b, l, k - 1);
  }

  lemma DelOwnBucket<K, V>(c: Config<K>, m: Memory<K, V>, l: seq<int>, b: nat, model: map<K, V>, k: nat, zk: K, zv: V)
    requires |m.next| == |m.prev| == |m.keys| == |m.vals| == c.Size() && b < c.buckets
    requires BucketOk(c, m, l, b, model) && k < |l|
    ensures 0 <= m.next[l[k]] < c.Size() && 0 <= m.prev[l[k]] < c.Size()
    ensures BucketOk(c, Removed(m, l[k], zk, zv), Without(l, k), b, model - {m.keys[l[k]]})
  {
    DelKeepsCircle(m.next, m.prev, b, l, k);
    var m', r := Removed(m, l[k], zk, zv), Without(l, k);
    assert forall i :: 0 <= i < |r| ==> r[i] != l[k] && m'.keys[r[i]] == m.keys[r[i]] && m'.vals[r[i]] == m.vals[r[i]];
  }

  /** Bucket b has no node or key of another bucket h. */
  lemma BucketsApart<K, V>(c: Config<K>, m: Memory<K, V>, l: seq<int>, b: nat, lh: seq<int>, h: nat, model: map<K, V>,
                           x: int)
    requires |m.next| == |m.prev| == |m.keys| == |m.vals| == c.Size() && b < c.buckets && h < c.buckets && b != h
    requires BucketOk(c, m, l, b, model) && BucketOk(c, m, lh, h, model) && (x == h || x in lh)
    ensures x != b && x !in l
  {
  }

  lemma DelOtherBucket<K, V>(c: Config<K>, m: Memory<K, V>, l: seq<int>, b: nat, model: map<K, V>, n: int, zk: K, zv: V)
    requires |m.next| == |m.prev| == |m.keys| == |m.vals| == c.Size() && b < c.buckets
    requires BucketOk(c, m, l, b, model) && c.IsNode(n) && n !in l && c.Bucket(m.keys[n]) != b
    requires 0 <= m.next[n] < c.Size() && m.next[n] != b && m.next[n] !in l
    requires 0 <= m.prev[n] < c.Size() && m.prev[n] != b && m.prev[n] !in l
    ensures BucketOk(c, Removed(m, n, zk, zv), l, b, model - {m.keys[n]})
  {
    var m' := Removed(m, n, zk, zv);
    CircleFrame(m.next, m.prev, m'.next, m'.prev, b, l);
  }

  /** Unlinking and clearing a node: the table then represents the map without its key. */
  lemma DelNode<K, V>(c: Config<K>, m: Memory<K, V>, lists: seq<seq<int>>, model: map<K, V>, h: nat, k: nat, zk: K,
                      zv: V)
    requires Represents(c, m, lists, model) && h < c.buckets && k < |lists[h]|
    ensures var n := lists[h][k];
            && c.IsNode(n) && 0 <= m.next[n] < c.Size() && 0 <= m.prev[n] < c.Size()
            && Represents(c, Removed(m, n, zk, zv), lists[h := Without(lists[h], k)], model - {m.keys[n]})
  {
    var n := lists[h][k];
    assert BucketOk(c, m, lists[h], h, model);
    assert c.IsNode(n) && c.Bucket(m.keys[n]) == h && m.keys[n] in model;
    DelOwnBucket(c, m, lists[h], h, model, k, zk, zv);
    var m', lists', model' := Removed(m, n, zk, zv), lists[h := Without(lists[h], k)], model - {m.keys[n]};
    assert BucketsOk(c, m', lists', model') by {
      forall b | 0 <= b < c.buckets
        ensures BucketOk(c, m', lists'[b], b, model')
      {
        if b != h {
          assert BucketOk(c, m, lists[b], b, model);
          Neighbours(c, m, lists[h], h, model, k);
          BucketsApart(c, m, lists[b], b, lists[h], h, model, n);
          BucketsApart(c, m, lists[b], b, lists[h], h, model, m.next[n]);
          BucketsApart(c, m, lists[b], b, lists[h], h, model, m.prev[n]);
          DelOtherBucket(c, m, lists[b], b, model, n, zk, zv);
        }
      }
    }
    BucketLinks(c, m, lists[h], h, model);
    Neighbours(c, m, lists[h], h, model, k);
    DelNodes(c, m, lists, h, k, zk, zv);
    DelKeys(c, m, lists, model, h, k, zk, zv);
  }

  /** The pool after removing: one free node more. */
  lemma DelNodes<K, V>(c: Config<K>, m: Memory<K, V>, lists: seq<seq<int>>, h: nat, k: nat, zk: K, zv: V)
    requires Sized(c, m, lists) && NodesOk(c, m, lists) && h < c.buckets && k < |lists[h]| && c.IsNode(lists[h][k])
    requires var n := lists[h][k]; !IsFree(m, n) && 0 <= m.next[n] < c.Size() && 0 <= m.prev[n] < c.Size()
    requires forall x :: c.IsNode(x) && (x == m.next[lists[h][k]] || x == m.prev[lists[h][k]]) ==> !IsFree(m, x)
    ensures NodesOk(c, Removed(m, lists[h][k], zk, zv), lists[h := Without(lists[h], k)])
    ensures |FreeNodes(c, Removed(m, lists[h][k], zk, zv))| == |FreeNodes(c, m)| + 1
  {
    var n := lists[h][k];
    var m', lists' := Removed(m, n, zk, zv), lists[h := Without(lists[h], k)];
    forall x | c.IsNode(x)
      ensures NodeOk(c, m', lists', x)
      ensures IsFree(m', x) <==> IsFree(m, x) || x == n
    {
      assert NodeOk(c, m, lists, x);
      if x != n && x in lists[h] { WithoutKeeps(lists[h], k, x); }
    }
    assert FreeNodes(c, m') == FreeNodes(c, m) + {n} && n !in FreeNodes(c, m);
  }

  lemma DelKeys<K, V>(c: Config<K>, m: Memory<K, V>, lists: seq<seq<int>>, model: map<K, V>, h: nat, k: nat, zk: K,
                      zv: V)
    requires Sized(c, m, lists) && KeysOk(c, m, lists, model) && h < c.buckets && k < |lists[h]|
    requires c.IsNode(lists[h][k])
    requires var n := lists[h][k]; m.keys[n] in model && 0 <= m.next[n] < c.Size() && 0 <= m.prev[n] < c.Size()
    ensures KeysOk(c, Removed(m, lists[h][k], zk, zv), lists[h := Without(lists[h], k)], model - {m.keys[lists[h][k]]})
    ensures |model - {m.keys[lists[h][k]]}| == |model| - 1
  {
    var n := lists[h][k];
    var m', lists', model' := Removed(m, n, zk, zv), lists[h := Without(lists[h], k)], model - {m.keys[n]};
    assert model'.Keys == model.Keys - {m.keys[n]};
    forall q | q in model'
      ensures Found(c, m', lists', q)
    {
      assert Found(c, m, lists, q);
      var x :| x in lists[c.Bucket(q)] && 0 <= x < c.Size() && m.keys[x] == q;
      if x in lists[h] { WithoutKeeps(lists[h], k, x); }
      assert x in lists'[c.Bucket(q)] && m'.keys[x] == q;
    }
  }

  // ---------------------------------------------------------------- the empty table

  ghost function Range(lo: nat, n: nat): (r: set<int>)
    ensures |r| == n && forall x :: x in r <==> lo <= x < lo + n
  {
    if n == 0 then {} else Range(lo, n - 1) + {lo + n - 1}
  }

  lemma EmptyTable<K, V>(c: Config<K>, m: Memory<K, V>, lists: seq<seq<int>>)
    requires Sized(c, m, lists)
    requires forall b :: 0 <= b < c.buckets ==> m.next[b] == b && m.prev[b] == b && lists[b] == []
    requires forall n :: c.IsNode(n) ==> IsFree(m, n)
    ensures Represents(c, m, lists, map[])
  {
    forall b | 0 <= b < c.buckets
      ensures BucketOk(c, m, lists[b], b, map[])
    {
      assert forall i :: At(b, [], i) == b;
    }
    assert FreeNodes(c, m) == Range(c.buckets, c.nodes);
  }

  // ---------------------------------------------------------------- the table as an object

  const SUCCESS: int := 0
  const FAIL: int := -1

  class Table<K(==), V> {
    const config: Config<K>
    const valueSize: nat
    const zeroKey: K
    const zeroVal: V

    var next: array<int>
    var prev: array<int>
    var keys: array<K>
    var vals: array<V>

    ghost var lists: seq<seq<int>>
    ghost var model: map<K, V>

    ghost predicate Apart()
      reads this
    {
      && next != prev && keys as object != vals && keys as object != next && keys as object != prev
      && vals as object != next && vals as object != prev
    }

    ghost function Mem(): Memory<K, V>
      reads this, next, prev, keys, vals
    {
      Memory(next[..], prev[..], keys[..], vals[..])
    }

    ghost predicate Valid()
      reads this, next, prev, keys, vals
    {
      Apart() && config.buckets > 0 && Represents(config, Mem(), lists, model)
    }

    constructor (config: Config<K>, valueSize: nat, zeroKey: K, zeroVal: V)
      requires config.buckets > 0
      ensures Valid() && model == map[] && this.config == config && this.valueSize == valueSize
      ensures fresh(next) && fresh(prev) && fresh(keys) && fresh(vals)
    {
      this.config, this.valueSize, this.zeroKey, this.zeroVal := config, valueSize, zeroKey, zeroVal;
      next := new int[config.Size()](_ => NULL);
      prev := new int[config.Size()](_ => NULL);
      keys := new K[config.Size()](_ => zeroKey);
      vals := new V[config.Size()](_ => zeroVal);
      lists, model := seq(config.buckets, _ => []), map[];
      new;
      for i := 0 to config.buckets
        modifies next, prev
        invariant next.Length == prev.Length == keys.Length == vals.Length == config.Size()
        invariant forall b :: 0 <= b < i ==> next[b] == b && prev[b] == b
        invariant forall n :: i <= n < config.Size() ==> next[n] == NULL && prev[n] == NULL
      {
        next[i], prev[i] := i, i;
      }
      EmptyTable(config, Mem(), lists);
    }

    /** Walk of one bucket from its head. */
    method Find(k: K) returns (n: int, ghost i: nat)
      requires Valid()
      ensures n == NULL <==> k !in model
      ensures n != NULL ==> config.IsNode(n) && n < keys.Length == vals.Length && keys[n] == k
      ensures n != NULL ==> i < |lists[config.Bucket(k)]| && lists[config.Bucket(k)][i] == n
    {
      var h := config.Bucket(k);
      ghost var l := lists[h];
      assert BucketOk(config, Mem(), l, h, model);
      i := 0;
      assert Mem().next[At(h, l, -1)] == At(h, l, 0);
      n := next[h];
      while n != h
        invariant i <= |l| && n == At(h, l, i)
        invariant forall j :: 0 <= j < i ==> Mem().keys[l[j]] != k
        decreases |l| - i
      {
        if keys[n] == k {
          return;
        }
        assert Mem().next[At(h, l, i)] == At(h, l, i + 1);
        n, i := next[n], i + 1;
      }
      KeyInBucket(config, Mem(), lists, model, k);
      n := NULL;
    }

    /** The first available node of the pool. */
    method Take() returns (n: int)
      requires Valid()
      ensures n == NULL <==> |model| == config.nodes
      ensures n != NULL ==> config.IsNode(n) && IsFree(Mem(), n)
    {
      for i := config.buckets to config.Size()
        invariant forall x :: config.buckets <= x < i ==> !IsFree(Mem(), x)
      {
        if next[i] == NULL && prev[i] == NULL {
          assert i in FreeNodes(config, Mem());
          return i;
        }
      }
      assert FreeNodes(config, Mem()) == {};
      n := NULL;
    }

    /** The value of a key, if it is in the table and the buffer is large enough. */
    method Get(key: Option<K>, bufferSize: nat) returns (code: int, value: Option<V>)
      requires Valid()
      ensures code == SUCCESS <==> key.Some? && bufferSize >= valueSize && key.value in model
      ensures value == if code == SUCCESS then Some(model[key.value]) else None
      ensures code == SUCCESS || code == FAIL
    {
      if key.None? || bufferSize < valueSize {
        return FAIL, None;
      }
      var n, i := Find(key.value);
      if n == NULL {
        return FAIL, None;
      }
      assert BucketOk(config, Mem(), lists[config.Bucket(key.value)], config.Bucket(key.value), model);
      return SUCCESS, Some(vals[n]);
    }

    /** Link node n in front of bucket b: four writes, in the order of the source. */
    method ListAdd(n: int, b: int)
      requires Apart() && next.Length == prev.Length && 0 <= n < next.Length && 0 <= b < next.Length
      requires n != b && 0 <= next[b] < prev.Length && next[b] != n
      modifies next, prev
      ensures next[..] == LinkNext(old(next[..]), b, n)
      ensures prev[..] == LinkPrev(old(next[..]), old(prev[..]), b, n)
    {
      var after := next[b];
      prev[after] := n;
      next[n] := after;
      prev[n] := b;
      next[b] := n;
    }

    /** Unlink node n and clear it. */
    method Give(n: int)
      requires Apart() && next.Length == prev.Length == keys.Length == vals.Length && 0 <= n < next.Length
      requires 0 <= next[n] < next.Length && 0 <= prev[n] < next.Length
      modifies next, prev, keys, vals
      ensures Mem() == Removed(old(Mem()), n, zeroKey, zeroVal)
    {
      var before, after := prev[n], next[n];
      prev[after] := before;
      next[before] := after;
      next[n], prev[n] := n, n;
      next[n], prev[n] := NULL, NULL;
      keys[n], vals[n] := zeroKey, zeroVal;
    }

    method Put(key: Option<K>, value: Option<V>) returns (code: int)
      requires Valid()
      modifies this`lists, this`model, next, prev, keys, vals
      ensures Valid() && (code == SUCCESS || code == FAIL)
      ensures code == SUCCESS <==>
              key.Some? && value.Some? && (key.value in old(model) || |old(model)| < config.nodes)
      ensures model == if code == SUCCESS then old(model)[key.value := value.value] else old(model)
    {
      if key.None? || value.None? {
        return FAIL;
      }
      var k, v := key.value, value.value;
      var h := config.Bucket(k);
      var n, i := Find(k);
      if n != NULL {
        UpdateValue(config, Mem(), lists, model, n, v);
        ghost var m := Mem();
        vals[n] := v;
        assert Mem() == m.(vals := m.vals[n := v]);
        model := model[k := v];
        return SUCCESS;
      }
      n := Take();
      if n == NULL {
        return FAIL;
      }
      Insert(k, v, n);
      return SUCCESS;
    }

    /** Node n takes the key and the value and is linked in front of bucket b. */
    method Fill(k: K, v: V, n: int, b: int)
      requires Apart() && next.Length == prev.Length == keys.Length == vals.Length
      requires 0 <= n < next.Length && 0 <= b < next.Length
      requires n != b && 0 <= next[b] < prev.Length && next[b] != n
      modifies next, prev, keys, vals
      ensures Mem() == Added(old(Mem()), b, n, k, v)
    {
      next[n], prev[n] := n, n;
      keys[n] := k;
      vals[n] := v;
      ListAdd(n, b);
    }

    /** A new key and value into the free node n. */
    method Insert(k: K, v: V, n: int)
      requires Valid() && k !in model && config.IsNode(n) && IsFree(Mem(), n)
      modifies this`lists, this`model, next, prev, keys, vals
      ensures Valid() && model == old(model)[k := v]
    {
      ghost var m := Mem();
      var h := config.Bucket(k);
      AddNode(config, m, lists, model, n, k, v);
      assert next[h] != n by {
        assert BucketOk(config, m, lists[h], h, model);
        BucketLinks(config, m, lists[h], h, model);
      }
      Fill(k, v, n, h);
      lists, model := lists[h := [n] + lists[h]], model[k := v];
    }

    method Remove(key: Option<K>) returns (code: int)
      requires Valid()
      modifies this`lists, this`model, next, prev, keys, vals
      ensures Valid()
      ensures code == if key.Some? then SUCCESS else FAIL
      ensures model == if key.Some? then old(model) - {key.value} else old(model)
    {
      if key.None? {
        return FAIL;
      }
      var h := config.Bucket(key.value);
      var n, i := Find(key.value);
      if n == NULL {
        assert model == model - {key.value};
        return SUCCESS;
      }
      Unlink(h, i, n);
      return SUCCESS;
    }

    /** Node n, the i-th of bucket h, leaves the table. */
    method Unlink(h: nat, ghost i: nat, n: int)
      requires Valid() && h < config.buckets && i < |lists[h]| && lists[h][i] == n && 0 <= n < keys.Length
      modifies this`lists, this`model, next, prev, keys, vals
      ensures Valid() && model == old(model) - {old(keys[n])}
    {
      ghost var m := Mem();
      assert m.keys[n] == keys[n];
      DelNode(config, m, lists, model, h, i, zeroKey, zeroVal);
      Give(n);
      lists, model := lists[h := Without(lists[h], i)], model - {m.keys[n]};
      assert Mem() == Removed(m, n, zeroKey, zeroVal);
    }
  }
}
