/**
 LRUHandleTable (rutil/lru_cache.cc:17-92): bucket chains threaded through the entries, on the
 heap. Its operations are those of a finite map from names to entries, across resizing.
 */
module LruTable {
  import opened Coding
  import opened LruShard
  import opened LruHandle
  import opened Masks

  // Chain k of the buckets holds entries with hash & (length - 1) == k, of pairwise different
  // names; the bucket points at the first and each entry at the next.
  ghost predicate ChainAt(chain: seq<LRUHandle>, head: LRUHandle?, k: nat, length: nat)
    requires PowerOfTwo(length)
    reads chain`nextHash
  {
    && head == First(chain)
    && (forall j :: 0 <= j < |chain| ==> chain[j].nextHash == Follower(chain, j) && LowBits(chain[j].hash, length) == k)
    && (forall j, m :: 0 <= j < m < |chain| ==> chain[j].Named() != chain[m].Named())
  }

  ghost function Elements(chain: seq<LRUHandle>): set<LRUHandle> {
    set x | x in chain
  }

  ghost function First(chain: seq<LRUHandle>): LRUHandle? {
    if chain == [] then null else chain[0]
  }

  ghost function Follower(chain: seq<LRUHandle>, j: nat): LRUHandle? {
    if j + 1 < |chain| then chain[j + 1] else null
  }

  class LRUHandleTable {
    var length: nat
    var elems: nat
    var list: array<LRUHandle?>
    ghost var chains: seq<seq<LRUHandle>>
    ghost var nodes: set<LRUHandle>
    // The finite map that the table implements.
    ghost var contents: map<Name, LRUHandle>

    // The chains hold exactly the entries of the map.
    static ghost predicate Holds(chains: seq<seq<LRUHandle>>, contents: map<Name, LRUHandle>) {
      && PowerOfTwo(|chains|)
      && (forall k, j :: 0 <= k < |chains| && 0 <= j < |chains[k]| ==>
            chains[k][j].Named() in contents && contents[chains[k][j].Named()] == chains[k][j])
      && (forall n :: n in contents ==> contents[n].Named() == n && contents[n] in chains[LowBits(n.hash, |chains|)])
    }

    // The entries of the chains are those in `nodes`, which are those of the map.
    static ghost predicate Owns(chains: seq<seq<LRUHandle>>, contents: map<Name, LRUHandle>, nodes: set<LRUHandle>) {
      && (forall k, j :: 0 <= k < |chains| && 0 <= j < |chains[k]| ==> chains[k][j] in nodes)
      && (forall x :: x in nodes ==> x.Named() in contents && contents[x.Named()] == x)
      && (forall n :: n in contents ==> contents[n] in nodes && contents[n].Named() == n)
    }

    // The structure, without the bound on the load.
    ghost predicate ValidLinks()
      reads this, list, nodes`nextHash
    {
      && length == list.Length == |chains| && PowerOfTwo(length)
      && Holds(chains, contents) && Owns(chains, contents, nodes)
      && (forall k :: 0 <= k < length ==> ChainAt(chains[k], list[k], k, length))
      && elems == |contents|
    }

    ghost predicate Valid()
      reads this, list, nodes`nextHash
    {
      ValidLinks() && elems <= length
    }

    // A name that is in the map is found in its chain, and only there.
    static lemma FoundIsMapped(chains: seq<seq<LRUHandle>>, contents: map<Name, LRUHandle>, name: Name, j: nat)
      requires Holds(chains, contents)
      requires var chain := chains[LowBits(name.hash, |chains|)];
               && j <= |chain| && (forall m :: 0 <= m < j ==> chain[m].Named() != name)
               && (j < |chain| ==> chain[j].Named() == name)
      ensures var chain := chains[LowBits(name.hash, |chains|)];
              if name in contents then j < |chain| && chain[j] == contents[name] else j == |chain|
    {
      hide LowBits, PowerOfTwo;
    }

    // The slot for a name: the entry there, if any, and the entry whose link the slot is (null for
    // the bucket itself).
    method FindPointer(key: Bytes, hash: Word) returns (prev: LRUHandle?, found: LRUHandle?, ghost j: nat)
      requires ValidLinks()
      ensures var chain := chains[LowBits(hash, length)];
              && j <= |chain|
              && prev == (if j == 0 then null else chain[j - 1])
              && found == (if j < |chain| then chain[j] else null)
              && (forall m :: 0 <= m < j ==> chain[m].Named() != Name(key, hash))
              && (j < |chain| ==> chain[j].Named() == Name(key, hash))
      ensures if Name(key, hash) in contents then found == contents[Name(key, hash)] else found == null
    {
      hide LowBits, PowerOfTwo, Holds, Owns, ChainAt, Follower, First;
      var b := LowBits(hash, length);
      ghost var chain := chains[b];
      ChainFacts(b);
      FirstLink(chain);
      prev, found, j := null, list[b], 0;
      while found != null && (found.hash != hash || key != found.key)
        invariant j <= |chain|
        invariant prev == (if j == 0 then null else chain[j - 1])
        invariant found == (if j < |chain| then chain[j] else null)
        invariant forall m :: 0 <= m < j ==> chain[m].Named() != Name(key, hash)
        decreases |chain| - j
      {
        NextLink(chain, j);
        prev, found := found, found.nextHash;
        j := j + 1;
      }
      FoundIsMapped(chains, contents, Name(key, hash), j);
    }

    method Lookup(key: Bytes, hash: Word) returns (found: LRUHandle?)
      requires Valid()
      ensures if Name(key, hash) in contents then found == contents[Name(key, hash)] else found == null
    {
      var prev, h, _ := FindPointer(key, hash);
      found := h;
    }

    // Filling slot j of a chain, behind its last entry or in place of the entry there.
    static lemma FillSlot(
      chain: seq<LRUHandle>, h: LRUHandle, j: nat, head: LRUHandle?, k: nat, length: nat)
      returns (filled: seq<LRUHandle>)
      requires PowerOfTwo(length) && j <= |chain| && h !in chain && LowBits(h.hash, length) == k
      requires forall m :: 0 <= m < |chain| && m != j ==>
               chain[m].Named() != h.Named() && LowBits(chain[m].hash, length) == k
      requires forall m, n :: 0 <= m < n < |chain| ==> chain[m].Named() != chain[n].Named()
      requires head == if j == 0 then h else First(chain)
      requires forall m :: 0 <= m < |chain| && m != j ==>
               chain[m].nextHash == if m + 1 == j then h else Follower(chain, m)
      requires h.nextHash == if j < |chain| then Follower(chain, j) else null
      ensures filled == (if j < |chain| then chain[j := h] else chain + [h])
      ensures ChainAt(filled, head, k, length)
    {
      hide LowBits, PowerOfTwo;
      filled := if j < |chain| then chain[j := h] else chain + [h];
    }

    static lemma HoldsWith(
      chains: seq<seq<LRUHandle>>, contents: map<Name, LRUHandle>, h: LRUHandle, j: nat, chains': seq<seq<LRUHandle>>)
      requires Holds(chains, contents)
      requires var b := LowBits(h.hash, |chains|); var chain := chains[b];
               && j <= |chain| && (forall m :: 0 <= m < |chain| ==> (chain[m].Named() == h.Named() <==> m == j))
               && chains' == chains[b := if j < |chain| then chain[j := h] else chain + [h]]
      requires forall k, m :: 0 <= k < |chains| && 0 <= m < |chains[k]| ==> LowBits(chains[k][m].hash, |chains|) == k
      ensures Holds(chains', contents[h.Named() := h])
    {
      hide LowBits, PowerOfTwo;
      var b := LowBits(h.hash, |chains|);
      var chain := chains[b];
      var after := contents[h.Named() := h];
      assert chains'[b][j] == h;
      forall k, m | 0 <= k < |chains'| && 0 <= m < |chains'[k]|
        ensures chains'[k][m].Named() in after && after[chains'[k][m].Named()] == chains'[k][m]
      {
        if !(k == b && m == j) {
          var x := chains[k][m];
          assert x == chains'[k][m];
        }
      }
      forall n | n in after
        ensures after[n].Named() == n && after[n] in chains'[LowBits(n.hash, |chains'|)]
      {
        if n != h.Named() {
          var k := LowBits(n.hash, |chains|);
          var x := contents[n];
          var m :| 0 <= m < |chains[k]| && chains[k][m] == x;
          assert chains'[k][m] == x;
        }
      }
    }

    // Point slot j of the chain of bucket b at an entry, which may be one outside the table.
    method SetSlot(prev: LRUHandle?, b: nat, x: LRUHandle?, ghost j: nat)
      requires length == list.Length == |chains| && PowerOfTwo(length) && b < length && j <= |chains[b]|
      requires prev == if j == 0 then null else chains[b][j - 1]
      requires forall m :: 0 <= m < |chains[b]| ==> LowBits(chains[b][m].hash, length) == b
      requires forall m, n :: 0 <= m < n < |chains[b]| ==> chains[b][m] != chains[b][n]
      requires forall k :: 0 <= k < length && k != b ==> ChainAt(chains[k], list[k], k, length)
      modifies list, (if prev == null then {} else {prev})`nextHash
      ensures list[b] == if j == 0 then x else old(list[b])
      ensures forall k :: 0 <= k < length && k != b ==> ChainAt(chains[k], list[k], k, length)
      ensures forall m :: 0 <= m < |chains[b]| ==>
              chains[b][m].nextHash == if m + 1 == j then x else old(chains[b][m].nextHash)
    {
      hide LowBits, PowerOfTwo;
      assert forall k :: 0 <= k < length && k != b ==> prev !in chains[k];
      if prev == null {
        list[b] := x;
      } else {
        prev.nextHash := x;
      }
      forall k | 0 <= k < length && k != b
        ensures ChainAt(chains[k], list[k], k, length)
      {
        assert prev !in chains[k];
      }
    }

    // Record what the links now mean.
    method Commit(
      ghost chains': seq<seq<LRUHandle>>, ghost contents': map<Name, LRUHandle>, ghost nodes': set<LRUHandle>,
        count: nat)
      requires length == list.Length == |chains'| && PowerOfTwo(length) && count == |contents'|
      requires Holds(chains', contents') && Owns(chains', contents', nodes')
      requires forall k :: 0 <= k < length ==> ChainAt(chains'[k], list[k], k, length)
      modifies this`chains, this`contents, this`nodes, this`elems
      ensures chains == chains' && contents == contents' && nodes == nodes' && elems == count
      ensures ValidLinks()
    {
      hide LowBits, PowerOfTwo, Holds, Owns;
      chains, contents, nodes, elems := chains', contents', nodes', count;
    }

    lemma ChainFacts(b: nat)
      requires ValidLinks() && b < length
      ensures list[b] == First(chains[b])
      ensures forall m :: 0 <= m < |chains[b]| ==>
              chains[b][m].nextHash == Follower(chains[b], m) && LowBits(chains[b][m].hash, length) == b
      ensures forall m, n :: 0 <= m < n < |chains[b]| ==> chains[b][m].Named() != chains[b][n].Named()
      ensures forall k, m :: 0 <= k < length && 0 <= m < |chains[k]| ==> LowBits(chains[k][m].hash, length) == k
    {
      hide LowBits, PowerOfTwo, Holds;
    }

    // The new entry in the chains, in the map and in the node set.
    static lemma OwnsWith(
      chains: seq<seq<LRUHandle>>, contents: map<Name, LRUHandle>, nodes: set<LRUHandle>, h: LRUHandle,
        replaced: LRUHandle?, b: nat, j: nat, chains': seq<seq<LRUHandle>>)
      requires Owns(chains, contents, nodes) && b < |chains| && j <= |chains[b]|
      requires chains' == chains[b := if j < |chains[b]| then chains[b][j := h] else chains[b] + [h]]
      requires replaced == if h.Named() in contents then contents[h.Named()] else null
      requires forall k, m :: 0 <= k < |chains| && 0 <= m < |chains[k]| && !(k == b && m == j) ==>
               chains[k][m] != replaced
      ensures Owns(chains', contents[h.Named() := h], nodes - (if replaced == null then {} else {replaced}) + {h})
    {
      forall k, m | 0 <= k < |chains'| && 0 <= m < |chains'[k]|
        ensures chains'[k][m] == h || (chains'[k][m] in nodes && chains'[k][m] != replaced)
      {
        if !(k == b && m == j) {
          assert chains'[k][m] == chains[k][m];
        }
      }
    }

    lemma NotChained(h: LRUHandle)
      requires ValidLinks() && h !in nodes
      ensures forall k, m :: 0 <= k < length && 0 <= m < |chains[k]| ==> chains[k][m] != h && chains[k][m] in nodes
    {
      hide LowBits, PowerOfTwo, Holds, ChainAt;
    }

    // Write the links of a new entry in the slot of its name.
    method Splice(h: LRUHandle) returns (replaced: LRUHandle?, ghost j: nat, ghost filled: seq<LRUHandle>)
      requires ValidLinks() && h !in nodes
      modifies list, nodes`nextHash, h`nextHash
      ensures var b := LowBits(h.hash, length); var chain := chains[b];
              && j <= |chain| && (forall m :: 0 <= m < |chain| ==> (chain[m].Named() == h.Named() <==> m == j))
              && filled == (if j < |chain| then chain[j := h] else chain + [h])
              && replaced == (if j < |chain| then chain[j] else null)
              && (forall k :: 0 <= k < length && k != b ==> ChainAt(chains[k], list[k], k, length))
              && ChainAt(filled, list[b], b, length)
      ensures replaced == if h.Named() in contents then contents[h.Named()] else null
    {
      hide LowBits, PowerOfTwo, Holds, Owns;
      var prev;
      prev, replaced, j := FindPointer(h.key, h.hash);
      var b := LowBits(h.hash, length);
      ghost var chain := chains[b];
      ChainFacts(b);
      NotChained(h);
      h.nextHash := if replaced == null then null else replaced.nextHash;
      assert forall k :: 0 <= k < length ==> ChainAt(chains[k], list[k], k, length);
      SetSlot(prev, b, h, j);
      filled := FillSlot(chain, h, j, list[b], b, length);
    }

    method Insert(h: LRUHandle) returns (replaced: LRUHandle?)
      requires Valid() && h !in nodes
      modifies this, list, nodes`nextHash, h`nextHash
      ensures Valid() && (list == old(list) || fresh(list))
      ensures contents == old(contents)[h.Named() := h]
      ensures replaced == if h.Named() in old(contents) then old(contents)[h.Named()] else null
      ensures nodes == old(nodes) - (if replaced == null then {} else {replaced}) + {h}
    {
      hide LowBits, PowerOfTwo, Holds, Owns, ChainAt;
      ghost var j, filled, b := 0, [], LowBits(h.hash, length);
      ChainFacts(b);
      replaced, j, filled := Splice(h);
      Displaced(b, j, replaced);
      ghost var after := chains[b := filled];
      HoldsWith(chains, contents, h, j, after);
      OwnsWith(chains, contents, nodes, h, replaced, b, j, after);
      ghost var entries := nodes - (if replaced == null then {} else {replaced}) + {h};
      Commit(after, contents[h.Named() := h], entries, if replaced == null then elems + 1 else elems);
      if elems > length {
        Resize();
      }
    }

    // An entry occurs once in the chains.
    lemma Displaced(b: nat, j: nat, x: LRUHandle?)
      requires length == list.Length == |chains| && PowerOfTwo(length) && b < length && j <= |chains[b]|
               && Holds(chains, contents)
      requires x == if j < |chains[b]| then chains[b][j] else null
      requires forall m :: 0 <= m < |chains[b]| && m != j && x != null ==> chains[b][m].Named() != x.Named()
      requires forall k, m :: 0 <= k < length && 0 <= m < |chains[k]| ==> LowBits(chains[k][m].hash, length) == k
      ensures forall k, m :: 0 <= k < |chains| && 0 <= m < |chains[k]| && !(k == b && m == j) ==> chains[k][m] != x
    {
      hide LowBits, PowerOfTwo;
    }

    // ---------- removal ----------

    static lemma CutSlot(chain: seq<LRUHandle>, j: nat, head: LRUHandle?, k: nat, length: nat)
      requires PowerOfTwo(length) && j < |chain|
      requires forall m :: 0 <= m < |chain| ==> LowBits(chain[m].hash, length) == k
      requires forall m, n :: 0 <= m < n < |chain| ==> chain[m].Named() != chain[n].Named()
      requires head == if j == 0 then Follower(chain, 0) else First(chain)
      requires forall m :: 0 <= m < |chain| && m != j && m + 1 != j ==> chain[m].nextHash == Follower(chain, m)
      requires j > 0 ==> chain[j - 1].nextHash == Follower(chain, j)
      ensures ChainAt(chain[..j] + chain[j + 1..], head, k, length)
    {
      hide LowBits, PowerOfTwo;
      var cut := chain[..j] + chain[j + 1..];
      CutIs(chain, j, cut);
      forall m | 0 <= m < |cut|
        ensures cut[m].nextHash == Follower(cut, m) && LowBits(cut[m].hash, length) == k
      {
        if m < j {
          assert cut[m] == chain[m];
        } else {
          assert cut[m] == chain[m + 1];
        }
      }
      forall m, n | 0 <= m < n < |cut|
        ensures cut[m].Named() != cut[n].Named()
      {
        var a, c := if m < j then m else m + 1, if n < j then n else n + 1;
        assert chain[a].Named() != chain[c].Named();
      }
    }

    static lemma CutIs(chain: seq<LRUHandle>, j: nat, cut: seq<LRUHandle>)
      requires j < |chain| && cut == chain[..j] + chain[j + 1..]
      ensures |cut| == |chain| - 1
      ensures forall m :: 0 <= m < j ==> cut[m] == chain[m]
      ensures forall m :: j <= m < |cut| ==> cut[m] == chain[m + 1]
    {
    }

    static lemma HoldsWithout(
      chains: seq<seq<LRUHandle>>, contents: map<Name, LRUHandle>, nodes: set<LRUHandle>, name: Name, j: nat,
        chains': seq<seq<LRUHandle>>)
      requires Holds(chains, contents) && Owns(chains, contents, nodes) && name in contents
      requires var b := LowBits(name.hash, |chains|);
               && j < |chains[b]| && chains[b][j] == contents[name]
               && chains' == chains[b := chains[b][..j] + chains[b][j + 1..]]
               && (forall k, m :: 0 <= k < |chains| && 0 <= m < |chains[k]| && !(k == b && m == j) ==>
                 chains[k][m] != contents[name])
      ensures Holds(chains', contents - {name}) && Owns(chains', contents - {name}, nodes - {contents[name]})
    {
      hide LowBits, PowerOfTwo;
      var b := LowBits(name.hash, |chains|);
      var x := contents[name];
      assert forall m :: 0 <= m < |chains'[b]| ==> chains'[b][m] == chains[b][if m < j then m else m + 1];
      forall k, m | 0 <= k < |chains'| && 0 <= m < |chains'[k]|
        ensures chains'[k][m] in nodes && chains'[k][m] != x && chains'[k][m].Named() in contents
                && contents[chains'[k][m].Named()] == chains'[k][m]
      {
        if k != b {
          assert chains'[k][m] == chains[k][m];
        }
      }
      forall n | n in contents && n != name
        ensures contents[n] in chains'[LowBits(n.hash, |chains'|)]
      {
        var k := LowBits(n.hash, |chains|);
        var m :| 0 <= m < |chains[k]| && chains[k][m] == contents[n];
        assert contents[n] != x;
        if k == b {
          assert m != j && chains'[b][if m < j then m else m - 1] == chains[b][m];
        }
      }
    }

    // Take an entry out of its slot.
    method Unlink(key: Bytes, hash: Word) returns (found: LRUHandle?, ghost j: nat)
      requires ValidLinks()
      modifies list, nodes`nextHash
      ensures found == if Name(key, hash) in contents then contents[Name(key, hash)] else null
      ensures found == null ==> ValidLinks()
      ensures found != null ==>
        var b := LowBits(hash, length); var chain := chains[b];
        && j < |chain| && chain[j] == found
        && (forall k :: 0 <= k < length && k != b ==> ChainAt(chains[k], list[k], k, length))
        && ChainAt(chain[..j] + chain[j + 1..], list[b], b, length)
    {
      hide LowBits, PowerOfTwo, Holds;
      var prev;
      prev, found, j := FindPointer(key, hash);
      if found != null {
        var b := LowBits(hash, length);
        ChainFacts(b);
        SetSlot(prev, b, found.nextHash, j);
        CutSlot(chains[b], j, list[b], b, length);
      }
    }

    method Remove(key: Bytes, hash: Word) returns (found: LRUHandle?)
      requires Valid()
      modifies this, list, nodes`nextHash
      ensures Valid() && list == old(list)
      ensures contents == old(contents) - {Name(key, hash)}
      ensures found == if Name(key, hash) in old(contents) then old(contents)[Name(key, hash)] else null
      ensures nodes == old(nodes) - (if found == null then {} else {found})
    {
      hide LowBits, PowerOfTwo, Holds, Owns, ChainAt;
      ghost var j, b, name := 0, LowBits(hash, length), Name(key, hash);
      ChainFacts(b);
      found, j := Unlink(key, hash);
      if found != null {
        UnlinkedOnce(b, j);
        ghost var cut := chains[b := chains[b][..j] + chains[b][j + 1..]];
        HoldsWithout(chains, contents, nodes, name, j, cut);
        SmallerMap(contents, name);
        Commit(cut, contents - {name}, nodes - {found}, elems - 1);
      } else {
        assert contents - {name} == contents;
      }
    }

    static lemma SmallerMap(m: map<Name, LRUHandle>, n: Name)
      requires n in m
      ensures |m - {n}| == |m| - 1
    {
      assert m.Keys == (m - {n}).Keys + {n};
    }

    lemma UnlinkedOnce(b: nat, j: nat)
      requires length == list.Length == |chains| && PowerOfTwo(length) && b < length && j < |chains[b]|
      requires forall k, m :: 0 <= k < length && 0 <= m < |chains[k]| ==> LowBits(chains[k][m].hash, length) == k
      requires forall m, n :: 0 <= m < n < |chains[b]| ==> chains[b][m].Named() != chains[b][n].Named()
      ensures forall k, m :: 0 <= k < |chains| && 0 <= m < |chains[k]| && !(k == b && m == j) ==>
              chains[k][m] != chains[b][j]
    {
      hide LowBits, PowerOfTwo;
    }

    // ---------- resizing ----------

    // The chains hold exactly the entries of s, each in its bucket.
    static ghost predicate Spread(chains: seq<seq<LRUHandle>>, s: set<LRUHandle>) {
      && PowerOfTwo(|chains|)
      && (forall k, m :: 0 <= k < |chains| && 0 <= m < |chains[k]| ==> chains[k][m] in s)
      && (forall x :: x in s ==> x in chains[LowBits(x.hash, |chains|)])
    }

    static ghost predicate AllChains(chains: seq<seq<LRUHandle>>, list: array<LRUHandle?>)
      reads list, (set k, m | 0 <= k < |chains| && 0 <= m < |chains[k]| :: chains[k][m])`nextHash
    {
      && list.Length == |chains| && PowerOfTwo(|chains|)
      && (forall k :: 0 <= k < |chains| ==> ChainAt(chains[k], list[k], k, |chains|))
    }

    // Move one entry to the front of its bucket in the new table.
    static method PushFront(
      h: LRUHandle, list: array<LRUHandle?>, ghost chains: seq<seq<LRUHandle>>, ghost s: set<LRUHandle>)
      returns (ghost pushed: seq<seq<LRUHandle>>)
      requires AllChains(chains, list) && Spread(chains, s)
      requires h !in s && forall x :: x in s ==> x.Named() != h.Named()
      modifies list, h`nextHash
      ensures |pushed| == |chains| && AllChains(pushed, list) && Spread(pushed, s + {h})
    {
      hide LowBits, PowerOfTwo, Follower, First;
      var b := LowBits(h.hash, list.Length);
      ghost var chain := chains[b];
      assert ChainAt(chain, list[b], b, |chains|);
      assert forall k, m :: 0 <= k < |chains| && 0 <= m < |chains[k]| ==> chains[k][m] in s;
      assert forall k :: 0 <= k < |chains| ==> h !in chains[k];
      hide Spread;
      h.nextHash := list[b];
      list[b] := h;
      pushed := chains[b := [h] + chain];
      forall k | 0 <= k < |chains| && k != b
        ensures ChainAt(chains[k], list[k], k, |chains|)
      {
        assert h !in chains[k];
      }
      PushedChain(chain, h, list[b], b, |chains|);
      PushedSpread(chains, s, h, pushed);
    }

    static lemma PushedChain(chain: seq<LRUHandle>, h: LRUHandle, head: LRUHandle?, k: nat, length: nat)
      requires PowerOfTwo(length) && LowBits(h.hash, length) == k && head == h && h.nextHash == First(chain)
      requires forall j :: 0 <= j < |chain| ==>
               chain[j].nextHash == Follower(chain, j) && LowBits(chain[j].hash, length) == k
      requires forall j, m :: 0 <= j < m < |chain| ==> chain[j].Named() != chain[m].Named()
      requires forall j :: 0 <= j < |chain| ==> chain[j].Named() != h.Named()
      ensures ChainAt([h] + chain, head, k, length)
    {
      hide LowBits, PowerOfTwo;
    }

    static lemma PushedSpread(chains: seq<seq<LRUHandle>>, s: set<LRUHandle>, h: LRUHandle, pushed: seq<seq<LRUHandle>>)
      requires Spread(chains, s)
      requires pushed == chains[LowBits(h.hash, |chains|) := [h] + chains[LowBits(h.hash, |chains|)]]
      ensures Spread(pushed, s + {h})
    {
      hide LowBits, PowerOfTwo;
      var b := LowBits(h.hash, |chains|);
      assert pushed[b][0] == h;
      forall x | x in s
        ensures x in pushed[LowBits(x.hash, |pushed|)]
      {
        var k := LowBits(x.hash, |chains|);
        var m :| 0 <= m < |chains[k]| && chains[k][m] == x;
        assert pushed[k][if k == b then m + 1 else m] == x;
      }
    }

    static lemma NotMoved(chain: seq<LRUHandle>, j: nat, s: set<LRUHandle>, t: set<LRUHandle>)
      requires j < |chain| && t == s + Elements(chain[..j])
      requires forall i, m :: 0 <= i < m < |chain| ==> chain[i].Named() != chain[m].Named()
      requires forall i, x :: 0 <= i < |chain| && x in s ==> chain[i].Named() != x.Named()
      ensures chain[j] !in t && forall x :: x in t ==> x.Named() != chain[j].Named()
      ensures t + {chain[j]} == s + Elements(chain[..j + 1])
      ensures forall m :: j < m < |chain| ==> chain[m] != chain[j]
    {
      assert chain[..j + 1] == chain[..j] + [chain[j]];
      forall x | x in chain[..j]
        ensures x.Named() != chain[j].Named()
      {
        var i :| 0 <= i < j && chain[i] == x;
      }
    }

    static lemma NoElements(chain: seq<LRUHandle>)
      ensures Elements(chain[..0]) == {}
    {
    }

    static lemma FirstLink(chain: seq<LRUHandle>)
      ensures First(chain) == if 0 < |chain| then chain[0] else null
    {
    }

    static lemma NextLink(chain: seq<LRUHandle>, j: nat)
      ensures Follower(chain, j) == if j + 1 < |chain| then chain[j + 1] else null
    {
    }

    // Move a whole chain.
    static method MoveChain(
      head: LRUHandle?, ghost chain: seq<LRUHandle>, list: array<LRUHandle?>, ghost chains: seq<seq<LRUHandle>>,
        ghost s: set<LRUHandle>)
      returns (ghost moved: seq<seq<LRUHandle>>)
      requires AllChains(chains, list) && Spread(chains, s)
      requires head == First(chain) && forall j :: 0 <= j < |chain| ==> chain[j].nextHash == Follower(chain, j)
      requires forall j, m :: 0 <= j < m < |chain| ==> chain[j].Named() != chain[m].Named()
      requires forall j, x :: 0 <= j < |chain| && x in s ==> chain[j].Named() != x.Named()
      modifies list, chain`nextHash
      ensures |moved| == |chains| && AllChains(moved, list) && Spread(moved, s + Elements(chain))
    {
      hide LowBits, PowerOfTwo, Spread, AllChains, Elements, Follower;
      assert s == s + Elements(chain[..0]) by { NoElements(chain); }
      FirstLink(chain);
      moved := chains;
      var h := head;
      ghost var j := 0;
      ghost var t: set<LRUHandle> := s;
      while h != null
        invariant 0 <= j <= |chain| && h == (if j < |chain| then chain[j] else null)
        invariant |moved| == |chains| && AllChains(moved, list) && Spread(moved, t)
        invariant t == s + Elements(chain[..j])
        invariant forall m :: j <= m < |chain| ==> chain[m].nextHash == Follower(chain, m)
        decreases |chain| - j
      {
        var next := h.nextHash;
        NextLink(chain, j);
        NotMoved(chain, j, s, t);
        moved := PushFront(h, list, moved, t);
        t := t + {h};
        h := next;
        j := j + 1;
      }
      assert chain[..j] == chain;
    }

    // Entries spread over any number of chains implement the same map.
    static lemma SpreadHolds(
      chains: seq<seq<LRUHandle>>, contents: map<Name, LRUHandle>, nodes: set<LRUHandle>, spread: seq<seq<LRUHandle>>)
      requires Owns(chains, contents, nodes) && Spread(spread, nodes)
      ensures Holds(spread, contents) && Owns(spread, contents, nodes)
    {
      hide LowBits, PowerOfTwo;
    }

    // The entries of chain k are the nodes of bucket k.
    lemma ChainNodes(k: nat, x: LRUHandle)
      requires length == |chains| && PowerOfTwo(length) && Holds(chains, contents) && Owns(chains, contents, nodes)
               && k < length
      requires forall m, j :: 0 <= m < length && 0 <= j < |chains[m]| ==> LowBits(chains[m][j].hash, length) == m
      ensures x in chains[k] <==> x in nodes && LowBits(x.hash, length) == k
    {
      hide LowBits, PowerOfTwo;
    }

    method Install(fresh_: array<LRUHandle?>, ghost spread: seq<seq<LRUHandle>>)
      requires AllChains(spread, fresh_) && Holds(spread, contents) && Owns(spread, contents, nodes)
      requires elems == |contents| <= fresh_.Length
      modifies this`length, this`list, this`chains
      ensures list == fresh_ && Valid()
    {
      hide LowBits, PowerOfTwo, Holds, Owns;
      length, list, chains := fresh_.Length, fresh_, spread;
    }

    method Resize()
      requires ValidLinks()
      modifies this`length, this`list, this`chains, nodes`nextHash
      ensures Valid() && fresh(list)
    {
      hide LowBits, PowerOfTwo, Holds, Owns, Spread, AllChains;
      var newLength := 16;
      SixteenIsPower();
      while 2 * newLength < 3 * elems
        invariant newLength >= 16 && PowerOfTwo(newLength) && ValidLinks()
        decreases 3 * elems - 2 * newLength
      {
        DoubleIsPower(newLength);
        newLength := newLength * 2;
      }
      var newList := new LRUHandle?[newLength](_ => null);
      ghost var spread := MoveAll(newList);
      SpreadHolds(chains, contents, nodes, spread);
      Install(newList, spread);
    }

    static lemma SixteenIsPower()
      ensures PowerOfTwo(16)
    {
      assert PowerOfTwo(2) && PowerOfTwo(4) && PowerOfTwo(8);
    }

    static lemma DoubleIsPower(n: nat)
      requires PowerOfTwo(n)
      ensures PowerOfTwo(n * 2)
    {
    }

    // The double loop of Resize.
    method MoveAll(newList: array<LRUHandle?>) returns (ghost spread: seq<seq<LRUHandle>>)
      requires ValidLinks() && PowerOfTwo(newList.Length) && newList != list
      requires forall k :: 0 <= k < newList.Length ==> newList[k] == null
      modifies newList, nodes`nextHash
      ensures AllChains(spread, newList) && Spread(spread, nodes)
    {
      hide LowBits, PowerOfTwo, Holds, Owns, Spread, AllChains, ChainAt;
      spread := seq(newList.Length, _ => []);
      ghost var s: set<LRUHandle> := {};
      EmptySpread(spread, newList);
      AllBucketsOf();
      for i := 0 to length
        invariant AllChains(spread, newList) && Spread(spread, s) && |spread| == newList.Length
        invariant forall x :: x in s <==> x in nodes && LowBits(x.hash, length) < i
        invariant forall k :: i <= k < length ==> ChainAt(chains[k], list[k], k, length)
      {
        ghost var chain := chains[i];
        BeforeMove(i, s);
        assert forall k, m :: i < k < length && 0 <= m < |chains[k]| ==> chains[k][m] !in chain;
        spread := MoveChain(list[i], chain, newList, spread, s);
        ghost var t := s + Elements(chain);
        AfterMove(i, s, t);
        s := t;
        forall k | i < k < length
          ensures ChainAt(chains[k], list[k], k, length)
        {
        }
      }
      assert s == nodes;
    }

    lemma AllBucketsOf()
      requires ValidLinks()
      ensures forall k, m :: 0 <= k < length && 0 <= m < |chains[k]| ==> LowBits(chains[k][m].hash, length) == k
    {
      hide LowBits, PowerOfTwo, Holds;
    }

    static lemma EmptySpread(spread: seq<seq<LRUHandle>>, list: array<LRUHandle?>)
      requires PowerOfTwo(list.Length) && |spread| == list.Length
      requires forall k :: 0 <= k < list.Length ==> list[k] == null && spread[k] == []
      ensures AllChains(spread, list) && Spread(spread, {})
    {
      hide LowBits, PowerOfTwo;
    }

    lemma BeforeMove(i: nat, s: set<LRUHandle>)
      requires i < length == list.Length == |chains| && PowerOfTwo(length) && Owns(chains, contents, nodes)
      requires ChainAt(chains[i], list[i], i, length)
      requires forall x :: x in s <==> x in nodes && LowBits(x.hash, length) < i
      ensures var chain := chains[i];
              && list[i] == First(chain)
                && (forall j :: 0 <= j < |chain| ==> chain[j].nextHash == Follower(chain, j) && chain[j] in nodes)
              && (forall j, m :: 0 <= j < m < |chain| ==> chain[j].Named() != chain[m].Named())
              && (forall j, x :: 0 <= j < |chain| && x in s ==> chain[j].Named() != x.Named())
    {
      hide LowBits, PowerOfTwo;
    }

    lemma AfterMove(i: nat, s: set<LRUHandle>, t: set<LRUHandle>)
      requires i < length == |chains| && PowerOfTwo(length) && Holds(chains, contents) && Owns(chains, contents, nodes)
      requires forall m, j :: 0 <= m < length && 0 <= j < |chains[m]| ==> LowBits(chains[m][j].hash, length) == m
      requires forall x :: x in s <==> x in nodes && LowBits(x.hash, length) < i
      requires t == s + Elements(chains[i])
      ensures forall x :: x in t <==> x in nodes && LowBits(x.hash, length) < i + 1
    {
      hide LowBits, PowerOfTwo, Holds, Owns;
      forall x: LRUHandle | x in t || x in nodes
        ensures x in t <==> x in nodes && LowBits(x.hash, length) < i + 1
      {
        ChainNodes(i, x);
      }
    }

    // ---------- destruction ----------

    // The entries of s to which nothing but the table refers, each once.
    static ghost predicate Sole(order: seq<LRUHandle>, s: set<LRUHandle>)
      reads s`refs
    {
      && (forall i, j :: 0 <= i < j < |order| ==> order[i] != order[j])
      && (forall x :: x in order ==> x in s)
      && (forall x :: x in s ==> (x in order <==> x.refs == 1))
    }

    // Free such entries of one chain. The link to the next entry is read before the visit: nothing is
    // known of the links of an entry that was freed.
    static method FreeChain(
      head: LRUHandle?, ghost chain: seq<LRUHandle>, order: seq<LRUHandle>, ghost s: set<LRUHandle>)
      returns (freed: seq<LRUHandle>)
      requires Sole(order, s)
      requires head == First(chain)
      requires forall j :: 0 <= j < |chain| ==> chain[j].nextHash == Follower(chain, j) && chain[j].inCache
      requires forall j, m :: 0 <= j < m < |chain| ==> chain[j].Named() != chain[m].Named()
      requires forall j, x :: 0 <= j < |chain| && x in s ==> chain[j].Named() != x.Named()
      modifies chain`nextHash
      ensures Sole(freed, s + Elements(chain))
    {
      hide Elements, Follower;
      assert s == s + Elements(chain[..0]) by { NoElements(chain); }
      FirstLink(chain);
      freed := order;
      var h := head;
      ghost var j := 0;
      ghost var t: set<LRUHandle> := s;
      while h != null
        invariant 0 <= j <= |chain| && h == (if j < |chain| then chain[j] else null)
        invariant t == s + Elements(chain[..j]) && Sole(freed, t)
        invariant forall m :: j <= m < |chain| ==> chain[m].nextHash == Follower(chain, m) && chain[m].inCache
        decreases |chain| - j
      {
        var n := h.nextHash;
        NextLink(chain, j);
        NotMoved(chain, j, s, t);
        assert h.inCache;
        if h.refs == 1 {
          freed := freed + [h];
          h.nextHash := *;
        }
        t := t + {h};
        h := n;
        j := j + 1;
      }
      assert chain[..j] == chain;
    }

    static lemma SoleNone()
      ensures Sole([], {})
    {
    }

    // Every entry is visited once, whatever freed entries turn into.
    method Destruct() returns (freed: seq<LRUHandle>)
      requires ValidLinks() && forall x :: x in nodes ==> x.inCache
      modifies nodes`nextHash
      ensures Sole(freed, nodes)
    {
      hide LowBits, PowerOfTwo, Holds, Owns, ChainAt, Sole, Elements, Follower, First;
      freed := [];
      ghost var s: set<LRUHandle> := {};
      SoleNone();
      AllBucketsOf();
      for i := 0 to length
        invariant Sole(freed, s)
        invariant forall x :: x in s <==> x in nodes && LowBits(x.hash, length) < i
        invariant forall k :: i <= k < length ==> ChainAt(chains[k], list[k], k, length)
      {
        ghost var chain := chains[i];
        BeforeMove(i, s);
        assert forall k, m :: i < k < length && 0 <= m < |chains[k]| ==> chains[k][m] !in chain;
        freed := FreeChain(list[i], chain, freed, s);
        ghost var t := s + Elements(chain);
        AfterMove(i, s, t);
        s := t;
        forall k | i < k < length
          ensures ChainAt(chains[k], list[k], k, length)
        {
        }
      }
      assert s == nodes;
    }

    constructor ()
      ensures Valid() && contents == map[] && nodes == {} && fresh(list)
    {
      SixteenIsPower();
      length, elems := 16, 0;
      list := new LRUHandle?[16](_ => null);
      chains, nodes, contents := seq(16, _ => []), {}, map[];
    }
  }
}
