/**
 LRUHandle (rutil/lru_cache.h:43-109): one allocated cache entry. It is linked into a bucket chain
 of the hash table by nextHash and, when nobody holds it, into the LRU list by next and prev.
 */
module LruHandle {
  import opened Coding
  import opened LruShard

  class LRUHandle {
    const key: Bytes
    const hash: Word
    const charge: nat
    const highPri: bool
    var nextHash: LRUHandle?
    var next: LRUHandle?
    var prev: LRUHandle?
    var refs: int
    var inCache: bool
    var inHighPool: bool
    // The number of its allocation.
    ghost const id: Id

    constructor (key: Bytes, hash: Word, charge: nat, highPri: bool, refs: int, inCache: bool, ghost id: Id)
      ensures this.key == key && this.hash == hash && this.charge == charge && this.highPri == highPri
      ensures this.refs == refs && this.inCache == inCache && !inHighPool && this.id == id
      ensures nextHash == null && next == null && prev == null
    {
      this.key, this.hash, this.charge, this.highPri := key, hash, charge, highPri;
      this.refs, this.inCache, inHighPool, this.id := refs, inCache, false, id;
      nextHash, next, prev := null, null, null;
    }

    function Named(): Name {
      Name(key, hash)
    }
  }
}
