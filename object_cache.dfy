/**
 * The proxy's object cache: a fixed array of slots, each holding one response body keyed
 * by the request URI. Lookup is a linear scan for the first in-use slot with that URI;
 * insertion writes the first free slot, and a full cache takes nothing (there is no
 * eviction, and the LRU field is written but never read).
 */
module ProxyCache {
  import opened Wrappers
  import opened CStrings

  const MaxCacheSize: nat := 1024 * 1024
  const MaxObjectSize: nat := 1024
  const CacheBlockNum: nat := MaxCacheSize / MaxObjectSize

  /** A cache slot, without its (unused) reader count and semaphores. */
  datatype Block = Block(content: string, uri: string, lru: int, isEmpty: bool)

  /** A slot as `main` leaves it: zeroed, marked empty. */
  const EmptyBlock := Block("", "", 0, true)

  /** The slot is in use and holds the response for `uri`. */
  predicate Caches(b: Block, uri: string)
  {
    !b.isEmpty && b.uri == uri
  }

  /** The slot `get_Cache` finds: the first in-use slot holding `uri`. */
  function FindCached(slots: seq<Block>, uri: string): (r: Option<nat>)
    ensures r.Some? ==> r.value < |slots| && Caches(slots[r.value], uri)
    ensures r.Some? ==> forall j :: 0 <= j < r.value ==> !Caches(slots[j], uri)
    ensures r.None? <==> forall j :: 0 <= j < |slots| ==> !Caches(slots[j], uri)
  {
    if slots == [] then None
    else if Caches(slots[0], uri) then Some(0)
    else match FindCached(slots[1..], uri)
      case None => None
      case Some(k) => Some(k + 1)
  }

  /** The first slot marked empty, if any. */
  function FirstEmpty(slots: seq<Block>): (r: Option<nat>)
    ensures r.Some? ==> r.value < |slots| && slots[r.value].isEmpty
    ensures r.Some? ==> forall j :: 0 <= j < r.value ==> !slots[j].isEmpty
    ensures r.None? <==> forall j :: 0 <= j < |slots| ==> !slots[j].isEmpty
  {
    if slots == [] then None
    else if slots[0].isEmpty then Some(0)
    else match FirstEmpty(slots[1..])
      case None => None
      case Some(k) => Some(k + 1)
  }

  /** The slots after `blk` is copied into the first empty one; a full cache is left alone. */
  function Inserted(slots: seq<Block>, blk: Block): (r: seq<Block>)
    ensures |r| == |slots|
    ensures FirstEmpty(slots).None? ==> r == slots
    ensures FirstEmpty(slots).Some? ==> r[FirstEmpty(slots).value] == blk
    ensures forall j :: 0 <= j < |slots| && Some(j) != FirstEmpty(slots) ==> r[j] == slots[j]
  {
    match FirstEmpty(slots)
    case None => slots
    case Some(i) => slots[i := blk]
  }

  /** No two in-use slots hold the same URI. */
  predicate UniqueUris(slots: seq<Block>)
  {
    forall i, j :: 0 <= i < j < |slots| && !slots[i].isEmpty && !slots[j].isEmpty ==> slots[i].uri != slots[j].uri
  }

  /**
   * Every in-use slot's body fits the slot's object buffer with its terminating NUL, and
   * holds no NUL itself, so the `strlen(object)` bytes a hit writes are the whole body.
   */
  predicate ObjectsFit(slots: seq<Block>)
  {
    forall i :: 0 <= i < |slots| && !slots[i].isEmpty ==>
      |slots[i].content| < MaxObjectSize && NulFree(slots[i].content)
  }

  predicate CacheInvariant(slots: seq<Block>)
  {
    UniqueUris(slots) && ObjectsFit(slots)
  }

  /** The blocks the proxy may store: marked empty, or with a NUL-free body below MAX_OBJECT_SIZE. */
  predicate Storable(blk: Block)
  {
    blk.isEmpty || (|blk.content| < MaxObjectSize && NulFree(blk.content))
  }

  /** Inserting a storable block after a failed lookup of its URI keeps the cache invariant. */
  lemma InsertPreservesInvariant(slots: seq<Block>, blk: Block)
    requires CacheInvariant(slots) && Storable(blk)
    requires FindCached(slots, blk.uri).None?
    ensures CacheInvariant(Inserted(slots, blk))
  {
    var r := Inserted(slots, blk);
    if FirstEmpty(slots).Some? {
      var k := FirstEmpty(slots).value;
      forall i, j | 0 <= i < j < |r| && !r[i].isEmpty && !r[j].isEmpty
        ensures r[i].uri != r[j].uri
      {
        if i == k {
          assert !Caches(slots[j], blk.uri);
        } else if j == k {
          assert !Caches(slots[i], blk.uri);
        }
      }
    }
  }

  /** After a miss, inserting a block that is not marked empty makes the next lookup find it in the slot it took. */
  lemma InsertThenLookup(slots: seq<Block>, blk: Block)
    requires !blk.isEmpty && FindCached(slots, blk.uri).None? && FirstEmpty(slots).Some?
    ensures FindCached(Inserted(slots, blk), blk.uri) == FirstEmpty(slots)
    ensures Inserted(slots, blk)[FirstEmpty(slots).value] == blk
  {
    var k := FirstEmpty(slots).value;
    var r := Inserted(slots, blk);
    assert Caches(r[k], blk.uri);
    assert forall j :: 0 <= j < k ==> r[j] == slots[j];
    FindCachedIs(r, blk.uri, k);
  }

  /** The first slot holding `uri` is the one `FindCached` returns. */
  lemma FindCachedIs(slots: seq<Block>, uri: string, k: nat)
    requires k < |slots| && Caches(slots[k], uri)
    requires forall j :: 0 <= j < k ==> !Caches(slots[j], uri)
    ensures FindCached(slots, uri) == Some(k)
  {
  }

  /** Inserting leaves every lookup for another URI as it was, and an empty-marked block changes no lookup. */
  lemma InsertKeepsOtherLookups(slots: seq<Block>, blk: Block, uri: string)
    requires blk.isEmpty || blk.uri != uri
    ensures FindCached(Inserted(slots, blk), uri) == FindCached(slots, uri)
  {
    var r := Inserted(slots, blk);
    if FirstEmpty(slots).Some? {
      var k := FirstEmpty(slots).value;
      assert !Caches(slots[k], uri) && !Caches(r[k], uri);
      assert forall j :: 0 <= j < |slots| ==> (Caches(r[j], uri) <==> Caches(slots[j], uri));
      match FindCached(slots, uri)
      case None =>
      case Some(i) => FindCachedIs(r, uri, i);
    }
  }

  /** The global slot array `cache[]`. */
  class ObjectCache {
    const slots: array<Block>

    predicate Valid()
      reads this, slots
    {
      slots.Length == CacheBlockNum && CacheInvariant(slots[..])
    }

    /** The initialisation loop of `main`: every slot starts zeroed and marked empty. */
    constructor()
      ensures Valid() && fresh(slots)
      ensures forall i :: 0 <= i < slots.Length ==> slots[i] == EmptyBlock
    {
      var a := new Block[CacheBlockNum];
      for i := 0 to CacheBlockNum
        invariant forall j :: 0 <= j < i ==> a[j] == EmptyBlock
      {
        a[i] := EmptyBlock;
      }
      slots := a;
    }

    /** `get_Cache`: the first in-use slot whose URI is `name`, or -1 when there is none. */
    method Lookup(name: string) returns (i: int)
      requires slots.Length == CacheBlockNum
      ensures i == -1 <==> FindCached(slots[..], name).None?
      ensures i != -1 ==> FindCached(slots[..], name) == Some(i)
    {
      var k := 0;
      while k < CacheBlockNum
        invariant 0 <= k <= CacheBlockNum
        invariant forall j :: 0 <= j < k ==> !Caches(slots[j], name)
      {
        if !slots[k].isEmpty && slots[k].uri == name {
          FindCachedIs(slots[..], name, k);
          return k;
        }
        k := k + 1;
      }
      return -1;
    }

    /** The insertion loop of `handle_request`: copy `blk` into the first empty slot, if any. */
    method Insert(blk: Block)
      requires slots.Length == CacheBlockNum
      modifies slots
      ensures slots[..] == Inserted(old(slots[..]), blk)
    {
      var k := 0;
      while k < CacheBlockNum
        invariant 0 <= k <= CacheBlockNum
        invariant forall j :: 0 <= j < k ==> !slots[j].isEmpty
        invariant slots[..] == old(slots[..])
      {
        if slots[k].isEmpty {
          assert FirstEmpty(slots[..]) == Some(k);
          slots[k] := blk;
          return;
        }
        k := k + 1;
      }
    }
  }
}
