/** The shared base of the hash maps: key/value items compared by key, and the
    part of a hash map that does not depend on how collisions are resolved: the
    bucket array, the size counter, the multiply-add-divide (MAD) compression of
    hash codes, the load factor and the resize that rebuilds the bucket array. */
module BaseMap {

  datatype Option<T> = None | Some(value: T)

  // ---------------------------------------------------------------------------
  // Items

  /** `Item`: a key/value pair. Every comparison looks at the keys only. Keys are
      integers here, standing for any totally ordered key type. */
  datatype Item<V> = Item(key: int, value: V) {
    predicate Eq(other: Item<V>) { key == other.key }
    // Python 3 derives `!=` from `__eq__`.
    predicate Ne(other: Item<V>) { !Eq(other) }
    predicate Lt(other: Item<V>) { key < other.key }
    predicate Le(other: Item<V>) { key <= other.key }
    predicate Gt(other: Item<V>) { key > other.key }
    predicate Ge(other: Item<V>) { key >= other.key }
  }

  /** Two items are equal exactly when their keys are, whatever their values. */
  lemma ItemEqualityIsKeyEquality<V>(a: Item<V>, b: Item<V>)
    ensures a.Eq(b) <==> a.key == b.key
    ensures a.Ne(b) <==> a.key != b.key
  {}

  /** Replacing the values of the two items changes no comparison. */
  lemma ItemComparisonsIgnoreValues<V>(a: Item<V>, b: Item<V>, va: V, vb: V)
    ensures var a', b' := Item(a.key, va), Item(b.key, vb);
      && a.Eq(b) == a'.Eq(b') && a.Ne(b) == a'.Ne(b')
      && a.Lt(b) == a'.Lt(b') && a.Le(b) == a'.Le(b')
      && a.Gt(b) == a'.Gt(b') && a.Ge(b) == a'.Ge(b')
  {}

  /** The item order is the total order of the keys: exactly one of `<`, `==`,
      `>` holds, `<=` and `>=` are their unions, and `>` is `<` reversed. */
  lemma ItemOrderIsTotal<V>(a: Item<V>, b: Item<V>)
    ensures a.Lt(b) || a.Eq(b) || a.Gt(b)
    ensures !(a.Lt(b) && a.Eq(b)) && !(a.Lt(b) && a.Gt(b)) && !(a.Eq(b) && a.Gt(b))
    ensures a.Le(b) <==> a.Lt(b) || a.Eq(b)
    ensures a.Ge(b) <==> a.Gt(b) || a.Eq(b)
    ensures a.Gt(b) <==> b.Lt(a)
  {}

  // ---------------------------------------------------------------------------
  // MAD compression

  /** `(hash_code * scale + shift) mod P`. Python's `%` by a positive modulus
      gives the non-negative remainder, as Dafny's `%` does. */
  function MadMix(h: int, scale: int, shift: int, prime: int): (r: int)
    requires prime > 0
    ensures 0 <= r < prime
  {
    (h * scale + shift) % prime
  }

  /** `[(hash_code * scale + shift) mod P] mod N`: an index of the bucket array,
      also for negative hash codes. It is never larger than the intermediate
      value, so a prime not above `N` leaves the buckets from `P` on unused. */
  function MadCompress(h: int, scale: int, shift: int, prime: int, n: int): (r: int)
    requires prime > 0 && n > 0
    ensures 0 <= r < n
    ensures r <= MadMix(h, scale, shift, prime) && r < prime
  {
    ModAtMost(MadMix(h, scale, shift, prime), n);
    MadMix(h, scale, shift, prime) % n
  }

  lemma ModAtMost(x: int, n: int)
    requires x >= 0 && n > 0
    ensures x % n <= x
  {
    if x >= n {
      assert x % n < n <= x;
    } else {
      assert x % n == x;
    }
  }

  /** `[None, ] * n`: `n` empty slots; Python's list repetition gives the empty
      list when `n` is not positive. */
  function EmptySlots<B>(n: int): (r: seq<Option<B>>)
    ensures |r| == if n < 0 then 0 else n
    ensures forall i :: 0 <= i < |r| ==> r[i] == None
  {
    seq(if n < 0 then 0 else n, _ => None)
  }

  // ---------------------------------------------------------------------------
  // Listings of key/value pairs

  /** The mapping a listing of pairs describes; a later pair wins over an earlier
      one with the same key. */
  ghost function ToMap<K, V>(items: seq<(K, V)>): map<K, V>
    decreases |items|
  {
    if items == [] then map[]
    else
      var last := items[|items| - 1];
      ToMap(items[..|items| - 1])[last.0 := last.1]
  }

  ghost predicate KeysDistinct<K, V>(items: seq<(K, V)>) {
    forall i, j :: 0 <= i < j < |items| ==> items[i].0 != items[j].0
  }

  /** The keys of `ToMap(items)` are the keys the listing mentions. */
  lemma {:induction false} ToMapKeys<K, V>(items: seq<(K, V)>, k: K)
    ensures k in ToMap(items) <==> exists i :: 0 <= i < |items| && items[i].0 == k
    decreases |items|
  {
    if items != [] {
      var n := |items| - 1;
      ToMapKeys(items[..n], k);
      if k in ToMap(items[..n]) {
        var i :| 0 <= i < n && items[..n][i].0 == k;
        assert items[i].0 == k;
      }
      if exists i :: 0 <= i < |items| && items[i].0 == k {
        var i :| 0 <= i < |items| && items[i].0 == k;
        if i < n {
          assert items[..n][i].0 == k;
        }
      }
    }
  }

  /** In a listing without repeated keys, a pair's key is not among the keys
      before it. */
  lemma FreshKey<K, V>(items: seq<(K, V)>, i: int)
    requires KeysDistinct(items) && 0 <= i < |items|
    ensures items[i].0 !in ToMap(items[..i])
  {
    ToMapKeys(items[..i], items[i].0);
    forall j | 0 <= j < i
      ensures items[..i][j].0 != items[i].0
    {
      assert items[..i][j] == items[j];
    }
  }

  // ---------------------------------------------------------------------------
  // The hash map base

  /** `BaseHashMap`. What a bucket holds (`B`) and where an insertion places a
      pair are left to the concrete map; `contents` is the key/value mapping the
      concrete map stores and `items()` reports. */
  class BaseHashMap<K(==), V, B> {
    var bucketArray: seq<Option<B>>
    var size: int
    var loadFactorThreshold: real
    var prime: int
    var scale: int
    var shift: int
    var contents: map<K, V>
    /** Python's built-in `hash` on keys. */
    const hash: K -> int

    /** `size` counts the stored pairs, and the MAD parameters lie in the ranges
        the constructor draws them from. */
    ghost predicate Valid()
      reads this
    {
      && size == |contents|
      && prime >= 2
      && 1 <= scale <= prime - 1
      && 0 <= shift <= prime - 1
    }

    /** `__init__`. `scaleDraw` and `shiftDraw` stand for the two results of
        `random.randrange`: one of `[0, prime - 1)` and one of `[0, prime)`. */
    constructor (hash: K -> int, scaleDraw: int, shiftDraw: int,
                 capacity: int := 11, loadFactorThreshold: real := 0.5, prime: int := 109345121)
      requires prime >= 2
      requires 0 <= scaleDraw < prime - 1
      requires 0 <= shiftDraw < prime
      ensures Valid()
      ensures |bucketArray| == (if capacity < 0 then 0 else capacity)
      ensures forall i :: 0 <= i < |bucketArray| ==> bucketArray[i] == None
      ensures size == 0 && contents == map[]
      ensures this.loadFactorThreshold == loadFactorThreshold && this.prime == prime
      ensures scale == 1 + scaleDraw && shift == shiftDraw
      ensures 1 <= scale <= prime - 1 && 0 <= shift <= prime - 1
      ensures this.hash == hash
    {
      this.hash := hash;
      bucketArray := EmptySlots(capacity);
      size := 0;
      contents := map[];
      this.loadFactorThreshold := loadFactorThreshold;
      this.prime := prime;
      scale := 1 + scaleDraw;
      shift := shiftDraw;
    }

    /** `__len__`: the number of stored pairs. */
    function Len(): (n: int)
      reads this
      requires Valid()
      ensures n == |contents|
    {
      size
    }

    /** `_hash_func`: a bucket index for `key`, depending on nothing but the
        key's hash code and the table's parameters. */
    function HashFunc(key: K): (r: int)
      reads this
      requires Valid() && |bucketArray| > 0
      ensures 0 <= r < |bucketArray|
      ensures r == MadCompress(hash(key), scale, shift, prime, |bucketArray|)
    {
      MadMix(hash(key), scale, shift, prime) % |bucketArray|
    }

    /** Keys with the same hash code land in the same bucket. */
    lemma HashFuncDeterministic(k1: K, k2: K)
      requires Valid() && |bucketArray| > 0 && hash(k1) == hash(k2)
      ensures HashFunc(k1) == HashFunc(k2)
    {}

    /** `load_factor`: the ratio of stored pairs to buckets. */
    function LoadFactor(): (r: real)
      reads this
      requires Valid() && |bucketArray| > 0
      ensures r * (|bucketArray| as real) == |contents| as real
      ensures 0.0 <= r
    {
      size as real / |bucketArray| as real
    }

    /** The contract of the concrete map's `__setitem__`, which this base leaves
        abstract: store the pair, and count the key if it is new. */
    method SetItem(key: K, value: V)
      requires Valid()
      modifies this
      ensures Valid()
      ensures contents == old(contents)[key := value]
      ensures size == old(size) + (if key in old(contents) then 0 else 1)
      ensures |bucketArray| == |old(bucketArray)|
      ensures prime == old(prime) && scale == old(scale) && shift == old(shift)
      ensures loadFactorThreshold == old(loadFactorThreshold)
    {
      if key !in contents {
        size := size + 1;
      }
      contents := contents[key := value];
    }

    /** `items()`: every stored pair exactly once, in some order. */
    method Items() returns (items: seq<(K, V)>)
      ensures KeysDistinct(items)
      ensures ToMap(items) == contents
    {
      items := [];
      var rest := contents;
      while rest != map[]
        invariant KeysDistinct(items)
        invariant forall i :: 0 <= i < |items| ==> items[i].0 !in rest
        invariant forall k :: k in rest ==> k in contents && rest[k] == contents[k]
        invariant forall k :: k in contents ==> k in rest || (k in ToMap(items) && ToMap(items)[k] == contents[k])
        invariant forall k :: k in ToMap(items) ==> k in contents && k !in rest && ToMap(items)[k] == contents[k]
        decreases |rest|
      {
        var k :| k in rest;
        var next := items + [(k, rest[k])];
        assert next[..|items|] == items;
        forall j | 0 <= j < |items|
          ensures next[j].0 != k
        {
        }
        items := next;
        rest := rest - {k};
      }
    }

    /** `_resize`: a fresh array of `newCapacity` empty buckets, the count reset,
        every old pair inserted again. The pairs and the count come out as they
        went in; the MAD parameters are kept. */
    method Resize(newCapacity: int)
      requires Valid()
      modifies this
      ensures Valid()
      ensures |bucketArray| == (if newCapacity < 0 then 0 else newCapacity)
      ensures contents == old(contents) && size == old(size)
      ensures prime == old(prime) && scale == old(scale) && shift == old(shift)
      ensures loadFactorThreshold == old(loadFactorThreshold)
    {
      var oldItems := Items();
      bucketArray := EmptySlots(newCapacity);
      size := 0;
      // The new buckets hold nothing.
      contents := map[];
      for i := 0 to |oldItems|
        invariant Valid()
        invariant contents == ToMap(oldItems[..i])
        invariant |bucketArray| == (if newCapacity < 0 then 0 else newCapacity)
        invariant prime == old(prime) && scale == old(scale) && shift == old(shift)
        invariant loadFactorThreshold == old(loadFactorThreshold)
      {
        var (key, value) := oldItems[i];
        FreshKey(oldItems, i);
        SetItem(key, value);
        assert oldItems[..i + 1][..i] == oldItems[..i];
      }
      assert oldItems[..|oldItems|] == oldItems;
    }
  }
}
