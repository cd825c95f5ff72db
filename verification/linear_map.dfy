/** The linear map: an array of pairs, searched front to back, kept in insertion order. */
module LinearMaps {

  datatype Pair<+K, +V> = Pair(key: K, value: V)

  ghost predicate KeysDistinct<K, V>(d: seq<Pair<K, V>>) {
    forall i, j :: 0 <= i < j < |d| ==> d[i].key != d[j].key
  }

  /** The position of the first pair with this key, or |d|. */
  function IndexOf<K(==), V>(d: seq<Pair<K, V>>, key: K): (k: nat)
    ensures k <= |d| && (k < |d| ==> d[k].key == key)
    ensures forall i :: 0 <= i < k ==> d[i].key != key
  {
    if d == [] || d[0].key == key then 0 else 1 + IndexOf(d[1..], key)
  }

  function Without<T>(d: seq<T>, k: nat): seq<T>
    requires k < |d|
  {
    d[..k] + d[k + 1..]
  }

  lemma IndexUnique<K, V>(d: seq<Pair<K, V>>, k: nat)
    requires KeysDistinct(d) && k < |d|
    ensures IndexOf(d, d[k].key) == k
  {
  }

  class LinearMap<K(==), V> {
    var data: seq<Pair<K, V>>

    ghost predicate Valid()
      reads this
    {
      KeysDistinct(data)
    }

    constructor ()
      ensures Valid() && data == []
    {
      data := [];
    }

    /** The position of key, or the length where it is absent: the end iterator. */
    method Get(key: K) returns (it: nat)
      ensures it == IndexOf(data, key)
    {
      it := 0;
      while it < |data|
        invariant it <= IndexOf(data, key)
      {
        if data[it].key == key {
          return;
        }
        it := it + 1;
      }
    }

    /** Appends the pair unless the key is already there. */
    method Insert(key: K, value: V) returns (ok: bool)
      requires Valid()
      modifies this
      ensures Valid() && (ok <==> forall i :: 0 <= i < |old(data)| ==> old(data)[i].key != key)
      ensures data == if ok then old(data) + [Pair(key, value)] else old(data)
    {
      var it := Get(key);
      if it != |data| {
        return false;
      }
      data := data + [Pair(key, value)];
      return true;
    }

    /** Deletes the pair with this key; the others move up and keep their order. */
    method Remove(key: K) returns (ok: bool)
      requires Valid()
      modifies this
      ensures Valid() && (ok <==> IndexOf(old(data), key) < |old(data)|)
      ensures data == if ok then Without(old(data), IndexOf(old(data), key)) else old(data)
      ensures forall i :: 0 <= i < |data| ==> data[i].key != key
    {
      var i := 0;
      while i < |data|
        invariant i <= IndexOf(data, key)
      {
        if data[i].key == key {
          data := Without(data, i);
          return true;
        }
        i := i + 1;
      }
      return false;
    }

    /** Overwrites the value at a position. */
    method SetValue(it: nat, value: V)
      requires Valid() && it < |data|
      modifies this
      ensures Valid() && data == old(data)[it := Pair(old(data)[it].key, value)]
    {
      data := data[it := Pair(data[it].key, value)];
    }
  }
}
