/** An unordered map kept in a singly linked list of key-value entries,
    newest first. A Java null key is None: it is stored like any other
    key but never found, since a lookup only matches a non-null key by
    equals, taken here as equality. */
module HashMap {
  import opened Wrappers

  const UNSUPPORTED := "UnsupportedOperationException"

  class Entry<K, V> {
    var key: Option<K>
    var val: V
    var next: Entry?<K, V>

    /** Entry(k, v, n). */
    constructor (k: Option<K>, v: V, n: Entry?<K, V>)
      ensures key == k && val == v && next == n
    {
      key, val, next := k, v, n;
    }
  }

  /** The index of the first entry at or after j whose key is the non-null
      key k, or -1 when there is none. */
  function KeyIndex<K(==)>(keys: seq<Option<K>>, k: Option<K>, j: nat): (i: int)
    requires j <= |keys|
    ensures i == -1 || j <= i < |keys|
    ensures i >= 0 ==> k != None && keys[i] == k
    ensures i >= 0 ==> forall m :: j <= m < i ==> keys[m] != k
    ensures i == -1 ==> k == None || forall m :: j <= m < |keys| ==> keys[m] != k
    decreases |keys| - j
  {
    if j == |keys| then -1
    else if k != None && keys[j] == k then j
    else KeyIndex(keys, k, j + 1)
  }

  /** The value of the entry holding key, None for a missing or null
      key. */
  ghost function LookupIn<K, V>(keys: seq<Option<K>>, vals: seq<V>, key: Option<K>): Option<V>
    requires |vals| == |keys|
  {
    var i := KeyIndex(keys, key, 0);
    if i < 0 then None else Some(vals[i])
  }

  /** Each non-null key is stored at most once. */
  ghost predicate UniqueKeys<K>(keys: seq<Option<K>>) {
    forall i, j :: 0 <= i < j < |keys| && keys[i] != None ==> keys[i] != keys[j]
  }

  class ULLMap<K(==), V> {
    var size: int
    var list: Entry?<K, V>
    /** The entries from list on, and their keys and values. */
    ghost var entries: seq<Entry<K, V>>
    ghost var Keys: seq<Option<K>>
    ghost var Vals: seq<V>
    ghost var Repr: set<object>

    ghost predicate Valid()
      reads this, Repr
      ensures Valid() ==> this in Repr
    {
      && this in Repr
      && |entries| == |Keys| == |Vals| == size
      && (forall i :: 0 <= i < |entries| ==> entries[i] in Repr)
      && (forall i, j :: 0 <= i < j < |entries| ==> entries[i] != entries[j])
      && (forall i :: 0 <= i < |entries| ==> entries[i].key == Keys[i] && entries[i].val == Vals[i])
      && list == (if entries == [] then null else entries[0])
      && (entries != [] ==> entries[|entries| - 1].next == null)
      && (forall i, j :: 0 <= i < |entries| && 0 <= j < |entries| && j == i + 1 ==> entries[i].next == entries[j])
      && UniqueKeys(Keys)
    }

    /** The value get returns for key. */
    ghost function Lookup(key: Option<K>): Option<V>
      reads this
      requires |Vals| == |Keys|
    {
      LookupIn(Keys, Vals, key)
    }

    /** A new map is empty. */
    constructor ()
      ensures Valid() && fresh(Repr) && Keys == [] && Vals == []
    {
      size := 0;
      list := null;
      entries, Keys, Vals := [], [], [];
      Repr := {this};
    }

    /** Entry.get: the first entry from e on whose key is the non-null
        key k, or null. */
    function Find(e: Entry<K, V>, ghost j: int, k: Option<K>): (r: Entry?<K, V>)
      requires Valid() && 0 <= j < |entries| && e == entries[j]
      reads this, Repr
      ensures var i := KeyIndex(Keys, k, j); r == if i < 0 then null else entries[i]
      decreases |entries| - j
    {
      if k != None && k == e.key then e
      else if e.next == null then null
      else
        assert e.next == entries[j + 1];
        Find(e.next, j + 1, k)
    }

    /** get: the value stored for key, None if there is none. */
    method Get(key: Option<K>) returns (r: Option<V>)
      requires Valid()
      ensures r == Lookup(key)
    {
      if list == null {
        return None;
      }
      var lookup := Find(list, 0, key);
      if lookup == null {
        return None;
      }
      r := Some(lookup.val);
    }

    /** size. */
    function Size(): (n: int)
      requires Valid()
      reads this, Repr
      ensures n == |Keys|
    {
      size
    }

    /** clear: the map becomes empty. */
    method Clear()
      requires Valid()
      modifies this
      ensures Valid() && Repr == old(Repr)
      ensures Keys == [] && forall k :: Lookup(k) == None
    {
      size := 0;
      list := null;
      entries, Keys, Vals := [], [], [];
    }

    /** put: replaces the value of a key already stored, in place;
        otherwise a new entry goes in front and size grows by one. A
        null key is never found, so it always gets a new entry. */
    method Put(key: Option<K>, val: V)
      requires Valid()
      modifies Repr
      ensures Valid() && fresh(Repr - old(Repr))
      ensures old(Lookup(key)) == None ==> Keys == [key] + old(Keys) && Vals == [val] + old(Vals)
      ensures old(Lookup(key)) != None ==>
        Keys == old(Keys) && Vals == old(Vals)[KeyIndex(Keys, key, 0) := val]
      ensures key != None ==> Lookup(key) == Some(val)
      ensures forall k :: k != key ==> Lookup(k) == LookupIn(old(Keys), old(Vals), k)
    {
      if list != null {
        var lookup := Find(list, 0, key);
        if lookup == null {
          PutNew(key, val);
        } else {
          lookup.val := val;
          Vals := Vals[KeyIndex(Keys, key, 0) := val];
          LookupAfterSet(Keys, old(Vals), key, val);
        }
      } else {
        PutNew(key, val);
      }
    }

    /** list = new Entry(key, val, list); size = size + 1. */
    method PutNew(key: Option<K>, val: V)
      requires Valid() && KeyIndex(Keys, key, 0) < 0
      modifies this
      ensures Valid() && fresh(Repr - old(Repr))
      ensures Keys == [key] + old(Keys) && Vals == [val] + old(Vals)
      ensures key != None ==> Lookup(key) == Some(val)
      ensures forall k :: k != key ==> Lookup(k) == LookupIn(old(Keys), old(Vals), k)
    {
      var e := new Entry(key, val, list);
      list := e;
      size := size + 1;
      entries, Keys, Vals := [e] + entries, [key] + Keys, [val] + Vals;
      Repr := Repr + {e};
      LookupAfterPrepend(old(Keys), old(Vals), key, val);
    }

    /** containsKey: some entry holds the non-null key. */
    method ContainsKey(key: Option<K>) returns (b: bool)
      requires Valid()
      ensures b <==> key != None && key in Keys
      ensures b <==> Lookup(key) != None
    {
      if list == null {
        return false;
      }
      var lookup := Find(list, 0, key);
      b := lookup != null;
    }

    /** remove(key), remove(key, value) and keySet are not supported: each
        throws UnsupportedOperationException, an error here, and the map
        stays as it is. */
    method Remove(key: Option<K>) returns (r: Result<V, string>)
      requires Valid()
      ensures r == Failure(UNSUPPORTED)
    {
      r := Failure(UNSUPPORTED);
    }

    method RemoveValue(key: Option<K>, val: V) returns (r: Result<V, string>)
      requires Valid()
      ensures r == Failure(UNSUPPORTED)
    {
      r := Failure(UNSUPPORTED);
    }

    method KeySet() returns (r: Result<set<Option<K>>, string>)
      requires Valid()
      ensures r == Failure(UNSUPPORTED)
    {
      r := Failure(UNSUPPORTED);
    }
  }

  /** After a new entry goes in front, its key finds the new value and
      every other key finds what it found before. */
  lemma LookupAfterPrepend<K, V>(keys: seq<Option<K>>, vals: seq<V>, key: Option<K>, val: V)
    requires |keys| == |vals| && KeyIndex(keys, key, 0) < 0 && UniqueKeys(keys)
    ensures UniqueKeys([key] + keys)
    ensures key != None ==> LookupIn([key] + keys, [val] + vals, key) == Some(val)
    ensures forall k :: k != key ==> LookupIn([key] + keys, [val] + vals, k) == LookupIn(keys, vals, k)
  {
    forall k | k != key
      ensures LookupIn([key] + keys, [val] + vals, k) == LookupIn(keys, vals, k)
    {
      KeyIndexShift(keys, key, k, 0);
    }
  }

  /** Looking a key up past a new front entry that does not hold it. */
  lemma {:induction false} KeyIndexShift<K>(keys: seq<Option<K>>, key: Option<K>, k: Option<K>, j: nat)
    requires k != key && j <= |keys|
    ensures var i, i' := KeyIndex(keys, k, j), KeyIndex([key] + keys, k, j + 1);
      (i < 0 ==> i' < 0) && (i >= 0 ==> i' == i + 1)
    decreases |keys| - j
  {
    if j < |keys| {
      assert ([key] + keys)[j + 1] == keys[j];
      KeyIndexShift(keys, key, k, j + 1);
    }
  }

  /** Overwriting the value of the entry a key finds leaves every lookup
      as it was except that one. */
  lemma LookupAfterSet<K, V>(keys: seq<Option<K>>, vals: seq<V>, key: Option<K>, val: V)
    requires |keys| == |vals| && KeyIndex(keys, key, 0) >= 0 && UniqueKeys(keys)
    ensures var vals' := vals[KeyIndex(keys, key, 0) := val];
      forall k :: var i := KeyIndex(keys, k, 0);
        i >= 0 ==> vals'[i] == if k == key then val else vals[i]
  {
  }

  /** ULLMapIter: walks the entries from the front, so keys come out
      newest first, null keys included. */
  class ULLMapIter<K(==), V> {
    var cur: Entry?<K, V>
    ghost const owner: ULLMap<K, V>
    /** How many keys have been returned. */
    ghost var pos: int

    ghost predicate Valid()
      reads this, owner, owner.Repr
    {
      owner.Valid() && this !in owner.Repr && 0 <= pos <= |owner.entries|
      && cur == if pos < |owner.entries| then owner.entries[pos] else null
    }

    /** ULLMapIter(): starts at the first entry. */
    constructor (m: ULLMap<K, V>)
      requires m.Valid()
      ensures Valid() && owner == m && pos == 0
    {
      owner := m;
      cur := m.list;
      pos := 0;
    }

    /** hasNext. */
    function HasNext(): (b: bool)
      requires Valid()
      reads this, owner, owner.Repr
      ensures b <==> pos < |owner.Keys|
    {
      cur != null
    }

    /** next: the key of the current entry; the walk moves on one
        entry. Past the end the Java method dereferences null. */
    method Next() returns (k: Option<K>)
      requires Valid() && pos < |owner.Keys|
      modifies this
      ensures Valid() && pos == old(pos) + 1
      ensures k == owner.Keys[old(pos)]
    {
      k := cur.key;
      cur := cur.next;
      pos := pos + 1;
    }
  }
}
