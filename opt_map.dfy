// The descriptor-keyed lookup `opt_map`: keys below `arraySize` live in a
// dense array of nullable slots, larger keys in an overflow map.

module DataStruct {

  /** A nullable pointer: `None` is `nullptr`. */
  datatype Option<T> = None | Some(value: T)

  class OptMap<V> {
    /** ARRAY_SIZE, the dense threshold. */
    const arraySize: nat
    /** vec_: one nullable slot per key below arraySize. */
    const vec: array<Option<V>>
    /** map_: keys at or above arraySize; an entry may hold null. */
    var overflow: map<nat, Option<V>>

    /** The live (non-null) entries, whatever path holds them. */
    ghost var Contents: map<nat, V>
    /** Overflow keys whose entry exists but holds null (made by operator[]). */
    ghost var NullKeys: set<nat>

    ghost predicate Valid()
      reads this, vec
    {
      && vec.Length == arraySize
      && (forall k :: k in overflow ==> arraySize <= k)
      && (forall k :: 0 <= k < arraySize ==> (vec[k].Some? <==> k in Contents))
      && (forall k :: 0 <= k < arraySize && vec[k].Some? ==> Contents[k] == vec[k].value)
      && (forall k :: k in Contents && arraySize <= k ==> k in overflow && overflow[k] == Some(Contents[k]))
      && (forall k :: k in overflow && overflow[k].Some? ==> k in Contents)
      && (forall k :: k in overflow && overflow[k].None? <==> k in NullKeys)
    }

    /** A key on which `insert` fails: a live value, or a null overflow entry. */
    ghost predicate Taken(k: nat)
      reads this
    {
      k in Contents || k in NullKeys
    }

    constructor (arraySize: nat)
      ensures Valid() && fresh(vec)
      ensures this.arraySize == arraySize
      ensures Contents == map[] && NullKeys == {}
    {
      this.arraySize := arraySize;
      vec := new Option<V>[arraySize](_ => None);
      overflow := map[];
      Contents := map[];
      NullKeys := {};
    }

    /** find: never fails; a missing key, dense or overflow, reads as null. */
    method Find(k: nat) returns (r: Option<V>)
      requires Valid()
      ensures r.Some? <==> k in Contents
      ensures r.Some? ==> r.value == Contents[k]
    {
      if k < arraySize {
        r := vec[k];
      } else if k in overflow {
        r := overflow[k];
      } else {
        r := None;
      }
    }

    /** insert: refuses null and any taken key; otherwise stores the value. */
    method Insert(k: nat, v: Option<V>) returns (ok: bool)
      requires Valid()
      modifies this, vec
      ensures Valid()
      ensures ok <==> v.Some? && !old(Taken(k))
      ensures Contents == if ok then old(Contents)[k := v.value] else old(Contents)
      ensures NullKeys == old(NullKeys)
      ensures k < arraySize ==> overflow == old(overflow)
      ensures arraySize <= k ==> vec[..] == old(vec[..])
    {
      if v.None? {
        return false;
      }
      if k < arraySize {
        if vec[k].None? {
          vec[k] := v;
          Contents := Contents[k := v.value];
          return true;
        }
      } else {
        if k !in overflow {
          overflow := overflow[k := v];
          Contents := Contents[k := v.value];
          return true;
        }
      }
      return false;
    }

    /** erase: the slot becomes null (dense) or the entry goes away (overflow). */
    method Erase(k: nat)
      requires Valid()
      modifies this, vec
      ensures Valid()
      ensures Contents == old(Contents) - {k}
      ensures NullKeys == old(NullKeys) - {k}
      ensures k < arraySize ==> overflow == old(overflow)
      ensures arraySize <= k ==> vec[..] == old(vec[..])
    {
      if k < arraySize {
        vec[k] := None;
      } else {
        overflow := overflow - {k};
      }
      Contents := Contents - {k};
      NullKeys := NullKeys - {k};
    }

    /** operator[] used for reading: on a missing overflow key it creates an
        entry holding null, which from then on blocks `insert`. */
    method Index(k: nat) returns (r: Option<V>)
      requires Valid()
      modifies this
      ensures Valid()
      ensures r.Some? <==> k in Contents
      ensures r.Some? ==> r.value == Contents[k]
      ensures Contents == old(Contents)
      ensures NullKeys == if arraySize <= k && k !in old(Contents) then old(NullKeys) + {k} else old(NullKeys)
      ensures k < arraySize ==> overflow == old(overflow)
    {
      if k < arraySize {
        r := vec[k];
      } else {
        if k !in overflow {
          overflow := overflow[k := None];
          NullKeys := NullKeys + {k};
        }
        r := overflow[k];
      }
    }

    /** operator[] used for writing (`m[k] = v`): stores v, null included. */
    method IndexStore(k: nat, v: Option<V>)
      requires Valid()
      modifies this, vec
      ensures Valid()
      ensures Contents == if v.Some? then old(Contents)[k := v.value] else old(Contents) - {k}
      ensures NullKeys == if arraySize <= k && v.None? then old(NullKeys) + {k} else old(NullKeys) - {k}
      ensures k < arraySize ==> overflow == old(overflow)
      ensures arraySize <= k ==> vec[..] == old(vec[..])
    {
      if k < arraySize {
        vec[k] := v;
      } else {
        overflow := overflow[k := v];
      }
      if v.Some? {
        Contents := Contents[k := v.value];
        NullKeys := NullKeys - {k};
      } else {
        Contents := Contents - {k};
        NullKeys := if arraySize <= k then NullKeys + {k} else NullKeys - {k};
      }
    }

    /** clear: every dense slot back to null, the overflow map emptied. */
    method Clear()
      requires Valid()
      modifies this, vec
      ensures Valid()
      ensures Contents == map[] && NullKeys == {}
    {
      for i := 0 to vec.Length
        invariant forall j :: 0 <= j < i ==> vec[j].None?
      {
        vec[i] := None;
      }
      overflow := map[];
      Contents := map[];
      NullKeys := {};
    }
  }

  /** A second insert on the same key, with no erase between, fails and keeps the first value. */
  method SecondInsertFails<V>(m: OptMap<V>, k: nat, v: V, w: V) returns (first: bool, second: bool)
    requires m.Valid() && !m.Taken(k)
    modifies m, m.vec
    ensures first && !second
    ensures m.Valid() && k in m.Contents && m.Contents[k] == v
  {
    first := m.Insert(k, Some(v));
    second := m.Insert(k, Some(w));
  }

  /** Reading a missing overflow key through operator[] leaves `find` null
      but makes every later insert on that key fail. */
  method NullEntryBlocksInsert<V>(m: OptMap<V>, k: nat, v: V) returns (found: Option<V>, ok: bool)
    requires m.Valid() && m.arraySize <= k && k !in m.Contents
    modifies m, m.vec
    ensures found == None && !ok
  {
    var _ := m.Index(k);
    ok := m.Insert(k, Some(v));
    found := m.Find(k);
  }

  /** The same read on a dense key leaves the null slot free: insert succeeds. */
  method NullSlotIsFree<V>(m: OptMap<V>, k: nat, v: V) returns (ok: bool, found: Option<V>)
    requires m.Valid() && k < m.arraySize && k !in m.Contents
    modifies m, m.vec
    ensures ok && found == Some(v)
  {
    var _ := m.Index(k);
    ok := m.Insert(k, Some(v));
    found := m.Find(k);
  }

  /** After clear, any non-null insert succeeds. */
  method ClearThenInsert<V>(m: OptMap<V>, k: nat, v: V) returns (ok: bool)
    requires m.Valid()
    modifies m, m.vec
    ensures ok && m.Contents == map[k := v]
  {
    m.Clear();
    ok := m.Insert(k, Some(v));
  }
}
