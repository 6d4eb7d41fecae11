// The name arena (t_name_list): one growable character buffer that holds
// every scanned path as a NUL-terminated string. A path is referred to by a
// handle, its offset in the buffer, so growing the buffer never invalidates
// what the registry stores.
//
// Both revisions are here: New is name_list_new of src/name_list.c (reserve
// and write the joined path in one call); Reserve and WriteJoin are
// name_list_new of dedup.c followed by the caller's join_path into the
// reserved bytes (the size_t API that src/name_list.h also declares).
module NameList {
  import opened Common

  /** sizeof(t_name_list) on an LP64 target: two size_t fields and the buffer address (8 bytes each). */
  const NAME_LIST_HEADER_SIZE: nat := 24

  const MODULAR_INITIAL_CAPACITY: nat := 16 * 1024
  const LEGACY_INITIAL_CAPACITY: nat := 1024

  function Pow2(k: nat): (r: nat)
    ensures r >= 1
  {
    if k == 0 then 1 else 2 * Pow2(k - 1)
  }

  class NameList {
    var capacity: nat
    var length: nat
    var buffer: array<char>

    /** The handles issued so far, with the path each one designates. */
    ghost var Names: map<nat, CString>
    ghost var Repr: set<object>

    ghost predicate Valid()
      reads this, Repr
    {
      && Repr == {this, buffer}
      && buffer.Length == capacity
      && length < capacity
      && forall h :: Holds(h)
    }

    /** Handle h, if it was issued, designates a string stored before
        length. */
    ghost predicate Holds(h: nat)
      reads this, buffer
    {
      h in Names ==> h + |Names[h]| < length && Stored(buffer[..], h, Names[h])
    }

    /** The bytes [h, h + size) were reserved and lie after every issued string. */
    ghost predicate Unclaimed(h: nat, size: nat)
      reads this
    {
      h + size <= length && forall h' :: h' in Names ==> h' + |Names[h']| < h
    }

    /** name_list_init of src/name_list.c. */
    constructor InitModular()
      ensures Valid() && fresh(Repr)
      ensures capacity == MODULAR_INITIAL_CAPACITY && length == 0 && Names == map[]
    {
      capacity := MODULAR_INITIAL_CAPACITY;
      length := 0;
      buffer := new char[MODULAR_INITIAL_CAPACITY](_ => '\0');
      Names := map[];
      new;
      Repr := {this, buffer};
    }

    /** name_list_init of dedup.c. */
    constructor InitLegacy()
      ensures Valid() && fresh(Repr)
      ensures capacity == LEGACY_INITIAL_CAPACITY && length == 0 && Names == map[]
    {
      capacity := LEGACY_INITIAL_CAPACITY;
      length := 0;
      buffer := new char[LEGACY_INITIAL_CAPACITY](_ => '\0');
      Names := map[];
      new;
      Repr := {this, buffer};
    }

    /** The doubling loop both name_list_new share: the capacity doubles
        until it exceeds need. */
    static method DoubleUntil(capacity0: nat, need: nat) returns (capacity: nat, ghost k: nat)
      requires 0 < capacity0 <= need
      ensures capacity == capacity0 * Pow2(k) && k > 0
      ensures need < capacity && need >= capacity / 2
    {
      capacity, k := capacity0 * 2, 1;
      while need >= capacity
        invariant capacity == capacity0 * Pow2(k) && k > 0
        invariant need >= capacity / 2
        decreases need - capacity
      {
        capacity, k := capacity * 2, k + 1;
      }
    }

    /** realloc of the buffer to the new capacity: every issued string stays
        where it was. */
    method Move(newCapacity: nat)
      requires Valid() && capacity <= newCapacity
      modifies this
      ensures Valid() && fresh(Repr - old(Repr))
      ensures length == old(length) && Names == old(Names) && capacity == newCapacity
      ensures buffer[..old(capacity)] == old(buffer[..])
    {
      ghost var before := buffer[..];
      buffer := Realloc(buffer, newCapacity, '\0');
      capacity := newCapacity;
      Repr := {this, buffer};
      forall h: nat ensures Holds(h) {
        if h in Names {
          assert old(Holds(h));
          StoredPrefix(before, buffer[..], |before|, h, Names[h]);
        }
      }
    }

    /** The capacity test and doubling loop both name_list_new share: double
        until length + size < capacity, then realloc. */
    method Grow(size: nat)
      requires Valid()
      modifies this
      ensures Valid() && fresh(Repr - old(Repr))
      ensures length == old(length) && Names == old(Names)
      ensures old(length) + size < capacity
      ensures exists k: nat :: capacity == old(capacity) * Pow2(k)
      ensures capacity > old(capacity) ==> old(length) + size >= capacity / 2
      ensures old(length) + size < old(capacity) ==> capacity == old(capacity) && buffer == old(buffer)
      ensures buffer[..old(capacity)] == old(buffer[..])
    {
      if length + size >= capacity {
        var newCapacity, k := DoubleUntil(capacity, length + size);
        Move(newCapacity);
      } else {
        assert capacity == old(capacity) * Pow2(0);
      }
    }

    /** name_list_new of src/name_list.c: reserves |dir| + 1 + |name| + 1
        bytes after the last string, writes dir + "/" + name there and returns
        its offset. */
    method New(dir: CString, name: CString) returns (h: nat)
      requires Valid()
      modifies Repr
      ensures Valid() && fresh(Repr - old(Repr))
      ensures h == old(length) && h !in old(Names)
      ensures length == old(length) + |dir| + 1 + |name| + 1
      ensures Names == old(Names)[h := Join(dir, name)]
      ensures Get(h) == Join(dir, name)
      ensures forall h' :: h' in old(Names) ==> Get(h') == old(Names)[h']
      ensures exists k: nat :: capacity == old(capacity) * Pow2(k)
      ensures capacity > old(capacity) ==> old(length) + |dir| + 1 + |name| + 1 >= capacity / 2
      ensures Footprint() >= old(Footprint())
    {
      var size := |dir| + 1 + |name| + 1;
      Grow(size);
      ghost var names0, before := Names, buffer[..];
      forall h' | h' in names0 ensures h' + |names0[h']| < length && Stored(before, h', names0[h']) {
        assert Holds(h');
      }
      h := length;
      length := length + size;
      JoinPath(dir, name, buffer, h);
      assert buffer[..h] == before[..h];
      Names := Names[h := Join(dir, name)];
      forall h': nat ensures Holds(h') {
        if h' in names0 {
          StoredPrefix(before, buffer[..], h, h', names0[h']);
        }
      }
    }

    /** name_list_new of dedup.c: reserves name_size + 1 bytes (the caller
        writes the string and its NUL) and returns their offset. */
    method Reserve(nameSize: nat) returns (h: nat)
      requires Valid()
      modifies this
      ensures Valid() && fresh(Repr - old(Repr))
      ensures h == old(length) && length == old(length) + nameSize + 1
      ensures Names == old(Names)
      ensures Unclaimed(h, nameSize + 1)
      ensures exists k: nat :: capacity == old(capacity) * Pow2(k)
      ensures capacity > old(capacity) ==> old(length) + nameSize + 1 >= capacity / 2
    {
      Grow(nameSize + 1);
      ghost var before := buffer[..];
      forall h' | h' in Names ensures h' + |Names[h']| < length && Stored(before, h', Names[h']) {
        assert Holds(h');
      }
      h := length;
      length := length + nameSize + 1;
      assert buffer[..] == before;
      forall h': nat ensures Holds(h') {
      }
    }

    /** join_path into the reserved bytes at offset h. */
    method WriteJoin(h: nat, dir: CString, name: CString)
      requires Valid() && Unclaimed(h, |dir| + 1 + |name| + 1)
      modifies this`Names, buffer
      ensures Valid()
      ensures Names == old(Names)[h := Join(dir, name)]
      ensures Get(h) == Join(dir, name)
    {
      ghost var names0, before := Names, buffer[..];
      forall h' | h' in names0 ensures h' + |names0[h']| < h && Stored(before, h', names0[h']) {
        assert Holds(h');
      }
      JoinPath(dir, name, buffer, h);
      assert buffer[..h] == before[..h];
      Names := Names[h := Join(dir, name)];
      forall h': nat ensures Holds(h') {
        if h' in names0 {
          StoredPrefix(before, buffer[..], h, h', names0[h']);
        }
      }
    }

    /** name_list_get: the C string at an issued handle. */
    function Get(h: nat): (s: CString)
      requires Valid() && h in Names
      reads Repr
      ensures s == Names[h]
    {
      assert Holds(h);
      StoredIsCStr(buffer[..], h, Names[h]);
      CStr(buffer[..], h)
    }

    /** name_list_size of src/name_list.c: the memory the arena accounts for. */
    function Footprint(): nat
      reads this
    {
      NAME_LIST_HEADER_SIZE + capacity
    }
  }
}
