/** The id-and-type keyed memory of `xinghuo-core` (its `memory.rs`).
    A value of Rust type `T` is stored under the key `TypeId::of::<T>()
    XOR id`; the type id is an opaque 64-bit word here and is passed in
    where the source names `T`. */
module Memory {
  import opened Wrappers
  import opened Ids

  /** Bitwise exclusive or of two naturals, bit by bit from the lowest. */
  function Xor(a: nat, b: nat): nat
    decreases a + b
  {
    if a == 0 && b == 0 then 0
    else 2 * Xor(a / 2, b / 2) + (if a % 2 != b % 2 then 1 else 0)
  }

  function Pow2(k: nat): (r: nat)
    ensures r >= 1
  {
    if k == 0 then 1 else 2 * Pow2(k - 1)
  }

  /** Exclusive or of two `k`-bit numbers has `k` bits. */
  lemma {:induction false} XorBound(a: nat, b: nat, k: nat)
    requires a < Pow2(k) && b < Pow2(k)
    ensures Xor(a, b) < Pow2(k)
    decreases a + b
  {
    if !(a == 0 && b == 0) {
      assert k > 0;
      XorBound(a / 2, b / 2, k - 1);
    }
  }

  lemma {:induction false} XorSymmetric(a: nat, b: nat)
    ensures Xor(a, b) == Xor(b, a)
    decreases a + b
  {
    if !(a == 0 && b == 0) {
      XorSymmetric(a / 2, b / 2);
    }
  }

  /** Exclusive or with a fixed number undoes itself. */
  lemma {:induction false} XorTwice(t: nat, a: nat)
    ensures Xor(t, Xor(t, a)) == a
    decreases a + t
  {
    if !(t == 0 && a == 0) {
      var x := Xor(t, a);
      var bit := if t % 2 != a % 2 then 1 else 0;
      assert x == 2 * Xor(t / 2, a / 2) + bit;
      assert x / 2 == Xor(t / 2, a / 2) && x % 2 == bit;
      XorTwice(t / 2, a / 2);
    }
  }

  /** Exclusive or with a fixed number is injective. */
  lemma {:induction false} XorCancel(t: nat, a: nat, b: nat)
    requires Xor(t, a) == Xor(t, b)
    ensures a == b
  {
    XorTwice(t, a);
    XorTwice(t, b);
  }

  lemma {:induction false} Pow2Add(j: nat, k: nat)
    ensures Pow2(j + k) == Pow2(j) * Pow2(k)
    decreases j
  {
    if j > 0 {
      Pow2Add(j - 1, k);
    }
  }

  lemma {:induction false} Pow2Value64()
    ensures Pow2(64) == U64Modulus
  {
    Pow2Value32();
    Pow2Add(32, 32);
  }

  lemma {:induction false} Pow2Value32()
    ensures Pow2(32) == 0x1_0000_0000
  {
    Pow2Value16();
    Pow2Add(16, 16);
  }

  lemma {:induction false} Pow2Value16()
    ensures Pow2(16) == 0x1_0000
  {
    assert Pow2(4) == 16;
    Pow2Add(4, 4);
    Pow2Add(8, 8);
  }

  /** `hash(type_id, id)`: the bitwise exclusive or of the two words. */
  function Hash(typeId: U64, id: U64): (h: U64)
    ensures h as nat == Xor(typeId, id)
  {
    Pow2Value64();
    XorBound(typeId, id, 64);
    Xor(typeId, id)
  }

  /** For a fixed type, distinct ids land in distinct slots, and the key is
      symmetric in its two arguments. */
  lemma {:induction false} HashProperties(t: U64, a: U64, b: U64)
    ensures Hash(t, a) == Hash(t, b) <==> a == b
    ensures Hash(t, a) == Hash(a, t)
  {
    if Hash(t, a) == Hash(t, b) {
      XorCancel(t, a, b);
    }
    XorSymmetric(t, a);
  }

  /** The boxed `dyn Any` of a slot: its type and its value. */
  datatype Element<V> = Element(typeId: U64, value: V)

  /** `IdTypeMap`: slots by key. */
  type IdTypeMap<V> = map<U64, Element<V>>

  /** `Element::get_mut_or_insert_with`: a slot of another type is
      replaced by a new one; the value of the (possibly new) slot is
      returned. */
  function GetMutOrInsertWith<V>(e: Element<V>, typeId: U64, insertWith: V): (r: (Element<V>, V))
    ensures r.0.typeId == typeId && r.1 == r.0.value
    ensures e.typeId == typeId ==> r.0 == e
    ensures e.typeId != typeId ==> r.0 == Element(typeId, insertWith)
  {
    var e' := if e.typeId != typeId then Element(typeId, insertWith) else e;
    (e', e'.value)
  }

  /** `insert_memory`: the slot of `(typeId, id)` now holds the value. */
  function InsertMemory<V>(m: IdTypeMap<V>, typeId: U64, id: U64, value: V): (r: IdTypeMap<V>)
    ensures Hash(typeId, id) in r && r[Hash(typeId, id)] == Element(typeId, value)
    ensures r.Keys == m.Keys + {Hash(typeId, id)}
    ensures forall k :: k in m && k != Hash(typeId, id) ==> r[k] == m[k]
  {
    m[Hash(typeId, id) := Element(typeId, value)]
  }

  /** `get_memory`: the value in the slot of `(typeId, id)` if the slot
      holds a value of that type. */
  function GetMemory<V>(m: IdTypeMap<V>, typeId: U64, id: U64): (r: Option<V>)
    ensures r.None? <==> Hash(typeId, id) !in m || m[Hash(typeId, id)].typeId != typeId
    ensures r.Some? ==> m[Hash(typeId, id)] == Element(typeId, r.value)
  {
    var h := Hash(typeId, id);
    if h in m && m[h].typeId == typeId then Some(m[h].value) else None
  }

  /** `get_memory_mut_or`: a vacant slot is filled with `orInsert`; an
      occupied one goes through `GetMutOrInsertWith`. Returns the new map
      and the value now in the slot. */
  function GetMemoryMutOr<V>(m: IdTypeMap<V>, typeId: U64, id: U64, orInsert: V): (r: (IdTypeMap<V>, V))
    ensures GetMemory(r.0, typeId, id) == Some(r.1)
    ensures GetMemory(m, typeId, id).Some? ==> r == (m, GetMemory(m, typeId, id).value)
    ensures GetMemory(m, typeId, id).None? ==> r == (InsertMemory(m, typeId, id, orInsert), orInsert)
  {
    var h := Hash(typeId, id);
    if h !in m then
      var e := Element(typeId, orInsert);
      (m[h := e], e.value)
    else
      var (e, v) := GetMutOrInsertWith(m[h], typeId, orInsert);
      assert e == m[h] ==> m[h := e] == m;
      (m[h := e], v)
  }

  /** What was inserted is read back for the same id and type; any other
      id of the same type reads what it read before. */
  lemma {:induction false} InsertThenGet<V>(m: IdTypeMap<V>, typeId: U64, id: U64, other: U64, value: V)
    requires other != id
    ensures GetMemory(InsertMemory(m, typeId, id, value), typeId, id) == Some(value)
    ensures GetMemory(InsertMemory(m, typeId, id, value), typeId, other) == GetMemory(m, typeId, other)
  {
    HashProperties(typeId, id, other);
  }

  /** Type 1 with id 2 and type 2 with id 1 share the key 3: storing the
      second evicts the first. */
  lemma {:induction false} CollidingKeysEvict<V>(m: IdTypeMap<V>, v: V, w: V)
    ensures Hash(1, 2) == Hash(2, 1) == 3
    ensures GetMemory(InsertMemory(InsertMemory(m, 1, 2, v), 2, 1, w), 1, 2).None?
  {
  }
}
