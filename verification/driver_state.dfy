/** The two pieces of state the example driver keeps besides the trees:
    `Map`, a store of one value per type with a dirty flag, and `Cx`, the
    path of ids entered so far. Type ids are opaque numbers. */
module DriverState {
  import opened Wrappers
  import Ids

  // ------------------------------------------------------------------ Map

  /** One value per type id, and whether a stored value was replaced
      since the last `begin`. */
  datatype MapState<V> = MapState(inner: map<nat, V>, dirty: bool)

  function NewMap<V>(): (m: MapState<V>)
    ensures m.inner == map[] && !m.dirty
  {
    MapState(map[], false)
  }

  /** `Map::begin`: forgets earlier replacements. */
  function Begin<V>(m: MapState<V>): (r: MapState<V>)
    ensures r.inner == m.inner && !r.dirty
  {
    m.(dirty := false)
  }

  function IsDirty<V>(m: MapState<V>): bool {
    m.dirty
  }

  /** `Map::get::<T>()`: the value stored for the type, if any. The
      downcast cannot fail, since the slot of a type only ever holds a
      value of that type. */
  function Get<V>(m: MapState<V>, ty: nat): (r: Option<V>)
    ensures r.Some? <==> ty in m.inner
    ensures r.Some? ==> r.value == m.inner[ty]
  {
    if ty in m.inner then Some(m.inner[ty]) else None
  }

  /** `Map::set`: stores the value in its type's slot; the map becomes
      dirty when a value was already there, and is otherwise left as
      dirty as it was. */
  function Set<V>(m: MapState<V>, ty: nat, v: V): (r: MapState<V>)
    ensures Get(r, ty) == Some(v)
    ensures forall t :: t != ty ==> Get(r, t) == Get(m, t)
    ensures r.inner.Keys == m.inner.Keys + {ty}
    ensures r.dirty <==> m.dirty || Get(m, ty).Some?
  {
    MapState(m.inner[ty := v], m.dirty || ty in m.inner)
  }

  /** A run of `set` calls, in order. */
  function SetAll<V>(m: MapState<V>, writes: seq<(nat, V)>): MapState<V>
    decreases |writes|
  {
    if |writes| == 0 then m else SetAll(Set(m, writes[0].0, writes[0].1), writes[1..])
  }

  /** Some write of the run finds its type already stored, by the map as
      it stands when that write happens. */
  predicate SomeReplaces<V>(keys: set<nat>, writes: seq<(nat, V)>)
    decreases |writes|
  {
    |writes| > 0 && (writes[0].0 in keys || SomeReplaces(keys + {writes[0].0}, writes[1..]))
  }

  /** After `begin`, the map is dirty exactly when one of the following
      `set` calls replaced a value: setting new types alone never makes
      it dirty. */
  lemma {:induction false} DirtyIffReplaced<V>(m: MapState<V>, writes: seq<(nat, V)>)
    ensures IsDirty(SetAll(Begin(m), writes)) <==> SomeReplaces(m.inner.Keys, writes)
  {
    SetAllDirty(Begin(m), writes);
  }

  lemma {:induction false} SetAllDirty<V>(m: MapState<V>, writes: seq<(nat, V)>)
    ensures IsDirty(SetAll(m, writes)) <==> m.dirty || SomeReplaces(m.inner.Keys, writes)
    decreases |writes|
  {
    if |writes| > 0 {
      var m' := Set(m, writes[0].0, writes[0].1);
      SetAllDirty(m', writes[1..]);
    }
  }

  /** After a run of writes, each type holds the value of its last write,
      and a type never written keeps its value. */
  lemma {:induction false} SetAllLastWriteWins<V>(m: MapState<V>, writes: seq<(nat, V)>, ty: nat)
    ensures Get(SetAll(m, writes), ty) ==
      (if exists k :: 0 <= k < |writes| && writes[k].0 == ty
       then Some(writes[LastWrite(writes, ty)].1)
       else Get(m, ty))
    decreases |writes|
  {
    if |writes| > 0 {
      var m' := Set(m, writes[0].0, writes[0].1);
      SetAllLastWriteWins(m', writes[1..], ty);
      var rest := writes[1..];
      if exists k :: 0 <= k < |rest| && rest[k].0 == ty {
        var k :| 0 <= k < |rest| && rest[k].0 == ty;
        assert writes[k + 1].0 == ty;
        assert LastWrite(writes, ty) == LastWrite(rest, ty) + 1;
      } else if writes[0].0 == ty {
        assert LastWrite(writes, ty) == 0;
      } else {
        forall k | 0 <= k < |writes| ensures writes[k].0 != ty {
          if k > 0 {
            assert writes[k] == rest[k - 1];
          }
        }
      }
    }
  }

  /** The index of the last write of a type. */
  function LastWrite<V>(writes: seq<(nat, V)>, ty: nat): (k: nat)
    requires exists k :: 0 <= k < |writes| && writes[k].0 == ty
    ensures k < |writes| && writes[k].0 == ty
    ensures forall j :: k < j < |writes| ==> writes[j].0 != ty
    decreases |writes|
  {
    var rest := writes[1..];
    if exists j :: 0 <= j < |rest| && rest[j].0 == ty then
      var j := LastWrite(rest, ty);
      assert forall i :: j + 1 < i < |writes| ==> writes[i] == rest[i - 1];
      j + 1
    else
      assert forall i :: 0 < i < |writes| ==> writes[i] == rest[i - 1];
      0
  }

  // ------------------------------------------------------------------- Cx

  /** `IdPath`: the ids of the scopes entered, outermost first. */
  type Id = Ids.NonZeroU64

  datatype Cx = Cx(idPath: seq<Id>)

  function NewCx(): (c: Cx)
    ensures c.idPath == []
  {
    Cx([])
  }

  function Push(c: Cx, id: Id): (r: Cx)
    ensures |r.idPath| == |c.idPath| + 1
    ensures r.idPath[..|c.idPath|] == c.idPath && r.idPath[|c.idPath|] == id
  {
    Cx(c.idPath + [id])
  }

  /** `Vec::pop`: drops the innermost id; an empty path stays empty. */
  function Pop(c: Cx): (r: Cx)
    ensures |c.idPath| == 0 ==> r.idPath == []
    ensures |c.idPath| > 0 ==> r.idPath + [c.idPath[|c.idPath| - 1]] == c.idPath
  {
    if |c.idPath| == 0 then c else Cx(c.idPath[..|c.idPath| - 1])
  }

  /** `pop` undoes `push`. */
  lemma {:induction false} PopPush(c: Cx, id: Id)
    ensures Pop(Push(c, id)) == c
  {
    assert (c.idPath + [id])[..|c.idPath|] == c.idPath;
  }

  /** `Cx::with_id`: runs the body one scope deeper, then leaves it. */
  function WithId<R>(c: Cx, id: Id, f: Cx -> (Cx, R)): (Cx, R) {
    var (c', ret) := f(Push(c, id));
    (Pop(c'), ret)
  }

  /** A body that leaves the path as it found it. */
  ghost predicate Balanced<R>(f: Cx -> (Cx, R)) {
    forall c: Cx :: f(c).0 == c
  }

  /** A balanced body runs with the id pushed onto the path, returns its
      own result, and leaves the path as it was before the call. */
  lemma {:induction false} WithIdRestoresPath<R>(c: Cx, id: Id, f: Cx -> (Cx, R))
    requires Balanced(f)
    ensures WithId(c, id, f).0 == c
    ensures WithId(c, id, f).1 == f(Push(c, id)).1
  {
    PopPush(c, id);
  }

  /** Hence `with_id` around a balanced body is balanced, so scopes nest. */
  lemma {:induction false} WithIdIsBalanced<R>(id: Id, f: Cx -> (Cx, R))
    requires Balanced(f)
    ensures Balanced((c: Cx) => WithId(c, id, f))
  {
    forall c: Cx ensures WithId(c, id, f).0 == c {
      WithIdRestoresPath(c, id, f);
    }
  }
}
