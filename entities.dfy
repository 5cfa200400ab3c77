/** The simulation's value types: `EntityState`, `ClientInput` and `Snapshot`
    of core/src/deterministic_sim.cpp, and the id-keyed maps built from a
    snapshot's entity list. */
module Entities {
  import opened ByteOrder

  /** One simulated object; positions and velocities are fixed-point
      (1000 units = 1.0 world unit), velocities are per tick. */
  datatype EntityState = EntityState(
    id: u32,
    posX: i32,
    posY: i32,
    velX: i32,
    velY: i32,
    health: i32,
    flags: byte)
  {
    /** `operator==`: field-by-field comparison, which is exactly value equality. */
    function Equals(o: EntityState): (r: bool)
      ensures r <==> this == o
    {
      id == o.id &&
      posX == o.posX &&
      posY == o.posY &&
      velX == o.velX &&
      velY == o.velY &&
      health == o.health &&
      flags == o.flags
    }
  }

  /** One client command, keyed to the server tick it must be applied on. */
  datatype ClientInput = ClientInput(
    clientId: u32,
    inputSeq: u32,
    targetTick: u32,
    moveDx: i8,
    moveDy: i8,
    actionFlags: byte,
    abilityId: u16,
    targetX: i32,
    targetY: i32)

  /** A point-in-time copy of the live entities. */
  datatype Snapshot = Snapshot(serverTick: u32, entities: seq<EntityState>)

  ghost predicate UniqueIds(es: seq<EntityState>)
  {
    forall i, j :: 0 <= i < j < |es| ==> es[i].id != es[j].id
  }

  /** Inserting the entities one by one under their ids, front to back, so
      that a later entity with the same id replaces an earlier one (the
      loops `m[e.id] = e` over a snapshot). */
  function Insert(m: map<u32, EntityState>, es: seq<EntityState>): (r: map<u32, EntityState>)
    ensures r.Keys == m.Keys + (set e | e in es :: e.id)
    ensures forall i :: 0 <= i < |es| ==> es[i].id in r
    decreases |es|
  {
    if es == [] then m else Insert(m[es[0].id := es[0]], es[1..])
  }

  /** The id-keyed map of a snapshot's entity list. */
  function MapOf(es: seq<EntityState>): map<u32, EntityState>
  {
    Insert(map[], es)
  }

  /** With distinct ids, every entity is found under its own id after the
      insertion, and keys that no entity carries keep their old entries. */
  lemma {:induction false} InsertFinds(m: map<u32, EntityState>, es: seq<EntityState>)
    requires UniqueIds(es)
    ensures forall i :: 0 <= i < |es| ==> Insert(m, es)[es[i].id] == es[i]
    ensures forall k :: k in m && (forall i :: 0 <= i < |es| ==> es[i].id != k) ==>
              Insert(m, es)[k] == m[k]
    decreases |es|
  {
    if es != [] {
      var m' := m[es[0].id := es[0]];
      var rest := es[1..];
      assert UniqueIds(rest) by {
        forall i, j | 0 <= i < j < |rest| ensures rest[i].id != rest[j].id {
          assert rest[i] == es[i + 1] && rest[j] == es[j + 1];
        }
      }
      InsertFinds(m', rest);
      forall i | 0 <= i < |es| ensures Insert(m, es)[es[i].id] == es[i] {
        if i > 0 {
          assert es[i] == rest[i - 1];
        } else {
          forall j | 0 <= j < |rest| ensures rest[j].id != es[0].id {
            assert rest[j] == es[j + 1];
          }
        }
      }
      forall k | k in m && (forall i :: 0 <= i < |es| ==> es[i].id != k)
        ensures Insert(m, es)[k] == m[k]
      {
        assert es[0].id != k;
        forall j | 0 <= j < |rest| ensures rest[j].id != k {
          assert rest[j] == es[j + 1];
        }
      }
    }
  }

  /** Every entry is stored under its own id, as in the server's maps. */
  ghost predicate Keyed(m: map<u32, EntityState>)
  {
    forall k :: k in m ==> m[k].id == k
  }

  /** Inserting entities under their ids keeps a map keyed by id. */
  lemma {:induction false} InsertKeyed(m: map<u32, EntityState>, es: seq<EntityState>)
    requires Keyed(m)
    ensures Keyed(Insert(m, es))
    decreases |es|
  {
    if es != [] {
      InsertKeyed(m[es[0].id := es[0]], es[1..]);
    }
  }

  /** Inserting one more entity at the end is a single map update. */
  lemma {:induction false} InsertAppend(m: map<u32, EntityState>, es: seq<EntityState>, e: EntityState)
    ensures Insert(m, es + [e]) == Insert(m, es)[e.id := e]
    decreases |es|
  {
    if es == [] {
      assert es + [e] == [e] && [e][1..] == [];
    } else {
      assert (es + [e])[0] == es[0] && (es + [e])[1..] == es[1..] + [e];
      InsertAppend(m[es[0].id := es[0]], es[1..], e);
    }
  }

  /** An entity list with distinct ids that holds exactly the entries of a
      map keyed by id rebuilds that map. */
  lemma MapOfListsEntries(es: seq<EntityState>, m: map<u32, EntityState>)
    requires UniqueIds(es) && Keyed(m)
    requires forall i :: 0 <= i < |es| ==> es[i].id in m && m[es[i].id] == es[i]
    requires forall k :: k in m ==> m[k] in es
    ensures MapOf(es) == m
  {
    InsertFinds(map[], es);
    var r := MapOf(es);
    assert r.Keys == m.Keys by {
      forall k | k in m ensures k in r {
        assert m[k].id == k;
      }
    }
    forall k | k in m ensures r[k] == m[k] {
      var i :| 0 <= i < |es| && es[i] == m[k];
      assert es[i].id == k;
    }
  }
}
