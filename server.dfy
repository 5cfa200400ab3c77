/** `DemoServer` of core/src/deterministic_sim.cpp: the authoritative state
    (tick counter, live entities, one input queue per client, the maps kept
    for delta encoding) and one fixed step of the simulation. */
module Server {
  import opened ByteOrder
  import opened Entities
  import opened InputQueues
  import opened Physics

  /** The one entity client inputs steer (hard-wired in `tick`). */
  const PLAYER_ID: u32 := 1001

  /** The entity the server starts with: at the origin, at rest, 100 health. */
  const INITIAL_PLAYER := EntityState(PLAYER_ID, 0, 0, 0, 0, 100, 0)

  /** Each velocity component is within what an input can set. */
  predicate SpeedBounded(e: EntityState)
  {
    Abs(e.velX) <= MAX_INPUT_SPEED && Abs(e.velY) <= MAX_INPUT_SPEED
  }

  /** The position is far enough from the 32-bit limits for one step at any
      bounded speed (`pos += vel` must not overflow). */
  predicate InBounds(e: EntityState)
  {
    I32_MIN + MAX_INPUT_SPEED <= e.posX <= I32_MAX - MAX_INPUT_SPEED &&
    I32_MIN + MAX_INPUT_SPEED <= e.posY <= I32_MAX - MAX_INPUT_SPEED
  }

  /** `order` lists every key of `keys` exactly once. */
  ghost predicate Visits(order: seq<u32>, keys: set<u32>)
  {
    (forall c :: c in order <==> c in keys) &&
    (forall i, j :: 0 <= i < j < |order| ==> order[i] != order[j])
  }

  /** Moving a key from the keys still to visit to the visited ones. */
  lemma MoveKey(todo: set<u32>, done: set<u32>, keys: set<u32>, c: u32)
    requires todo !! done && todo + done == keys && c in todo
    ensures (todo - {c}) !! (done + {c}) && (todo - {c}) + (done + {c}) == keys
  {
  }

  /** Visiting one more key. */
  lemma VisitsAppend(order: seq<u32>, keys: set<u32>, c: u32)
    requires Visits(order, keys) && c !in keys
    ensures Visits(order + [c], keys + {c})
  {
  }

  /** The queues once the clients outside `todo` have had their inputs for
      tick `t` removed. */
  ghost function PartlyDrained(qs: map<u32, seq<ClientInput>>, t: u32, todo: set<u32>): map<u32, seq<ClientInput>>
  {
    map c | c in qs :: if c in todo then qs[c] else NotForTick(qs[c], t)
  }

  /** Draining one more client. */
  lemma DrainStep(qs: map<u32, seq<ClientInput>>, t: u32, todo: set<u32>, c: u32)
    requires c in todo && c in qs
    ensures PartlyDrained(qs, t, todo)[c := NotForTick(qs[c], t)] == PartlyDrained(qs, t, todo - {c})
  {
  }

  /** The inputs due at `tick`, client by client in the visiting order, each
      client's in FIFO order. */
  ghost function Due(queues: map<u32, seq<ClientInput>>, order: seq<u32>, tick: u32): seq<ClientInput>
    requires forall c :: c in order ==> c in queues
    decreases |order|
  {
    if order == [] then []
    else Due(queues, order[..|order| - 1], tick) + ForTick(queues[order[|order| - 1]], tick)
  }

  /** One more client's inputs come after those of the clients before it. */
  lemma DueAppend(queues: map<u32, seq<ClientInput>>, order: seq<u32>, c: u32, tick: u32)
    requires forall d :: d in order ==> d in queues
    requires c in queues
    ensures Due(queues, order + [c], tick) == Due(queues, order, tick) + ForTick(queues[c], tick)
  {
    assert (order + [c])[..|order|] == order;
  }

  /** Step 1 of `tick`: the player entity, when it exists, takes the due
      inputs; nothing else changes. */
  function Steer(ents: map<u32, EntityState>, due: seq<ClientInput>): (r: map<u32, EntityState>)
    ensures r.Keys == ents.Keys
    ensures forall k :: k in ents && k != PLAYER_ID ==> r[k] == ents[k]
  {
    if PLAYER_ID in ents then ents[PLAYER_ID := InputsApplied(ents[PLAYER_ID], due)] else ents
  }

  /** Steering with one batch of inputs after another is steering with both. */
  lemma SteerAppend(ents: map<u32, EntityState>, a: seq<ClientInput>, b: seq<ClientInput>)
    ensures Steer(Steer(ents, a), b) == Steer(ents, a + b)
  {
    if PLAYER_ID in ents {
      InputsAppliedAppend(ents[PLAYER_ID], a, b);
    }
  }

  /** Steering keeps entities under their ids, keeps their positions, and
      keeps speeds bounded. */
  lemma SteerKeepsBounds(ents: map<u32, EntityState>, due: seq<ClientInput>)
    requires forall k :: k in ents ==> SpeedBounded(ents[k])
    ensures forall k :: k in ents ==> SpeedBounded(Steer(ents, due)[k])
    ensures forall k :: k in ents ==>
              Steer(ents, due)[k] == ents[k].(velX := Steer(ents, due)[k].velX, velY := Steer(ents, due)[k].velY)
    ensures forall k :: k in ents && InBounds(ents[k]) ==> InBounds(Steer(ents, due)[k])
  {
    if PLAYER_ID in ents {
      InputsKeepSpeed(ents[PLAYER_ID], due);
    }
  }

  /** Step 2 of `tick`: every entity takes one simulation step. */
  function Simulated(ents: map<u32, EntityState>): map<u32, EntityState>
    requires forall k :: k in ents ==> CanStep(ents[k])
  {
    map k | k in ents :: SimulateEntityTick(ents[k])
  }

  /** The body of `tick`'s client loop after the pop: the player, when it
      exists and there are inputs, takes them in order. */
  method SteerPlayer(ents: map<u32, EntityState>, inputs: seq<ClientInput>) returns (r: map<u32, EntityState>)
    ensures r == Steer(ents, inputs)
  {
    r := ents;
    if PLAYER_ID in ents && inputs != [] {
      var e := ApplyInputsToEntity(ents[PLAYER_ID], inputs);
      r := ents[PLAYER_ID := e];
    } else if PLAYER_ID in ents {
      assert ents[PLAYER_ID := InputsApplied(ents[PLAYER_ID], inputs)] == ents;
    }
  }

  /** A bounded speed cannot overflow a position that is in bounds. */
  lemma BoundedCanStep(e: EntityState)
    requires InBounds(e) && SpeedBounded(e)
    ensures CanStep(e)
  {
  }

  /** The entities after one tick: the player's velocity is set by the due
      inputs, then every entity moves by its velocity and slows by the
      friction; ids, health and flags never change, no entity appears or
      disappears, and speeds stay bounded. */
  function TickEntities(ents: map<u32, EntityState>, due: seq<ClientInput>): (r: map<u32, EntityState>)
    requires forall k :: k in ents ==> InBounds(ents[k]) && SpeedBounded(ents[k])
    ensures r.Keys == ents.Keys
    ensures forall k :: k in ents ==>
              var v := if k == PLAYER_ID then InputsApplied(ents[k], due) else ents[k];
              r[k].posX == ents[k].posX + v.velX && r[k].posY == ents[k].posY + v.velY &&
              Decayed(v.velX, r[k].velX, FRICTION_PER_TICK) && Decayed(v.velY, r[k].velY, FRICTION_PER_TICK) &&
              r[k].id == ents[k].id && r[k].health == ents[k].health && r[k].flags == ents[k].flags
    ensures forall k :: k in ents ==> SpeedBounded(r[k])
    ensures Keyed(ents) ==> Keyed(r)
  {
    SteerKeepsBounds(ents, due);
    StepsFit(Steer(ents, due));
    Simulated(Steer(ents, due))
  }

  /** Entities in bounds at bounded speeds can all take a step. */
  lemma StepsFit(ents: map<u32, EntityState>)
    requires forall k :: k in ents ==> InBounds(ents[k]) && SpeedBounded(ents[k])
    ensures forall k :: k in ents ==> CanStep(ents[k])
  {
    forall k | k in ents ensures CanStep(ents[k]) {
      BoundedCanStep(ents[k]);
    }
  }

  /** Step 2 as the loop over the entity map: each entity is stepped once. */
  method SimulateEntities(ents: map<u32, EntityState>) returns (r: map<u32, EntityState>)
    requires forall k :: k in ents ==> CanStep(ents[k])
    ensures r == Simulated(ents)
  {
    r := ents;
    var todo := ents.Keys;
    while todo != {}
      invariant todo <= ents.Keys && r.Keys == ents.Keys
      invariant forall k :: k in ents ==> r[k] == if k in todo then ents[k] else SimulateEntityTick(ents[k])
      decreases |todo|
    {
      var k :| k in todo;
      r := r[k := SimulateEntityTick(r[k])];
      todo := todo - {k};
    }
  }

  /** Step 3: the snapshot's entity list, one copy of each live entity in
      the map's (unspecified) iteration order. */
  method SnapshotEntities(ents: map<u32, EntityState>) returns (es: seq<EntityState>)
    requires Keyed(ents)
    ensures UniqueIds(es)
    ensures forall i :: 0 <= i < |es| ==> es[i].id in ents && ents[es[i].id] == es[i]
    ensures forall k :: k in ents ==> ents[k] in es
  {
    es := [];
    var todo := ents.Keys;
    while todo != {}
      invariant todo <= ents.Keys
      invariant UniqueIds(es)
      invariant forall i :: 0 <= i < |es| ==> es[i].id in ents && es[i].id !in todo && ents[es[i].id] == es[i]
      invariant forall k :: k in ents && k !in todo ==> ents[k] in es
      decreases |todo|
    {
      var k :| k in todo;
      es := es + [ents[k]];
      todo := todo - {k};
    }
  }

  /** The loop `m[e.id] = e` over an entity list, into a cleared map: later
      entities replace earlier ones with the same id, and every entry sits
      under its own id. */
  method IdMap(es: seq<EntityState>) returns (m: map<u32, EntityState>)
    ensures m == MapOf(es) && Keyed(m)
  {
    m := map[];
    for i := 0 to |es|
      invariant m == Insert(map[], es[..i])
    {
      InsertAppend(map[], es[..i], es[i]);
      assert es[..i + 1] == es[..i] + [es[i]];
      m := m[es[i].id := es[i]];
    }
    assert es[..|es|] == es;
    InsertKeyed(map[], es);
  }

  class DemoServer {
    var serverTick: u32
    var entities: map<u32, EntityState>
    var inputQueues: map<u32, InputQueue>
    /** The entities as of the last tick. */
    var prevSnapshotMap: map<u32, EntityState>
    /** The last snapshot sent, the reference for the next delta. */
    var prevSnapshotMapBeforeTick: map<u32, EntityState>
    ghost var Repr: set<object>

    /** Each client owns its own valid queue; entities sit under their ids
        and move no faster than an input can make them. */
    ghost predicate Valid()
      reads this, Repr
    {
      OwnsQueues() && QueuesValid() && EntitiesValid()
    }

    /** Every client has a queue of its own, inside the footprint. */
    ghost predicate OwnsQueues()
      reads this
    {
      this in Repr &&
      (forall c :: c in inputQueues ==> inputQueues[c] in Repr) &&
      (forall c, d :: c in inputQueues && d in inputQueues && c != d ==> inputQueues[c] != inputQueues[d])
    }

    /** Every queue holds at most 256 inputs. */
    ghost predicate QueuesValid()
      reads this, Repr
    {
      forall c :: c in inputQueues && inputQueues[c] in Repr ==> inputQueues[c].Valid()
    }

    /** Entities sit under their ids, at bounded speeds, and the reference
        map for the next delta keeps each entity under its id. */
    ghost predicate EntitiesValid()
      reads this
    {
      Keyed(entities) && (forall k :: k in entities ==> SpeedBounded(entities[k])) &&
      Keyed(prevSnapshotMapBeforeTick)
    }

    /** The contents of every client's queue. */
    ghost function Queues(): map<u32, seq<ClientInput>>
      requires forall c :: c in inputQueues ==> inputQueues[c] in Repr
      reads this, Repr
    {
      map c | c in inputQueues :: inputQueues[c].queue
    }

    /** The `DemoServer` constructor: tick 0, the single player entity, no
        clients, empty reference maps. */
    constructor ()
      ensures Valid() && fresh(Repr)
      ensures serverTick == 0 && entities == map[PLAYER_ID := INITIAL_PLAYER]
      ensures inputQueues == map[] && prevSnapshotMap == map[] && prevSnapshotMapBeforeTick == map[]
    {
      serverTick := 0;
      entities := map[PLAYER_ID := INITIAL_PLAYER];
      inputQueues := map[];
      prevSnapshotMap := map[];
      prevSnapshotMapBeforeTick := map[];
      Repr := {this};
    }

    /** `receiveInput`: creates an empty queue for a new client, then pushes
        the input; accepted exactly when that client had fewer than 256
        queued. Only that client's queue changes. */
    method ReceiveInput(input: ClientInput) returns (accepted: bool)
      requires Valid()
      modifies Repr
      ensures Valid() && fresh(Repr - old(Repr))
      ensures serverTick == old(serverTick) && entities == old(entities)
      ensures prevSnapshotMap == old(prevSnapshotMap) && prevSnapshotMapBeforeTick == old(prevSnapshotMapBeforeTick)
      ensures inputQueues.Keys == old(inputQueues.Keys) + {input.clientId}
      ensures var q := if input.clientId in old(Queues()) then old(Queues())[input.clientId] else [];
              (accepted <==> |q| < MAX_CLIENT_INPUT_QUEUE) &&
              Queues() == old(Queues())[input.clientId := if accepted then q + [input] else q]
    {
      var q := QueueFor(input.clientId);
      assert OwnsQueues() && q == inputQueues[input.clientId];
      assert forall d :: d in inputQueues && d != input.clientId ==> inputQueues[d] != q;
      accepted := q.Push(input);
    }

    /** `input_queues[client]`: the client's queue, created empty when the
        client is new. */
    method QueueFor(client: u32) returns (q: InputQueue)
      requires Valid()
      modifies this
      ensures Valid() && fresh(Repr - old(Repr)) && Repr == old(Repr) + {q}
      ensures serverTick == old(serverTick) && entities == old(entities)
      ensures prevSnapshotMap == old(prevSnapshotMap) && prevSnapshotMapBeforeTick == old(prevSnapshotMapBeforeTick)
      ensures inputQueues == old(inputQueues)[client := q]
      ensures client in old(inputQueues) ==> q == old(inputQueues)[client]
      ensures q.queue == if client in old(Queues()) then old(Queues())[client] else []
    {
      if client in inputQueues {
        q := inputQueues[client];
      } else {
        q := new InputQueue();
        inputQueues := inputQueues[client := q];
        Repr := Repr + {q};
      }
    }

    /** Step 1 of `tick`: visits every client once, in some order, removing
        its inputs for the current tick and applying them to the player. */
    method DrainInputs() returns (ghost order: seq<u32>)
      requires Valid()
      modifies Repr
      ensures Valid() && Repr == old(Repr) && inputQueues == old(inputQueues)
      ensures serverTick == old(serverTick)
      ensures prevSnapshotMap == old(prevSnapshotMap) && prevSnapshotMapBeforeTick == old(prevSnapshotMapBeforeTick)
      ensures Visits(order, inputQueues.Keys)
      ensures forall c :: c in inputQueues ==> inputQueues[c].queue == NotForTick(old(Queues())[c], serverTick)
      ensures entities == Steer(old(entities), Due(old(Queues()), order, serverTick))
    {
      ghost var q0 := Queues();
      ghost var due: seq<ClientInput> := [];
      var todo := inputQueues.Keys;
      ghost var done: set<u32> := {};
      order := [];
      while todo != {}
        invariant Valid() && Repr == old(Repr) && inputQueues == old(inputQueues)
        invariant serverTick == old(serverTick)
        invariant prevSnapshotMap == old(prevSnapshotMap) && prevSnapshotMapBeforeTick == old(prevSnapshotMapBeforeTick)
        invariant todo !! done && todo + done == inputQueues.Keys
        invariant Visits(order, done)
        invariant Queues() == PartlyDrained(q0, serverTick, todo)
        invariant due == Due(q0, order, serverTick)
        invariant entities == Steer(old(entities), due)
        decreases |todo|
      {
        var c :| c in todo;
        ghost var before := entities;
        ghost var inputs := DrainClient(c);
        DrainStep(q0, serverTick, todo, c);
        SteerAppend(old(entities), due, inputs);
        DueAppend(q0, order, c, serverTick);
        VisitsAppend(order, done, c);
        MoveKey(todo, done, inputQueues.Keys, c);
        done := done + {c};
        due := due + inputs;
        order := order + [c];
        todo := todo - {c};
      }
      forall c | c in inputQueues ensures inputQueues[c].queue == NotForTick(q0[c], serverTick) {
        assert Queues()[c] == PartlyDrained(q0, serverTick, {})[c];
      }
    }

    /** One turn of step 1: pops client `c`'s inputs for the current tick
        and, when the player exists and there are any, applies them to it in
        place. */
    method DrainClient(c: u32) returns (ghost inputs: seq<ClientInput>)
      requires Valid() && c in inputQueues
      modifies this, inputQueues[c]
      ensures Valid() && Repr == old(Repr) && inputQueues == old(inputQueues)
      ensures serverTick == old(serverTick)
      ensures prevSnapshotMap == old(prevSnapshotMap) && prevSnapshotMapBeforeTick == old(prevSnapshotMapBeforeTick)
      ensures inputs == ForTick(old(Queues())[c], serverTick)
      ensures Queues() == old(Queues())[c := NotForTick(old(Queues())[c], serverTick)]
      ensures entities == Steer(old(entities), inputs)
    {
      var popped := inputQueues[c].PopForTick(serverTick);
      forall d | d in inputQueues && d != c
        ensures inputQueues[d].queue == old(inputQueues[d].queue)
      {
        assert inputQueues[d] != inputQueues[c];
      }
      inputs := popped;
      SteerKeepsBounds(entities, popped);
      entities := SteerPlayer(entities, popped);
    }

    /** `tick`: drains and applies the inputs due now, steps every entity,
        returns a snapshot stamped with the current tick that holds every
        live entity, records the entities as the previous snapshot, and
        advances the 32-bit tick counter by one. */
    method Tick() returns (snap: Snapshot, ghost order: seq<u32>)
      requires Valid()
      requires forall k :: k in entities ==> InBounds(entities[k])
      modifies Repr
      ensures Valid() && Repr == old(Repr) && inputQueues == old(inputQueues)
      ensures Visits(order, inputQueues.Keys)
      ensures forall c :: c in inputQueues ==> inputQueues[c].queue == NotForTick(old(Queues())[c], old(serverTick))
      ensures entities == TickEntities(old(entities), Due(old(Queues()), order, old(serverTick)))
      ensures snap.serverTick == old(serverTick) && UniqueIds(snap.entities) && MapOf(snap.entities) == entities
      ensures prevSnapshotMap == entities && prevSnapshotMapBeforeTick == old(prevSnapshotMapBeforeTick)
      ensures serverTick == (old(serverTick) + 1) % 0x1_0000_0000
    {
      ghost var e0 := entities;
      order := DrainInputs();
      ghost var due := Due(old(Queues()), order, serverTick);
      SteerKeepsBounds(e0, due);
      StepsFit(entities);
      var moved := SimulateEntities(entities);
      assert moved == TickEntities(e0, due);
      var es := SnapshotEntities(moved);
      MapOfListsEntries(es, moved);
      snap := Snapshot(serverTick, es);
      assert serverTick % 0x1_0000_0000 == serverTick;
      WrapSucc(serverTick);
      entities, prevSnapshotMap, serverTick := moved, moved, Inc32(serverTick);
    }

    /** `getPrevBefore`: the last-sent snapshot's entities, each under its
        own id. */
    function PrevBefore(): (m: map<u32, EntityState>)
      reads this
      ensures EntitiesValid() ==> Keyed(m)
    {
      prevSnapshotMapBeforeTick
    }

    /** `updatePrevBeforeFromSnapshot`: the reference map for the next delta
        becomes the snapshot's entities under their ids. */
    method UpdatePrevBeforeFromSnapshot(s: Snapshot)
      requires Valid()
      modifies this
      ensures Valid()
      ensures prevSnapshotMapBeforeTick == MapOf(s.entities) && Keyed(prevSnapshotMapBeforeTick)
      ensures serverTick == old(serverTick) && entities == old(entities) && inputQueues == old(inputQueues)
      ensures prevSnapshotMap == old(prevSnapshotMap) && Repr == old(Repr)
    {
      prevSnapshotMapBeforeTick := IdMap(s.entities);
    }
  }
}
