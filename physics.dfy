/** The integer movement rules of core/src/deterministic_sim.cpp: input
    steering (`applyInputsToEntity`), friction (`approach_zero`) and position
    integration (`simulateEntityTick`). */
module Physics {
  import opened ByteOrder
  import opened Entities

  /** `MAX_SPEED_FIXED_PER_TICK`: 5.0 units/s * 1000 / 30 ticks/s, truncated. */
  const MAX_SPEED_FIXED_PER_TICK: int := 166
  const FRICTION_PER_TICK: int := 25
  /** The largest speed one input can set: |(166 * -128) / 127| = 167
      (a move component is an `int8_t`, so -128 is possible). */
  const MAX_INPUT_SPEED: int := 167

  /** C++ integer division of a by a positive b: truncates toward zero. */
  function DivTrunc(a: int, b: int): (q: int)
    requires b > 0
    ensures Abs(q) * b <= Abs(a) < Abs(q) * b + b
    ensures q == 0 || (q > 0 <==> a > 0)
  {
    var q := Abs(a) / b;
    EuclideanBounds(Abs(a), b);
    if a >= 0 then q else -q
  }

  lemma EuclideanBounds(n: nat, b: int)
    requires b > 0
    ensures (n / b) * b <= n < (n / b) * b + b
  {
    assert n == b * (n / b) + n % b;
  }

  /** v' is v moved `amount` toward zero, stopping at zero. */
  ghost predicate Decayed(v: int, v': int, amount: int)
  {
    Abs(v') == Max(Abs(v) - amount, 0) && (v' == 0 || (v' > 0 <==> v > 0))
  }

  /** `approach_zero`: the magnitude drops by `amount` but not below zero,
      and the sign never flips. */
  function ApproachZero(current: i32, amount: i32): (r: i32)
    requires 0 <= amount
    ensures Decayed(current, r, amount)
  {
    if current > amount then current - amount
    else if current < -amount then current + amount
    else 0
  }

  /** An input steers only when its move vector is non-zero. */
  predicate Moves(input: ClientInput)
  {
    input.moveDx != 0 || input.moveDy != 0
  }

  /** The velocity a moving input sets: each component is
      `(MAX_SPEED_FIXED_PER_TICK * n) / 127` in C++ arithmetic; nothing else
      of the entity changes. */
  function Steered(e: EntityState, input: ClientInput): (r: EntityState)
    ensures Abs(r.velX) <= MAX_INPUT_SPEED && Abs(r.velY) <= MAX_INPUT_SPEED
    ensures Abs(r.velX) * 127 <= MAX_SPEED_FIXED_PER_TICK * Abs(input.moveDx) < Abs(r.velX) * 127 + 127
    ensures Abs(r.velY) * 127 <= MAX_SPEED_FIXED_PER_TICK * Abs(input.moveDy) < Abs(r.velY) * 127 + 127
    ensures (r.velX > 0 <==> input.moveDx > 0) && (r.velX < 0 <==> input.moveDx < 0)
    ensures (r.velY > 0 <==> input.moveDy > 0) && (r.velY < 0 <==> input.moveDy < 0)
    ensures r == e.(velX := r.velX, velY := r.velY)
  {
    var vx := DivTrunc(MAX_SPEED_FIXED_PER_TICK * input.moveDx, 127);
    var vy := DivTrunc(MAX_SPEED_FIXED_PER_TICK * input.moveDy, 127);
    e.(velX := vx, velY := vy)
  }

  /** The entity after the inputs are applied in order. */
  function InputsApplied(e: EntityState, inputs: seq<ClientInput>): (r: EntityState)
    ensures r == e.(velX := r.velX, velY := r.velY)
    decreases |inputs|
  {
    if inputs == [] then e
    else
      var prior := InputsApplied(e, inputs[..|inputs| - 1]);
      var last := inputs[|inputs| - 1];
      if Moves(last) then Steered(prior, last) else prior
  }

  /** The last moving input fully decides the velocity. */
  lemma {:induction false} LastMoveWins(e: EntityState, inputs: seq<ClientInput>, j: nat)
    requires j < |inputs| && Moves(inputs[j])
    requires forall k :: j < k < |inputs| ==> !Moves(inputs[k])
    ensures InputsApplied(e, inputs) == Steered(e, inputs[j])
    decreases |inputs|
  {
    var front := inputs[..|inputs| - 1];
    if j < |inputs| - 1 {
      assert front[j] == inputs[j];
      LastMoveWins(e, front, j);
    } else {
      assert Steered(InputsApplied(e, front), inputs[j]) == Steered(e, inputs[j]);
    }
  }

  /** Inputs that do not move leave the entity as it is, velocity included. */
  lemma {:induction false} NoMoveKeepsVelocity(e: EntityState, inputs: seq<ClientInput>)
    requires forall k :: 0 <= k < |inputs| ==> !Moves(inputs[k])
    ensures InputsApplied(e, inputs) == e
    decreases |inputs|
  {
    if inputs != [] {
      NoMoveKeepsVelocity(e, inputs[..|inputs| - 1]);
    }
  }

  /** Applying two batches of inputs one after the other is applying their
      concatenation: the server may steer the same entity once per client. */
  lemma {:induction false} InputsAppliedAppend(e: EntityState, a: seq<ClientInput>, b: seq<ClientInput>)
    ensures InputsApplied(InputsApplied(e, a), b) == InputsApplied(e, a + b)
    decreases |b|
  {
    if b == [] {
      assert a + b == a;
    } else {
      var front := b[..|b| - 1];
      assert (a + b)[..|a + b| - 1] == a + front;
      assert (a + b)[|a + b| - 1] == b[|b| - 1];
      InputsAppliedAppend(e, a, front);
    }
  }

  /** Inputs never push a velocity component above `MAX_INPUT_SPEED` when
      it starts within that bound. */
  lemma {:induction false} InputsKeepSpeed(e: EntityState, inputs: seq<ClientInput>)
    requires Abs(e.velX) <= MAX_INPUT_SPEED && Abs(e.velY) <= MAX_INPUT_SPEED
    ensures Abs(InputsApplied(e, inputs).velX) <= MAX_INPUT_SPEED
    ensures Abs(InputsApplied(e, inputs).velY) <= MAX_INPUT_SPEED
    decreases |inputs|
  {
    if inputs != [] {
      InputsKeepSpeed(e, inputs[..|inputs| - 1]);
    }
  }

  /** `applyInputsToEntity`: the loop over the inputs. */
  method ApplyInputsToEntity(e: EntityState, inputs: seq<ClientInput>) returns (r: EntityState)
    ensures r == InputsApplied(e, inputs)
  {
    r := e;
    var i := 0;
    while i < |inputs|
      invariant 0 <= i <= |inputs|
      invariant r == InputsApplied(e, inputs[..i])
    {
      var input := inputs[i];
      if input.moveDx != 0 || input.moveDy != 0 {
        var newVx := DivTrunc(MAX_SPEED_FIXED_PER_TICK * input.moveDx, 127);
        var newVy := DivTrunc(MAX_SPEED_FIXED_PER_TICK * input.moveDy, 127);
        r := r.(velX := newVx, velY := newVy);
      }
      assert inputs[..i + 1][..i] == inputs[..i];
      i := i + 1;
    }
    assert inputs[..i] == inputs;
  }

  /** `pos += vel` stays within 32 bits (signed overflow is undefined in C++). */
  predicate CanStep(e: EntityState)
  {
    I32_MIN <= e.posX + e.velX <= I32_MAX && I32_MIN <= e.posY + e.velY <= I32_MAX
  }

  /** `simulateEntityTick`: the position advances by the velocity it had
      before friction, then each velocity component decays by
      `FRICTION_PER_TICK`; id, health and flags are untouched. */
  function SimulateEntityTick(e: EntityState): (r: EntityState)
    requires CanStep(e)
    ensures r.posX == e.posX + e.velX && r.posY == e.posY + e.velY
    ensures Decayed(e.velX, r.velX, FRICTION_PER_TICK) && Decayed(e.velY, r.velY, FRICTION_PER_TICK)
    ensures r.id == e.id && r.health == e.health && r.flags == e.flags
  {
    var moved := e.(posX := e.posX + e.velX, posY := e.posY + e.velY);
    moved.(velX := ApproachZero(moved.velX, FRICTION_PER_TICK),
           velY := ApproachZero(moved.velY, FRICTION_PER_TICK))
  }

  /** `n` consecutive ticks stay within 32 bits. */
  ghost predicate CanRun(e: EntityState, n: nat)
    decreases n
  {
    n == 0 || (CanStep(e) && CanRun(SimulateEntityTick(e), n - 1))
  }

  /** The entity after `n` ticks with no input. */
  ghost function Run(e: EntityState, n: nat): EntityState
    requires CanRun(e, n)
    decreases n
  {
    if n == 0 then e else Run(SimulateEntityTick(e), n - 1)
  }

  /** Friction alone brings each velocity component to rest: after `n`
      ticks its magnitude has dropped by 25 per tick down to exactly zero,
      never past it. */
  lemma {:induction false} FrictionSettles(e: EntityState, n: nat)
    requires CanRun(e, n)
    ensures Decayed(e.velX, Run(e, n).velX, n * FRICTION_PER_TICK)
    ensures Decayed(e.velY, Run(e, n).velY, n * FRICTION_PER_TICK)
    decreases n
  {
    if n > 0 {
      FrictionSettles(SimulateEntityTick(e), n - 1);
    }
  }
}
