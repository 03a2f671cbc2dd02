/**
 * The field state of one simulation run and the tick that advances it
 * (2Dcells.c:145-253): allocation and seeding, the per-cell ionic reaction
 * pass, and the diffusion step on `v`. The ionic update and the diffusion
 * stencil are parameters: their floating-point formulas are not modelled.
 */
module Field {
  import opened Index
  import opened Diffusion

  /** The per-cell arrays of 2Dcells.c:151-154, indexed by `row*ynum+col`. */
  datatype Field = Field(v: seq<real>, h: seq<real>, f: seq<real>, stim: seq<real>)

  /** The state of one cell, as the reaction pass reads it. */
  datatype CellState = CellState(v: real, h: real, f: real, stim: real)

  /** What the reaction pass writes back to one cell; `stim` is never written. */
  datatype CellUpdate = CellUpdate(v: real, h: real, f: real)

  predicate WellFormed(field: Field, num: int)
  {
    |field.v| == num && |field.h| == num && |field.f| == num && |field.stim| == num
  }

  function CellAt(field: Field, i: int): (c: CellState)
    requires 0 <= i < |field.v| && |field.h| == |field.v| && |field.f| == |field.v| && |field.stim| == |field.v|
  {
    CellState(field.v[i], field.h[i], field.f[i], field.stim[i])
  }

  /** The initial gate values of 2Dcells.c:160-161. */
  const InitialH: real := 0.8
  const InitialF: real := 0.5

  /** Flat position `p` is one of the 100 positions `i*ynum + j` with `i, j < 10` that
      the seeding loop of 2Dcells.c:166-170 sets. */
  ghost predicate InSeedBlock(p: int, ynum: int)
  {
    exists i, j :: 0 <= i < 10 && 0 <= j < 10 && p == At(i, j, ynum)
  }

  /** When rows are at least 10 wide the seeded positions are exactly the top-left
      block of rows 0-9 and columns 0-9. */
  lemma {:induction false} SeedBlockIsCorner(i: int, j: int, ynum: int)
    requires 10 <= ynum && 0 <= i && 0 <= j < ynum
    ensures InSeedBlock(At(i, j, ynum), ynum) <==> i < 10 && j < 10
  {
    if InSeedBlock(At(i, j, ynum), ynum) {
      var a, b :| 0 <= a < 10 && 0 <= b < 10 && At(i, j, ynum) == At(a, b, ynum);
      AtInjective(i, j, a, b, ynum);
    }
  }

  /** Allocation and initial values of one run (2Dcells.c:151-170): every cell at rest
      with `h = 0.8`, `f = 0.5`, no stimulus, and `v = 1` on the seeded block; the
      scratch grid `tmp` is allocated zeroed. */
  method InitialField(xnum: nat, ynum: nat) returns (field: Field, tmp: seq<real>)
    requires At(9, 9, ynum) < xnum * ynum
    ensures WellFormed(field, xnum * ynum)
    ensures |tmp| == xnum * ynum && forall p :: 0 <= p < |tmp| ==> tmp[p] == 0.0
    ensures forall p :: 0 <= p < xnum * ynum ==> field.v[p] == if InSeedBlock(p, ynum) then 1.0 else 0.0
    ensures forall p :: 0 <= p < xnum * ynum ==> field.h[p] == InitialH && field.f[p] == InitialF && field.stim[p] == 0.0
    ensures 3 <= xnum && 10 <= ynum ==>
              forall i, j :: InGrid(i, j, xnum, ynum) ==> Get(field.v, xnum, ynum, i, j) == if i < 10 && j < 10 then 1.0 else 0.0
  {
    var num := xnum * ynum;
    var resting := RestingField(num);
    var v := SeedCorner(resting.v, ynum);
    field := resting.(v := v);
    tmp := seq(num, _ => 0.0);
    if 3 <= xnum && 10 <= ynum {
      forall i, j | InGrid(i, j, xnum, ynum)
        ensures Get(field.v, xnum, ynum, i, j) == if i < 10 && j < 10 then 1.0 else 0.0
      {
        AtBounds(i, j, xnum, ynum);
        SeedBlockIsCorner(i, j, ynum);
      }
    }
  }

  /** The initial-values loop of 2Dcells.c:158-163: every cell at rest. */
  method RestingField(num: nat) returns (field: Field)
    ensures WellFormed(field, num)
    ensures forall p :: 0 <= p < num ==>
              field.v[p] == 0.0 && field.h[p] == InitialH && field.f[p] == InitialF && field.stim[p] == 0.0
  {
    var v: seq<real> := [];
    var h: seq<real> := [];
    var f: seq<real> := [];
    var stim: seq<real> := [];
    var p := 0;
    while p < num
      invariant 0 <= p <= num && |v| == p && |h| == p && |f| == p && |stim| == p
      invariant forall q :: 0 <= q < p ==> v[q] == 0.0 && h[q] == InitialH && f[q] == InitialF && stim[q] == 0.0
    {
      v := v + [0.0];
      h := h + [InitialH];
      f := f + [InitialF];
      stim := stim + [0.0];
      p := p + 1;
    }
    field := Field(v, h, f, stim);
  }

  /** The seeding loops of 2Dcells.c:166-170 on an all-zero `v`: exactly the seed
      block is set to 1. */
  method SeedCorner(v0: seq<real>, ynum: nat) returns (v: seq<real>)
    requires At(9, 9, ynum) < |v0|
    requires forall q :: 0 <= q < |v0| ==> v0[q] == 0.0
    ensures |v| == |v0|
    ensures forall q :: 0 <= q < |v| ==> v[q] == if InSeedBlock(q, ynum) then 1.0 else 0.0
  {
    v := v0;
    var num := |v0|;
    var i := 0;
    while i < 10
      invariant 0 <= i <= 10 && |v| == num
      invariant forall q :: 0 <= q < num ==>
                  v[q] == if exists a, b :: 0 <= a < i && 0 <= b < 10 && q == At(a, b, ynum) then 1.0 else 0.0
    {
      var j := 0;
      while j < 10
        invariant 0 <= j <= 10 && |v| == num
        invariant forall q :: 0 <= q < num ==>
                    v[q] == if (exists a, b :: 0 <= a < i && 0 <= b < 10 && q == At(a, b, ynum)) ||
                               (exists b :: 0 <= b < j && q == At(i, b, ynum))
                            then 1.0 else 0.0
      {
        assert At(i, j, ynum) <= At(9, 9, ynum) by {
          MulMonotone(i, 9, ynum);
        }
        v := v[At(i, j, ynum) := 1.0];
        j := j + 1;
      }
      i := i + 1;
    }
  }

  /** The ionic reaction pass of 2Dcells.c:189-217 with the per-cell update `react`
      given: every cell is replaced by `react` of its own state alone, and `stim`
      is left as it was. */
  method ReactionPass(field: Field, num: nat, react: CellState -> CellUpdate) returns (r: Field)
    requires WellFormed(field, num)
    ensures WellFormed(r, num) && r.stim == field.stim
    ensures forall i :: 0 <= i < num ==>
              var u := react(CellAt(field, i));
              r.v[i] == u.v && r.h[i] == u.h && r.f[i] == u.f
  {
    r := field;
    var i := 0;
    while i < num
      invariant 0 <= i <= num && WellFormed(r, num) && r.stim == field.stim
      invariant forall k :: 0 <= k < i ==>
                  var u := react(CellAt(field, k));
                  r.v[k] == u.v && r.h[k] == u.h && r.f[k] == u.f
      invariant forall k :: i <= k < num ==> CellAt(r, k) == CellAt(field, k)
    {
      var u := react(CellAt(r, i));
      r := r.(v := r.v[i := u.v], h := r.h[i := u.h], f := r.f[i := u.f]);
      i := i + 1;
    }
  }

  /** The voltages right after the reaction pass. */
  function ReactedV(field: Field, react: CellState -> CellUpdate): (r: seq<real>)
    requires WellFormed(field, |field.v|)
    ensures |r| == |field.v|
  {
    seq(|field.v|, i requires 0 <= i < |field.v| => react(CellAt(field, i)).v)
  }

  /** One simulation tick (2Dcells.c:188-252): the reaction pass over the whole grid,
      then the diffusion step on `v` with stencil `lap`. */
  method Tick(field: Field, tmp: seq<real>, xnum: int, ynum: int,
              react: CellState -> CellUpdate, lap: (real, real, real, real, real) -> real)
    returns (r: Field, tmp': seq<real>)
    requires IsGrid(field.v, xnum, ynum) && IsGrid(tmp, xnum, ynum) && WellFormed(field, xnum * ynum)
    ensures WellFormed(r, xnum * ynum) && IsGrid(tmp', xnum, ynum)
    ensures (r.v, tmp') == DiffusionResult(ReactedV(field, react), tmp, xnum, ynum, lap)
    ensures r.stim == field.stim
    ensures forall i :: 0 <= i < xnum * ynum ==>
              r.h[i] == react(CellAt(field, i)).h && r.f[i] == react(CellAt(field, i)).f
    ensures forall i, j :: InGrid(i, j, xnum, ynum) && !Interior(i, j, xnum, ynum) ==>
              Get(r.v, xnum, ynum, i, j) == Get(ReactedV(field, react), xnum, ynum, Reflect(i, xnum), Reflect(j, ynum))
    ensures forall i, j :: Interior(i, j, xnum, ynum) ==> Get(r.v, xnum, ynum, i, j) == StencilAt(tmp', xnum, ynum, lap, i, j)
  {
    var reacted := ReactionPass(field, xnum * ynum, react);
    assert reacted.v == ReactedV(field, react);
    var v', t' := DiffusionStep(reacted.v, tmp, xnum, ynum, lap);
    r := reacted.(v := v');
    tmp' := t';
  }
}
