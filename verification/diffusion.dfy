/**
 * The index structure of the diffusion step on the flat `xnum*ynum` grid
 * (2Dcells.c:219-252): the reflective ("non-flux") boundary passes and the two
 * 5-point stencil passes that alternate between `v` and the scratch grid `tmp`.
 * Cell values are generic and the stencil formula is a parameter `f` of the
 * centre and its four axis neighbours, so only the data movement is modelled.
 */
module Diffusion {
  import opened Index

  /** A flat row-major grid of `xnum` rows and `ynum` columns that the boundary
      passes can run on: they read two cells inwards from every edge. */
  predicate IsGrid<T>(g: seq<T>, xnum: int, ynum: int)
  {
    3 <= xnum && 3 <= ynum && |g| == xnum * ynum
  }

  predicate InGrid(i: int, j: int, xnum: int, ynum: int)
  {
    0 <= i < xnum && 0 <= j < ynum
  }

  /** Cells off the outer ring of the grid, the ones the stencil passes update. */
  predicate Interior(i: int, j: int, xnum: int, ynum: int)
  {
    1 <= i <= xnum - 2 && 1 <= j <= ynum - 2
  }

  /** `g[i*ynum+j]`. */
  function Get<T>(g: seq<T>, xnum: int, ynum: int, i: int, j: int): (x: T)
    requires IsGrid(g, xnum, ynum) && InGrid(i, j, xnum, ynum)
  {
    AtBounds(i, j, xnum, ynum);
    g[At(i, j, ynum)]
  }

  lemma PutCell<T>(g: seq<T>, xnum: int, ynum: int, i: int, j: int, x: T, a: int, b: int)
    requires IsGrid(g, xnum, ynum) && InGrid(i, j, xnum, ynum) && InGrid(a, b, xnum, ynum)
    ensures 0 <= At(i, j, ynum) < |g|
    ensures Get(g[At(i, j, ynum) := x], xnum, ynum, a, b) == if a == i && b == j then x else Get(g, xnum, ynum, a, b)
  {
    AtBounds(i, j, xnum, ynum);
    AtBounds(a, b, xnum, ynum);
    if a != i || b != j {
      if At(a, b, ynum) == At(i, j, ynum) {
        AtInjective(a, b, i, j, ynum);
      }
    }
  }

  lemma PutEffect<T>(g: seq<T>, xnum: int, ynum: int, i: int, j: int, x: T)
    requires IsGrid(g, xnum, ynum) && InGrid(i, j, xnum, ynum)
    ensures 0 <= At(i, j, ynum) < |g|
    ensures forall a, b :: InGrid(a, b, xnum, ynum) ==>
              Get(g[At(i, j, ynum) := x], xnum, ynum, a, b) == if a == i && b == j then x else Get(g, xnum, ynum, a, b)
  {
    AtBounds(i, j, xnum, ynum);
    forall a, b | InGrid(a, b, xnum, ynum)
      ensures Get(g[At(i, j, ynum) := x], xnum, ynum, a, b) == if a == i && b == j then x else Get(g, xnum, ynum, a, b)
    {
      PutCell(g, xnum, ynum, i, j, x, a, b);
    }
  }

  /** `g[i*ynum+j] = x`: changes that one cell and no other. */
  function Put<T>(g: seq<T>, xnum: int, ynum: int, i: int, j: int, x: T): (r: seq<T>)
    requires IsGrid(g, xnum, ynum) && InGrid(i, j, xnum, ynum)
    ensures IsGrid(r, xnum, ynum)
    ensures forall a, b :: InGrid(a, b, xnum, ynum) ==>
              Get(r, xnum, ynum, a, b) == if a == i && b == j then x else Get(g, xnum, ynum, a, b)
  {
    PutEffect(g, xnum, ynum, i, j, x);
    g[At(i, j, ynum) := x]
  }

  /** Two grids of the same shape are equal when they agree cell by cell. */
  lemma GridExtensional<T>(g: seq<T>, h: seq<T>, xnum: int, ynum: int)
    requires IsGrid(g, xnum, ynum) && IsGrid(h, xnum, ynum)
    requires forall i, j :: InGrid(i, j, xnum, ynum) ==> Get(g, xnum, ynum, i, j) == Get(h, xnum, ynum, i, j)
    ensures g == h
  {
    forall p | 0 <= p < |g|
      ensures g[p] == h[p]
    {
      AtCovers(p, xnum, ynum);
      assert Get(g, xnum, ynum, p / ynum, p % ynum) == Get(h, xnum, ynum, p / ynum, p % ynum);
    }
  }

  /** The line a boundary pass copies into line `k` of a dimension of size `n`: edge 0
      takes line 2 and edge `n-1` takes line `n-3`, every other line keeps its own.
      When `n` is 3 the far edge is line 2 itself and is copied from edge 0 after that
      edge was overwritten, so it keeps line 2. */
  function Reflect(k: int, n: int): (r: int)
    requires 3 <= n && 0 <= k < n
    ensures 0 <= r < n && r != 0
    ensures 1 <= k <= n - 2 ==> r == k
    ensures 4 <= n ==> 1 <= r <= n - 2
  {
    if k == 0 then 2 else if k == n - 1 then (if n == 3 then 2 else n - 3) else k
  }

  /** The grid after a reflective boundary pass: cell (i, j) holds the old cell
      (Reflect(i), Reflect(j)). */
  function Mirror<T>(g: seq<T>, xnum: int, ynum: int): (r: seq<T>)
    requires IsGrid(g, xnum, ynum)
    ensures IsGrid(r, xnum, ynum)
  {
    seq(|g|, p requires 0 <= p < |g| =>
      AtCovers(p, xnum, ynum);
      Get(g, xnum, ynum, Reflect(p / ynum, xnum), Reflect(p % ynum, ynum)))
  }

  lemma MirrorCell<T>(g: seq<T>, xnum: int, ynum: int, i: int, j: int)
    requires IsGrid(g, xnum, ynum) && InGrid(i, j, xnum, ynum)
    ensures Get(Mirror(g, xnum, ynum), xnum, ynum, i, j) == Get(g, xnum, ynum, Reflect(i, xnum), Reflect(j, ynum))
  {
    AtBounds(i, j, xnum, ynum);
    AtDecode(i, j, ynum);
    var p := At(i, j, ynum);
    assert Mirror(g, xnum, ynum)[p] == Get(g, xnum, ynum, Reflect(p / ynum, xnum), Reflect(p % ynum, ynum));
  }

  lemma MirrorGet<T>(g: seq<T>, xnum: int, ynum: int)
    requires IsGrid(g, xnum, ynum)
    ensures forall i, j :: InGrid(i, j, xnum, ynum) ==>
              Get(Mirror(g, xnum, ynum), xnum, ynum, i, j) == Get(g, xnum, ynum, Reflect(i, xnum), Reflect(j, ynum))
  {
    forall i, j | InGrid(i, j, xnum, ynum)
      ensures Get(Mirror(g, xnum, ynum), xnum, ynum, i, j) == Get(g, xnum, ynum, Reflect(i, xnum), Reflect(j, ynum))
    {
      MirrorCell(g, xnum, ynum, i, j);
    }
  }

  /** The reflective boundary pass of 2Dcells.c:225-232 (and, on `tmp`, 239-246): first
      every row copies column 2 into column 0 and column `ynum-3` into column `ynum-1`,
      then every column copies row 2 into row 0 and row `xnum-3` into row `xnum-1`. */
  method MirrorPass<T>(g: seq<T>, xnum: int, ynum: int) returns (r: seq<T>)
    requires IsGrid(g, xnum, ynum)
    ensures r == Mirror(g, xnum, ynum)
  {
    r := g;
    var i := 0;
    while i < xnum
      invariant 0 <= i <= xnum && IsGrid(r, xnum, ynum)
      invariant forall a, b :: InGrid(a, b, xnum, ynum) ==>
                  Get(r, xnum, ynum, a, b) == Get(g, xnum, ynum, a, if a < i then Reflect(b, ynum) else b)
    {
      r := Put(r, xnum, ynum, i, 0, Get(r, xnum, ynum, i, 2));
      r := Put(r, xnum, ynum, i, ynum - 1, Get(r, xnum, ynum, i, ynum - 3));
      i := i + 1;
    }
    ghost var c := r;
    var j := 0;
    while j < ynum
      invariant 0 <= j <= ynum && IsGrid(r, xnum, ynum)
      invariant forall a, b :: InGrid(a, b, xnum, ynum) ==>
                  Get(r, xnum, ynum, a, b) == Get(c, xnum, ynum, if b < j then Reflect(a, xnum) else a, b)
    {
      r := Put(r, xnum, ynum, 0, j, Get(r, xnum, ynum, 2, j));
      r := Put(r, xnum, ynum, xnum - 1, j, Get(r, xnum, ynum, xnum - 3, j));
      j := j + 1;
    }
    MirrorGet(g, xnum, ynum);
    GridExtensional(r, Mirror(g, xnum, ynum), xnum, ynum);
  }

  /** The stencil value at interior cell (i, j) of `src`: `f` applied to the centre and
      its north, south, west and east neighbours, the five cells 2Dcells.c:236 reads. */
  function StencilAt<T>(src: seq<T>, xnum: int, ynum: int, f: (T, T, T, T, T) -> T, i: int, j: int): (x: T)
    requires IsGrid(src, xnum, ynum) && Interior(i, j, xnum, ynum)
  {
    f(Get(src, xnum, ynum, i, j),
      Get(src, xnum, ynum, i - 1, j), Get(src, xnum, ynum, i + 1, j),
      Get(src, xnum, ynum, i, j - 1), Get(src, xnum, ynum, i, j + 1))
  }

  /** `dst` after a stencil pass that reads `src`: interior cells take the stencil value
      of `src`, the outer ring keeps what `dst` held. */
  function Stencil<T>(src: seq<T>, dst: seq<T>, xnum: int, ynum: int, f: (T, T, T, T, T) -> T): (r: seq<T>)
    requires IsGrid(src, xnum, ynum) && IsGrid(dst, xnum, ynum)
    ensures IsGrid(r, xnum, ynum)
  {
    seq(|dst|, p requires 0 <= p < |dst| =>
      AtCovers(p, xnum, ynum);
      if Interior(p / ynum, p % ynum, xnum, ynum) then StencilAt(src, xnum, ynum, f, p / ynum, p % ynum) else dst[p])
  }

  lemma StencilCell<T>(src: seq<T>, dst: seq<T>, xnum: int, ynum: int, f: (T, T, T, T, T) -> T, i: int, j: int)
    requires IsGrid(src, xnum, ynum) && IsGrid(dst, xnum, ynum) && InGrid(i, j, xnum, ynum)
    ensures Get(Stencil(src, dst, xnum, ynum, f), xnum, ynum, i, j) ==
            if Interior(i, j, xnum, ynum) then StencilAt(src, xnum, ynum, f, i, j) else Get(dst, xnum, ynum, i, j)
  {
    AtBounds(i, j, xnum, ynum);
    AtDecode(i, j, ynum);
    var p := At(i, j, ynum);
    assert Stencil(src, dst, xnum, ynum, f)[p] ==
           if Interior(p / ynum, p % ynum, xnum, ynum) then StencilAt(src, xnum, ynum, f, p / ynum, p % ynum) else dst[p];
  }

  lemma StencilGet<T>(src: seq<T>, dst: seq<T>, xnum: int, ynum: int, f: (T, T, T, T, T) -> T)
    requires IsGrid(src, xnum, ynum) && IsGrid(dst, xnum, ynum)
    ensures forall i, j :: InGrid(i, j, xnum, ynum) ==>
              Get(Stencil(src, dst, xnum, ynum, f), xnum, ynum, i, j) ==
              if Interior(i, j, xnum, ynum) then StencilAt(src, xnum, ynum, f, i, j) else Get(dst, xnum, ynum, i, j)
  {
    forall i, j | InGrid(i, j, xnum, ynum)
      ensures Get(Stencil(src, dst, xnum, ynum, f), xnum, ynum, i, j) ==
              if Interior(i, j, xnum, ynum) then StencilAt(src, xnum, ynum, f, i, j) else Get(dst, xnum, ynum, i, j)
    {
      StencilCell(src, dst, xnum, ynum, f, i, j);
    }
  }

  /** One stencil pass of 2Dcells.c:234-238 (`v` into `tmp`) or 248-252 (`tmp` into
      `v`): the nested loops visit rows 1..xnum-2 and columns 1..ynum-2 and write each
      such cell of the destination from the source alone. */
  method StencilPass<T>(src: seq<T>, dst: seq<T>, xnum: int, ynum: int, f: (T, T, T, T, T) -> T) returns (r: seq<T>)
    requires IsGrid(src, xnum, ynum) && IsGrid(dst, xnum, ynum)
    ensures r == Stencil(src, dst, xnum, ynum, f)
  {
    r := dst;
    var i := 1;
    while i < xnum - 1
      invariant 1 <= i <= xnum - 1 && IsGrid(r, xnum, ynum)
      invariant forall a, b :: InGrid(a, b, xnum, ynum) ==>
                  Get(r, xnum, ynum, a, b) ==
                  if Interior(a, b, xnum, ynum) && a < i then StencilAt(src, xnum, ynum, f, a, b) else Get(dst, xnum, ynum, a, b)
    {
      var j := 1;
      while j < ynum - 1
        invariant 1 <= j <= ynum - 1 && IsGrid(r, xnum, ynum)
        invariant forall a, b :: InGrid(a, b, xnum, ynum) ==>
                    Get(r, xnum, ynum, a, b) ==
                    if Interior(a, b, xnum, ynum) && (a < i || (a == i && b < j)) then StencilAt(src, xnum, ynum, f, a, b)
                    else Get(dst, xnum, ynum, a, b)
      {
        r := Put(r, xnum, ynum, i, j, StencilAt(src, xnum, ynum, f, i, j));
        j := j + 1;
      }
      i := i + 1;
    }
    StencilGet(src, dst, xnum, ynum, f);
    GridExtensional(r, Stencil(src, dst, xnum, ynum, f), xnum, ynum);
  }

  /** `a` and `b` agree on interior cell (i, j) and its four axis neighbours. */
  predicate SameNeighbourhood<T(==)>(a: seq<T>, b: seq<T>, xnum: int, ynum: int, i: int, j: int)
    requires IsGrid(a, xnum, ynum) && IsGrid(b, xnum, ynum) && Interior(i, j, xnum, ynum)
  {
    && Get(a, xnum, ynum, i, j) == Get(b, xnum, ynum, i, j)
    && Get(a, xnum, ynum, i - 1, j) == Get(b, xnum, ynum, i - 1, j)
    && Get(a, xnum, ynum, i + 1, j) == Get(b, xnum, ynum, i + 1, j)
    && Get(a, xnum, ynum, i, j - 1) == Get(b, xnum, ynum, i, j - 1)
    && Get(a, xnum, ynum, i, j + 1) == Get(b, xnum, ynum, i, j + 1)
  }

  /** A stencil pass writes interior cells only, and each value it writes depends on
      nothing but the five-cell neighbourhood in the source grid: not on the
      destination's old contents, and not on any other source cell. */
  lemma StencilFootprint<T>(src1: seq<T>, src2: seq<T>, dst1: seq<T>, dst2: seq<T>, xnum: int, ynum: int, f: (T, T, T, T, T) -> T)
    requires IsGrid(src1, xnum, ynum) && IsGrid(src2, xnum, ynum) && IsGrid(dst1, xnum, ynum) && IsGrid(dst2, xnum, ynum)
    ensures forall i, j :: InGrid(i, j, xnum, ynum) && !Interior(i, j, xnum, ynum) ==>
              Get(Stencil(src1, dst1, xnum, ynum, f), xnum, ynum, i, j) == Get(dst1, xnum, ynum, i, j)
    ensures forall i, j :: Interior(i, j, xnum, ynum) && SameNeighbourhood(src1, src2, xnum, ynum, i, j) ==>
              Get(Stencil(src1, dst1, xnum, ynum, f), xnum, ynum, i, j) == Get(Stencil(src2, dst2, xnum, ynum, f), xnum, ynum, i, j)
  {
    StencilGet(src1, dst1, xnum, ynum, f);
    StencilGet(src2, dst2, xnum, ynum, f);
  }

  /** Rows 0 and `xnum-1` repeat rows 2 and `xnum-3`, and columns 0 and `ynum-1` repeat
      columns 2 and `ynum-3`: the non-flux boundary condition. */
  ghost predicate HasReflectiveEdges<T>(r: seq<T>, xnum: int, ynum: int)
    requires IsGrid(r, xnum, ynum)
  {
    && (forall j :: 0 <= j < ynum ==>
          Get(r, xnum, ynum, 0, j) == Get(r, xnum, ynum, 2, j) &&
          Get(r, xnum, ynum, xnum - 1, j) == Get(r, xnum, ynum, xnum - 3, j))
    && (forall i :: 0 <= i < xnum ==>
          Get(r, xnum, ynum, i, 0) == Get(r, xnum, ynum, i, 2) &&
          Get(r, xnum, ynum, i, ynum - 1) == Get(r, xnum, ynum, i, ynum - 3))
  }

  /** `r` and `g` agree on every interior cell. */
  ghost predicate SameInterior<T>(r: seq<T>, g: seq<T>, xnum: int, ynum: int)
    requires IsGrid(r, xnum, ynum) && IsGrid(g, xnum, ynum)
  {
    forall i, j :: Interior(i, j, xnum, ynum) ==> Get(r, xnum, ynum, i, j) == Get(g, xnum, ynum, i, j)
  }

  /** After a boundary pass the edges mirror the lines two cells inwards and every
      interior cell is unchanged. */
  lemma MirrorEdges<T>(g: seq<T>, xnum: int, ynum: int)
    requires IsGrid(g, xnum, ynum)
    ensures HasReflectiveEdges(Mirror(g, xnum, ynum), xnum, ynum)
    ensures SameInterior(Mirror(g, xnum, ynum), g, xnum, ynum)
  {
    MirrorGet(g, xnum, ynum);
  }

  lemma MirrorFromProperties<T>(r: seq<T>, g: seq<T>, xnum: int, ynum: int, i: int, j: int)
    requires IsGrid(r, xnum, ynum) && IsGrid(g, xnum, ynum) && 4 <= xnum && 4 <= ynum
    requires HasReflectiveEdges(r, xnum, ynum) && SameInterior(r, g, xnum, ynum)
    requires InGrid(i, j, xnum, ynum)
    ensures Get(r, xnum, ynum, i, j) == Get(g, xnum, ynum, Reflect(i, xnum), Reflect(j, ynum))
  {
    var ri := Reflect(i, xnum);
    var rj := Reflect(j, ynum);
    assert Get(r, xnum, ynum, ri, j) == Get(g, xnum, ynum, ri, rj) by {
      assert Get(r, xnum, ynum, ri, rj) == Get(g, xnum, ynum, ri, rj);
      assert Get(r, xnum, ynum, ri, 0) == Get(r, xnum, ynum, ri, 2);
      assert Get(r, xnum, ynum, ri, ynum - 1) == Get(r, xnum, ynum, ri, ynum - 3);
    }
    assert Get(r, xnum, ynum, 0, j) == Get(r, xnum, ynum, 2, j);
    assert Get(r, xnum, ynum, xnum - 1, j) == Get(r, xnum, ynum, xnum - 3, j);
  }

  /** On grids of at least 4 by 4 the boundary pass is characterised by the boundary
      condition: a grid is the mirror of `g` exactly when it has reflective edges and
      agrees with `g` on the interior. */
  lemma MirrorCharacterised<T>(r: seq<T>, g: seq<T>, xnum: int, ynum: int)
    requires IsGrid(r, xnum, ynum) && IsGrid(g, xnum, ynum) && 4 <= xnum && 4 <= ynum
    ensures r == Mirror(g, xnum, ynum) <==> HasReflectiveEdges(r, xnum, ynum) && SameInterior(r, g, xnum, ynum)
  {
    MirrorEdges(g, xnum, ynum);
    if HasReflectiveEdges(r, xnum, ynum) && SameInterior(r, g, xnum, ynum) {
      MirrorGet(g, xnum, ynum);
      forall i, j | InGrid(i, j, xnum, ynum)
        ensures Get(r, xnum, ynum, i, j) == Get(Mirror(g, xnum, ynum), xnum, ynum, i, j)
      {
        MirrorFromProperties(r, g, xnum, ynum, i, j);
      }
      GridExtensional(r, Mirror(g, xnum, ynum), xnum, ynum);
    }
  }

  /** Running the boundary pass twice gives the same grid as running it once. */
  lemma MirrorIdempotent<T>(g: seq<T>, xnum: int, ynum: int)
    requires IsGrid(g, xnum, ynum)
    ensures Mirror(Mirror(g, xnum, ynum), xnum, ynum) == Mirror(g, xnum, ynum)
  {
    var m := Mirror(g, xnum, ynum);
    MirrorGet(g, xnum, ynum);
    MirrorGet(m, xnum, ynum);
    forall i, j | InGrid(i, j, xnum, ynum)
      ensures Get(Mirror(m, xnum, ynum), xnum, ynum, i, j) == Get(m, xnum, ynum, i, j)
    {
      assert Reflect(Reflect(i, xnum), xnum) == Reflect(i, xnum);
      assert Reflect(Reflect(j, ynum), ynum) == Reflect(j, ynum);
    }
    GridExtensional(Mirror(m, xnum, ynum), m, xnum, ynum);
  }

  /** On grids of at least 4 by 4 the boundary pass reads interior cells only, so
      grids that agree on the interior have the same mirror. */
  lemma MirrorReadsInterior<T>(a: seq<T>, b: seq<T>, xnum: int, ynum: int)
    requires IsGrid(a, xnum, ynum) && IsGrid(b, xnum, ynum) && 4 <= xnum && 4 <= ynum
    requires SameInterior(a, b, xnum, ynum)
    ensures Mirror(a, xnum, ynum) == Mirror(b, xnum, ynum)
  {
    MirrorGet(a, xnum, ynum);
    MirrorGet(b, xnum, ynum);
    forall i, j | InGrid(i, j, xnum, ynum)
      ensures Get(Mirror(a, xnum, ynum), xnum, ynum, i, j) == Get(Mirror(b, xnum, ynum), xnum, ynum, i, j)
    {
      assert Interior(Reflect(i, xnum), Reflect(j, ynum), xnum, ynum);
    }
    GridExtensional(Mirror(a, xnum, ynum), Mirror(b, xnum, ynum), xnum, ynum);
  }

  /** The diffusion step of 2Dcells.c:223-252 as a function of the grids it starts from:
      the new `v` and the new scratch grid `tmp`. */
  function DiffusionResult<T>(v: seq<T>, tmp: seq<T>, xnum: int, ynum: int, f: (T, T, T, T, T) -> T): (r: (seq<T>, seq<T>))
    requires IsGrid(v, xnum, ynum) && IsGrid(tmp, xnum, ynum)
    ensures IsGrid(r.0, xnum, ynum) && IsGrid(r.1, xnum, ynum)
  {
    var v1 := Mirror(v, xnum, ynum);
    var t2 := Mirror(Stencil(v1, tmp, xnum, ynum, f), xnum, ynum);
    (Stencil(t2, v1, xnum, ynum, f), t2)
  }

  /** The four phases of the diffusion step in their barrier order: boundary pass on
      `v`, stencil `v` into `tmp`, boundary pass on `tmp`, stencil `tmp` into `v`. */
  method DiffusionStep<T>(v: seq<T>, tmp: seq<T>, xnum: int, ynum: int, f: (T, T, T, T, T) -> T)
    returns (v': seq<T>, tmp': seq<T>)
    requires IsGrid(v, xnum, ynum) && IsGrid(tmp, xnum, ynum)
    ensures (v', tmp') == DiffusionResult(v, tmp, xnum, ynum, f)
    ensures IsGrid(v', xnum, ynum) && IsGrid(tmp', xnum, ynum)
    ensures forall i, j :: InGrid(i, j, xnum, ynum) && !Interior(i, j, xnum, ynum) ==>
              Get(v', xnum, ynum, i, j) == Get(v, xnum, ynum, Reflect(i, xnum), Reflect(j, ynum))
    ensures forall i, j :: Interior(i, j, xnum, ynum) ==> Get(v', xnum, ynum, i, j) == StencilAt(tmp', xnum, ynum, f, i, j)
    ensures HasReflectiveEdges(tmp', xnum, ynum)
  {
    var v1 := MirrorPass(v, xnum, ynum);
    var t1 := StencilPass(v1, tmp, xnum, ynum, f);
    tmp' := MirrorPass(t1, xnum, ynum);
    v' := StencilPass(tmp', v1, xnum, ynum, f);
    MirrorGet(v, xnum, ynum);
    StencilGet(tmp', v1, xnum, ynum, f);
    MirrorEdges(t1, xnum, ynum);
  }

  ghost predicate Uniform<T>(g: seq<T>, xnum: int, ynum: int, c: T)
    requires IsGrid(g, xnum, ynum)
  {
    forall i, j :: InGrid(i, j, xnum, ynum) ==> Get(g, xnum, ynum, i, j) == c
  }

  /** On grids of at least 4 by 4, a field whose interior is uniformly `c` becomes
      uniformly `c` everywhere after a diffusion step, provided the stencil leaves a
      uniform neighbourhood at `c` (as the discrete Laplacian of a constant is zero). */
  lemma DiffusionKeepsUniform<T>(v: seq<T>, tmp: seq<T>, xnum: int, ynum: int, f: (T, T, T, T, T) -> T, c: T)
    requires IsGrid(v, xnum, ynum) && IsGrid(tmp, xnum, ynum) && 4 <= xnum && 4 <= ynum
    requires f(c, c, c, c, c) == c
    requires forall i, j :: Interior(i, j, xnum, ynum) ==> Get(v, xnum, ynum, i, j) == c
    ensures Uniform(DiffusionResult(v, tmp, xnum, ynum, f).0, xnum, ynum, c)
    ensures Uniform(DiffusionResult(v, tmp, xnum, ynum, f).1, xnum, ynum, c)
  {
    var v1 := Mirror(v, xnum, ynum);
    MirrorGet(v, xnum, ynum);
    assert Uniform(v1, xnum, ynum, c) by {
      forall i, j | InGrid(i, j, xnum, ynum)
        ensures Get(v1, xnum, ynum, i, j) == c
      {
        assert Interior(Reflect(i, xnum), Reflect(j, ynum), xnum, ynum);
      }
    }
    var t1 := Stencil(v1, tmp, xnum, ynum, f);
    StencilGet(v1, tmp, xnum, ynum, f);
    var t2 := Mirror(t1, xnum, ynum);
    MirrorGet(t1, xnum, ynum);
    assert Uniform(t2, xnum, ynum, c) by {
      forall i, j | InGrid(i, j, xnum, ynum)
        ensures Get(t2, xnum, ynum, i, j) == c
      {
        var ri, rj := Reflect(i, xnum), Reflect(j, ynum);
        assert Interior(ri, rj, xnum, ynum);
        assert Get(t1, xnum, ynum, ri, rj) == StencilAt(v1, xnum, ynum, f, ri, rj);
      }
    }
    StencilGet(t2, v1, xnum, ynum, f);
  }

  /** On grids of at least 4 by 4 the scratch grid carries nothing from one step to the
      next: the step's results do not depend on what `tmp` held before it. */
  lemma DiffusionIgnoresScratch<T>(v: seq<T>, tmp1: seq<T>, tmp2: seq<T>, xnum: int, ynum: int, f: (T, T, T, T, T) -> T)
    requires IsGrid(v, xnum, ynum) && IsGrid(tmp1, xnum, ynum) && IsGrid(tmp2, xnum, ynum)
    requires 4 <= xnum && 4 <= ynum
    ensures DiffusionResult(v, tmp1, xnum, ynum, f) == DiffusionResult(v, tmp2, xnum, ynum, f)
  {
    var v1 := Mirror(v, xnum, ynum);
    StencilGet(v1, tmp1, xnum, ynum, f);
    StencilGet(v1, tmp2, xnum, ynum, f);
    MirrorReadsInterior(Stencil(v1, tmp1, xnum, ynum, f), Stencil(v1, tmp2, xnum, ynum, f), xnum, ynum);
  }

  /** The stencil that takes the north neighbour, used to trace where a value comes from. */
  function North(c: int, n: int, s: int, w: int, e: int): (x: int)
  {
    n
  }

  /** On a 3 by 3 grid the boundary pass on `tmp` copies row 2, which the stencil pass
      does not write, into row 0: what `tmp` held before the step reaches the new `v`. */
  lemma ScratchLeaksOnNarrowGrid()
    ensures DiffusionResult(seq(9, _ => 0), seq(9, _ => 0), 3, 3, North).0 !=
            DiffusionResult(seq(9, _ => 0), seq(9, _ => 0)[At(2, 1, 3) := 1], 3, 3, North).0
  {
    var zeros: seq<int> := seq(9, _ => 0);
    var stale := zeros[At(2, 1, 3) := 1];
    var v1 := Mirror(zeros, 3, 3);
    var a := Stencil(v1, zeros, 3, 3, North);
    var b := Stencil(v1, stale, 3, 3, North);
    StencilCell(v1, zeros, 3, 3, North, 2, 1);
    StencilCell(v1, stale, 3, 3, North, 2, 1);
    assert Get(stale, 3, 3, 2, 1) == 1;
    MirrorCell(a, 3, 3, 0, 1);
    MirrorCell(b, 3, 3, 0, 1);
    StencilCell(Mirror(a, 3, 3), v1, 3, 3, North, 1, 1);
    StencilCell(Mirror(b, 3, 3), v1, 3, 3, North, 1, 1);
    assert Get(DiffusionResult(zeros, zeros, 3, 3, North).0, 3, 3, 1, 1) == 0;
    assert Get(DiffusionResult(zeros, stale, 3, 3, North).0, 3, 3, 1, 1) == 1;
  }
}
