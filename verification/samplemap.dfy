/**
 * The sample map of `writeV` (2Dcells.c:80-93): the flat grid indices whose
 * voltages are sent to the output channels, and the channel-count guard of
 * `main` (2Dcells.c:136-140) that is meant to protect it.
 */
module SampleMap {
  import opened Wrappers
  import opened Index

  /** Why a channel count or grid cannot be used for sampling. */
  datatype ConfigError =
    | NotPerfectSquare(numPins: int)
    | TooManyChannels(numPins: int)
    | SampleOutsideGrid

  /** `(int) sqrt(numPins)`: the integer square root, which is what the truncating
      conversion of the C `sqrt` yields for the small channel counts in use. */
  method IntSqrt(n: nat) returns (s: nat)
    ensures Square(s) <= n < Square(s + 1)
  {
    s := 0;
    while Square(s + 1) <= n
      invariant Square(s) <= n
      decreases n - s
    {
      SquareMonotone(s, s + 1);
      assert s < Square(s + 1) by {
        assert Square(s + 1) == s * s + 2 * s + 1;
      }
      s := s + 1;
    }
  }

  /** The square root fixed by the bracket `Square(s) <= n < Square(s + 1)` is the root
      of every perfect square. */
  lemma RootOfSquare(s: nat, k: nat)
    requires Square(s) <= Square(k) < Square(s + 1)
    ensures s == k
  {
    if k < s {
      SquareMonotone(k, s);
    } else if k > s {
      if k == s + 1 {
      } else {
        SquareMonotone(s + 1, k);
      }
    }
  }

  /** The guard at 2Dcells.c:137 as written, given the exact square root `root` of `n`:
      `sqrt(n) - floor(sqrt(n) != 0)` is nonzero. The comparison sits inside `floor`, so
      the expression is `root - 1` for every positive `n`, and `0` for `n == 0`.
      True means `main` reports the count as not a perfect square and exits. */
  function GuardAsWritten(n: nat, root: real): (g: bool)
    requires 0.0 <= root && root * root == n as real
    ensures g <==> root != 0.0 && root != 1.0
  {
    var cmp: real := if root != 0.0 then 1.0 else 0.0;
    root - cmp.Floor as real != 0.0
  }

  lemma RealProductPositive(a: real, b: real)
    requires 0.0 < a && 0.0 < b
    ensures 0.0 < a * b
  {
  }

  lemma RealProductZero(a: real, b: real)
    requires 0.0 <= a && 0.0 <= b && a * b <= 0.0
    ensures a == 0.0 || b == 0.0
  {
    if a > 0.0 && b > 0.0 {
      RealProductPositive(a, b);
    }
  }

  lemma RealSquareOne(root: real)
    requires 0.0 <= root && root * root == 1.0
    ensures root == 1.0
  {
    if root < 1.0 {
      ScaleMonotone(root, 1.0, root);
    } else if root > 1.0 {
      ScaleMonotone(1.0, root, root);
    }
  }

  /** The guard as written rejects every channel count except 0 and 1, perfect
      squares included, and lets 0 through. */
  lemma GuardAsWrittenRejects(n: nat, root: real)
    requires 0.0 <= root && root * root == n as real
    ensures GuardAsWritten(n, root) <==> n != 0 && n != 1
  {
    if n == 0 {
      RealProductZero(root, root);
    } else if n == 1 {
      RealSquareOne(root);
    } else {
      assert root != 0.0 && root != 1.0;
    }
  }

  /** The channel count of 2Dcells.c:13 is a perfect square, yet the guard as written
      rejects it; the empty channel list, for which `writeV` writes `cells[0]` out of
      bounds, passes it. */
  lemma GuardAsWrittenCounterexample()
    ensures IsPerfectSquare(25) && GuardAsWritten(25, 5.0)
    ensures !GuardAsWritten(0, 0.0)
  {
    assert Square(5) == 25;
  }

  /** The channel-count check as intended: the count must be a positive perfect square,
      and its root is returned for the sampling step. */
  method ValidateChannelCount(numPins: int) returns (r: Result<nat, ConfigError>)
    ensures r.Ok? <==> 1 <= numPins && IsPerfectSquare(numPins)
    ensures r.Ok? ==> 1 <= r.value && Square(r.value) == numPins
    ensures r.Err? ==> r.error == NotPerfectSquare(numPins)
  {
    if numPins < 1 {
      return Err(NotPerfectSquare(numPins));
    }
    var s := IntSqrt(numPins);
    if Square(s) == numPins {
      r := Ok(s);
    } else {
      if IsPerfectSquare(numPins) {
        var k: nat :| Square(k) == numPins;
        RootOfSquare(s, k);
      }
      r := Err(NotPerfectSquare(numPins));
    }
  }

  /** The slots of `cells` that the fill loops of `writeV` (2Dcells.c:85-93) write, in
      order, together with the integer root `sr` they use. The first loop writes slots
      `0 .. sr-1`; the nested loop then writes whole rows of `sr` slots while the row
      start is below `numPins`, never testing `i < numPins` inside a row. */
  method FillFootprint(numPins: nat) returns (sr: nat, slots: seq<int>)
    ensures Square(sr) <= numPins < Square(sr + 1)
    ensures forall p :: 0 <= p < |slots| ==> slots[p] == p
    ensures numPins <= |slots|
    ensures 1 <= numPins ==> |slots| < numPins + sr && |slots| % sr == 0
    ensures (forall p :: 0 <= p < |slots| ==> slots[p] < numPins) <==> 1 <= numPins && numPins % sr == 0
  {
    sr := IntSqrt(numPins);
    if numPins == 0 {
      // sr is 0: neither loop runs, and only `cells[0] = 1` is written.
      slots := [0];
      assert !(slots[0] < numPins);
      return;
    }
    assert 1 <= sr;
    MulMonotone(1, sr, sr);
    var rows;
    slots, rows := FillSlots(numPins, sr);
    FillEnd(numPins, sr, rows, |slots|);
    if numPins < |slots| {
      assert numPins <= slots[|slots| - 1];
    }
  }

  /** The two fill loops for a positive root: the first row, then whole rows of `sr`
      slots while the next row start is below `numPins`. */
  method FillSlots(numPins: nat, sr: nat) returns (slots: seq<int>, rows: nat)
    requires 1 <= sr <= numPins
    ensures 1 <= rows && |slots| == At(rows, 0, sr)
    ensures |slots| - sr < numPins <= |slots|
    ensures forall p :: 0 <= p < |slots| ==> slots[p] == p
  {
    slots := [0];
    var i := 1;
    while i < sr
      invariant 1 <= i <= sr
      invariant |slots| == i && forall p :: 0 <= p < i ==> slots[p] == p
    {
      slots := slots + [i];
      i := i + 1;
    }
    var j := 1;
    while i < numPins
      invariant 1 <= j && i == At(j, 0, sr)
      invariant i - sr < numPins
      invariant |slots| == i
      invariant forall p :: 0 <= p < |slots| ==> slots[p] == p
      decreases numPins - i
    {
      var k := 0;
      while k < sr
        invariant 0 <= k <= sr && i == At(j, 0, sr) + k
        invariant |slots| == i && forall p :: 0 <= p < |slots| ==> slots[p] == p
      {
        slots := slots + [i];
        k := k + 1;
        i := i + 1;
      }
      assert i == At(j + 1, 0, sr);
      j := j + 1;
    }
    rows := j;
  }

  /** Where the fill stops: on the first multiple of `sr` at or past the count, which is
      the count itself exactly when `sr` divides it. */
  lemma FillEnd(numPins: nat, sr: nat, rows: int, len: int)
    requires 1 <= sr && 1 <= rows && len == At(rows, 0, sr)
    requires len - sr < numPins <= len
    ensures len < numPins + sr && len % sr == 0
    ensures numPins % sr == 0 <==> len == numPins
  {
    AtDecode(rows, 0, sr);
    if numPins % sr == 0 {
      MultiplesApart(numPins, len, sr);
    }
  }

  /** Under a perfect-square channel count every slot of `cells` is written exactly once
      and nothing outside it is. */
  lemma PerfectSquareFillsExactly(numPins: nat, sr: nat, slots: seq<int>)
    requires 1 <= numPins && Square(sr) == numPins
    requires forall p :: 0 <= p < |slots| ==> slots[p] == p
    requires numPins <= |slots| < numPins + sr && |slots| % sr == 0
    ensures |slots| == numPins
  {
    AtDecode(sr, 0, sr);
    MultiplesApart(numPins, |slots|, sr);
  }

  /** The sample map `writeV` builds: `cells[k] = 1 + k*factor` along the first row, and
      every later row `r` nests the first row into grid row `cells[r]`:
      `cells[r*sr + k] = cells[r]*ynum + cells[k]`. */
  ghost predicate IsSampleMap(cells: seq<int>, sr: nat, factor: int, ynum: int)
  {
    && |cells| == Square(sr)
    && sr <= |cells|
    && (forall k :: 0 <= k < sr ==> cells[k] == 1 + k * factor)
    && (forall r, k :: 1 <= r < sr && 0 <= k < sr ==>
          0 <= At(r, k, sr) < |cells| && cells[At(r, k, sr)] == cells[r] * ynum + cells[k])
  }

  /** The sample map in closed form: first-row slot `p` holds `1 + p*factor`, and slot
      `r*sr + k` of a later row holds the grid index of row `1 + r*factor`, column
      `1 + k*factor`. */
  function SampleCells(sr: nat, factor: int, ynum: int): (cells: seq<int>)
    ensures |cells| == Square(sr)
  {
    seq(Square(sr), p => if p < sr || sr == 0 then 1 + p * factor
                         else (1 + (p / sr) * factor) * ynum + (1 + (p % sr) * factor))
  }

  lemma SampleCellsNested(sr: nat, factor: int, ynum: int, r: int, k: int)
    requires 1 <= r < sr && 0 <= k < sr
    ensures sr <= At(r, k, sr) < Square(sr)
    ensures SampleCells(sr, factor, ynum)[At(r, k, sr)] == (1 + r * factor) * ynum + (1 + k * factor)
  {
    AtBounds(r, k, sr, sr);
    MulMonotone(1, r, sr);
    AtDecode(r, k, sr);
  }

  /** The recurrence of the fill loops has exactly one solution, the closed form. */
  lemma SampleMapCharacterised(cells: seq<int>, sr: nat, factor: int, ynum: int)
    ensures IsSampleMap(cells, sr, factor, ynum) <==> cells == SampleCells(sr, factor, ynum)
  {
    var m := SampleCells(sr, factor, ynum);
    SampleSlots(sr);
    forall r, k | 1 <= r < sr && 0 <= k < sr
      ensures 0 <= At(r, k, sr) < |m| && m[At(r, k, sr)] == m[r] * ynum + m[k]
    {
      SampleCellsNested(sr, factor, ynum, r, k);
    }
    assert IsSampleMap(m, sr, factor, ynum);
    if IsSampleMap(cells, sr, factor, ynum) {
      forall p | 0 <= p < |cells|
        ensures cells[p] == m[p]
      {
        if sr <= p {
          AtCovers(p, sr, sr);
          var r, k := p / sr, p % sr;
          SampleCellsNested(sr, factor, ynum, r, k);
        }
      }
    }
  }

  lemma SampleSlots(sr: nat)
    ensures sr <= Square(sr)
    ensures forall r, k :: 0 <= r < sr && 0 <= k < sr ==> 0 <= At(r, k, sr) < Square(sr)
    ensures forall r, k :: 1 <= r < sr && 0 <= k < sr ==> sr <= At(r, k, sr)
  {
    if sr >= 1 {
      MulMonotone(1, sr, sr);
    }
    forall r, k | 0 <= r < sr && 0 <= k < sr
      ensures 0 <= At(r, k, sr) < Square(sr)
      ensures 1 <= r ==> sr <= At(r, k, sr)
    {
      AtBounds(r, k, sr, sr);
      if 1 <= r {
        MulMonotone(1, r, sr);
      }
    }
  }

  /** The fill loops of `writeV` (2Dcells.c:81-93) for a perfect-square channel count:
      `sr` and `factor` are computed as there, and `cells` starts zeroed like the global
      array it models. */
  method BuildSampleMap(xnum: nat, ynum: int, numPins: nat) returns (sr: nat, factor: int, cells: seq<int>)
    requires 1 <= numPins && IsPerfectSquare(numPins)
    ensures 1 <= sr && Square(sr) == numPins && factor == xnum / sr
    ensures IsSampleMap(cells, sr, factor, ynum)
    ensures cells == SampleCells(sr, factor, ynum)
  {
    sr := IntSqrt(numPins);
    var root: nat :| Square(root) == numPins;
    RootOfSquare(sr, root);
    assert 1 <= sr;
    SampleSlots(sr);
    factor := xnum / sr;
    cells := seq(numPins, _ => 0);
    cells := cells[0 := 1];
    var i := 1;
    while i < sr
      invariant 1 <= i <= sr
      invariant |cells| == numPins && cells[0] == 1
      invariant forall k :: 0 <= k < i ==> cells[k] == 1 + k * factor
    {
      cells := cells[i := cells[0] + i * factor];
      i := i + 1;
    }
    cells := FillRows(cells, sr, ynum);
    SampleMapCharacterised(cells, sr, factor, ynum);
  }

  /** The nested loop of 2Dcells.c:89-93: every map row `r >= 1` nests the first row
      into grid row `cells[r]`; the first row itself is left as it was. */
  method FillRows(cells: seq<int>, sr: nat, ynum: int) returns (r: seq<int>)
    requires 1 <= sr && |cells| == Square(sr)
    ensures |r| == |cells|
    ensures forall k :: 0 <= k < sr ==> r[k] == cells[k]
    ensures forall row, k :: 1 <= row < sr && 0 <= k < sr ==>
              0 <= At(row, k, sr) < |r| && r[At(row, k, sr)] == r[row] * ynum + r[k]
  {
    SampleSlots(sr);
    r := cells;
    var j := 1;
    var i := sr;
    while i < |cells|
      invariant 1 <= j <= sr && i == At(j, 0, sr)
      invariant |r| == |cells|
      invariant forall k :: 0 <= k < sr ==> r[k] == cells[k]
      invariant forall row, k :: 1 <= row < j && 0 <= k < sr ==>
                  0 <= At(row, k, sr) < i && r[At(row, k, sr)] == cells[row] * ynum + cells[k]
      decreases sr - j
    {
      RowStart(j, sr);
      var before := r;
      r := FillNestedRow(r, sr, j, i, ynum);
      RowsExtend(cells, before, r, sr, j, i, ynum);
      i := i + sr;
      assert i == At(j + 1, 0, sr);
      j := j + 1;
    }
    RowStart(j, sr);
    assert i == |cells|;
    RowsComplete(cells, r, sr, ynum);
  }

  /** Rows nested from the first row of the input, which the fill keeps, are nested
      from the first row of the result. */
  lemma RowsComplete(cells: seq<int>, r: seq<int>, sr: nat, ynum: int)
    requires 1 <= sr <= |r| && |r| == |cells|
    requires forall k :: 0 <= k < sr ==> r[k] == cells[k]
    requires forall row, k :: 1 <= row < sr && 0 <= k < sr ==>
               0 <= At(row, k, sr) < |r| && r[At(row, k, sr)] == cells[row] * ynum + cells[k]
    ensures forall row, k :: 1 <= row < sr && 0 <= k < sr ==>
              0 <= At(row, k, sr) < |r| && r[At(row, k, sr)] == r[row] * ynum + r[k]
  {
    forall row, k | 1 <= row < sr && 0 <= k < sr
      ensures 0 <= At(row, k, sr) < |r| && r[At(row, k, sr)] == r[row] * ynum + r[k]
    {
      assert r[row] == cells[row] && r[k] == cells[k];
    }
  }

  /** Row `j` of an sr-by-sr table starts inside it exactly when `j < sr`; a row other
      than the first starts at or after slot `sr`, and a row that starts inside ends
      inside. */
  lemma RowStart(j: int, sr: int)
    requires 0 <= j && 1 <= sr
    ensures At(j, 0, sr) < Square(sr) <==> j < sr
    ensures 1 <= j ==> sr <= At(j, 0, sr)
    ensures j < sr ==> At(j, 0, sr) + sr <= Square(sr)
  {
    if j < sr {
      AtBounds(j, 0, sr, sr);
    } else {
      MulMonotone(sr, j, sr);
    }
    if 1 <= j {
      MulMonotone(1, j, sr);
    }
  }

  /** Filling map row `j` keeps the first row and the rows before `j`, and adds row `j`. */
  lemma RowsExtend(cells: seq<int>, before: seq<int>, r: seq<int>, sr: nat, j: nat, start: nat, ynum: int)
    requires 1 <= j < sr <= start && start == At(j, 0, sr)
    requires |before| == |cells| == |r| && start + sr <= |cells|
    requires forall k :: 0 <= k < sr ==> before[k] == cells[k]
    requires forall row, k :: 1 <= row < j && 0 <= k < sr ==>
               0 <= At(row, k, sr) < start && before[At(row, k, sr)] == cells[row] * ynum + cells[k]
    requires forall k :: 0 <= k < sr ==> r[start + k] == before[j] * ynum + before[k]
    requires forall p :: 0 <= p < |before| && (p < start || start + sr <= p) ==> r[p] == before[p]
    ensures forall k :: 0 <= k < sr ==> r[k] == cells[k]
    ensures forall row, k :: 1 <= row < j + 1 && 0 <= k < sr ==>
              0 <= At(row, k, sr) < start + sr && r[At(row, k, sr)] == cells[row] * ynum + cells[k]
  {
    forall row, k | 1 <= row < j + 1 && 0 <= k < sr
      ensures 0 <= At(row, k, sr) < start + sr && r[At(row, k, sr)] == cells[row] * ynum + cells[k]
    {
      if row == j {
        assert At(row, k, sr) == start + k;
      }
    }
  }

  /** The inner loop of 2Dcells.c:90-92 for map row `j`, starting at slot `start`: slot
      `start + k` gets `cells[j]*ynum + cells[k]`, reading the first row, which the
      loop does not write; every other slot keeps its value. */
  method FillNestedRow(cells: seq<int>, sr: nat, j: nat, start: nat, ynum: int) returns (r: seq<int>)
    requires j < sr <= start && start + sr <= |cells|
    ensures |r| == |cells|
    ensures forall k :: 0 <= k < sr ==> r[start + k] == cells[j] * ynum + cells[k]
    ensures forall p :: 0 <= p < |cells| && (p < start || start + sr <= p) ==> r[p] == cells[p]
  {
    r := cells;
    var k := 0;
    while k < sr
      invariant 0 <= k <= sr && |r| == |cells|
      invariant forall kk :: 0 <= kk < k ==> r[start + kk] == cells[j] * ynum + cells[kk]
      invariant forall p :: 0 <= p < |cells| && (p < start || start + k <= p) ==> r[p] == cells[p]
    {
      r := r[start + k := r[j] * ynum + r[k]];
      k := k + 1;
    }
  }

  /** The grid row a sample-map row lands on: row 0 of the grid for the first row of
      the map, grid row `1 + r*factor` for every later row `r`. */
  function SampleRow(r: int, factor: int): (row: int)
  {
    if r == 0 then 0 else 1 + r * factor
  }

  /** The largest first-row entry, `1 + (sr-1)*factor`, fits inside both grid
      dimensions, and the spacing is not negative. */
  predicate SampleFits(sr: nat, factor: int, xnum: int, ynum: int)
  {
    1 <= sr && 0 <= factor && 1 + (sr - 1) * factor < xnum && 1 + (sr - 1) * factor < ynum
  }

  /** Entry `(r, k)` of a fitting sample map is the grid cell at row `SampleRow(r)`,
      column `1 + k*factor`, and that cell lies inside the `xnum` by `ynum` grid. */
  lemma {:induction false} SampleMapCoordinates(cells: seq<int>, sr: nat, factor: int, xnum: int, ynum: int, r: int, k: int)
    requires IsSampleMap(cells, sr, factor, ynum) && SampleFits(sr, factor, xnum, ynum)
    requires 0 <= r < sr && 0 <= k < sr
    ensures 0 <= At(r, k, sr) < |cells|
    ensures cells[At(r, k, sr)] == At(SampleRow(r, factor), 1 + k * factor, ynum)
    ensures 0 <= SampleRow(r, factor) < xnum && 0 <= 1 + k * factor < ynum
  {
    SampleSlots(sr);
    MulMonotone(0, k, factor);
    MulMonotone(k, sr - 1, factor);
    MulMonotone(0, r, factor);
    MulMonotone(r, sr - 1, factor);
    if r == 0 {
      assert At(0, k, sr) == k;
    }
  }

  /** Every entry of a fitting sample map is a valid index of the flat grid. */
  lemma SampleMapInGrid(cells: seq<int>, sr: nat, factor: int, xnum: int, ynum: int)
    requires IsSampleMap(cells, sr, factor, ynum) && SampleFits(sr, factor, xnum, ynum)
    ensures forall p :: 0 <= p < |cells| ==> 0 <= cells[p] < xnum * ynum
  {
    forall p | 0 <= p < |cells|
      ensures 0 <= cells[p] < xnum * ynum
    {
      AtCovers(p, sr, sr);
      var r, k := p / sr, p % sr;
      SampleMapCoordinates(cells, sr, factor, xnum, ynum, r, k);
      AtBounds(SampleRow(r, factor), 1 + k * factor, xnum, ynum);
    }
  }

  /** An entry earlier in row-major order of the map is the smaller grid index. */
  lemma SampleEntryLess(cells: seq<int>, sr: nat, factor: int, xnum: int, ynum: int, r1: int, k1: int, r2: int, k2: int)
    requires IsSampleMap(cells, sr, factor, ynum) && SampleFits(sr, factor, xnum, ynum)
    requires 1 <= factor
    requires 0 <= r1 < sr && 0 <= k1 < sr && 0 <= r2 < sr && 0 <= k2 < sr
    requires r1 < r2 || (r1 == r2 && k1 < k2)
    ensures 0 <= At(r1, k1, sr) < |cells| && 0 <= At(r2, k2, sr) < |cells|
    ensures cells[At(r1, k1, sr)] < cells[At(r2, k2, sr)]
  {
    SampleMapCoordinates(cells, sr, factor, xnum, ynum, r1, k1);
    SampleMapCoordinates(cells, sr, factor, xnum, ynum, r2, k2);
    SampleOrder(factor, r1, k1, r2, k2);
    AtLexLess(SampleRow(r1, factor), 1 + k1 * factor, SampleRow(r2, factor), 1 + k2 * factor, ynum);
  }

  /** With a positive spacing, later map rows land on later grid rows and later
      columns on later grid columns. */
  lemma SampleOrder(factor: int, r1: int, k1: int, r2: int, k2: int)
    requires 1 <= factor && 0 <= r1 && 0 <= k1
    requires r1 < r2 || (r1 == r2 && k1 < k2)
    ensures SampleRow(r1, factor) < SampleRow(r2, factor)
         || (SampleRow(r1, factor) == SampleRow(r2, factor) && k1 * factor < k2 * factor)
  {
    if r1 < r2 {
      MulMonotone(1, r2, factor);
      if r1 != 0 {
        MulMonotone(r1 + 1, r2, factor);
        assert (r1 + 1) * factor == r1 * factor + factor;
      }
    } else {
      MulMonotone(k1 + 1, k2, factor);
      assert (k1 + 1) * factor == k1 * factor + factor;
    }
  }

  /** With a spacing of at least one, a fitting sample map is strictly increasing in
      channel order, so no two channels sample the same grid cell. */
  lemma SampleMapStrictlyIncreasing(cells: seq<int>, sr: nat, factor: int, xnum: int, ynum: int)
    requires IsSampleMap(cells, sr, factor, ynum) && SampleFits(sr, factor, xnum, ynum)
    requires 1 <= factor
    ensures forall p, q :: 0 <= p < q < |cells| ==> cells[p] < cells[q]
  {
    forall p, q | 0 <= p < q < |cells|
      ensures cells[p] < cells[q]
    {
      AtCovers(p, sr, sr);
      AtCovers(q, sr, sr);
      var r1, k1, r2, k2 := p / sr, p % sr, q / sr, q % sr;
      if r2 < r1 {
        AtLexLess(r2, k2, r1, k1, sr);
      }
      SampleEntryLess(cells, sr, factor, xnum, ynum, r1, k1, r2, k2);
    }
  }

  /** The 25-channel map on the 100 by 100 tissue of 2Dcells.c:13, 146-147: spacing 20,
      first row 1, 21, 41, 61, 81, and the second row starts at grid row 21. */
  lemma SampleMapExample(cells: seq<int>)
    requires IsSampleMap(cells, 5, 100 / 5, 100)
    ensures cells[..5] == [1, 21, 41, 61, 81]
    ensures cells[5] == 2101 && cells[24] == 8181
  {
    assert At(1, 0, 5) == 5 && At(4, 4, 5) == 24;
  }
}
