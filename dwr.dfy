/** The dual-weighted-residual indicator: for every locally owned cell, the
    sum over the cell's DOFs of residual times fine adjoint, stored at the
    cell's active index; every other entry stays zero. */
module Dwr {
  import opened Mesh

  /** What the gather loop hands back: the indicator, one entry per active
      cell, or the first owned cell whose DOF indices reach past the residual
      or the adjoint (the vectors' bounds check fires there). */
  datatype Outcome = Indicator(values: seq<real>) | DofOutOfRange(cell: nat)

  /** Every DOF index lies inside both the residual and the adjoint. */
  predicate DofsFit(dofs: seq<nat>, rhs: seq<real>, psi: seq<real>) {
    forall j | 0 <= j < |dofs| :: dofs[j] < |rhs| && dofs[j] < |psi|
  }

  /** Every owned cell's DOF indices lie inside both vectors. */
  predicate OwnedFit(cells: seq<Cell>, rhs: seq<real>, psi: seq<real>) {
    forall c | 0 <= c < |cells| && cells[c].owned :: DofsFit(cells[c].dofs, rhs, psi)
  }

  /** The indicator of one cell: rhs[i] * psi[i] summed over its DOF indices i,
      added up in the order the DOFs are listed. A residual that vanishes on
      the cell's DOFs gives the cell a zero indicator. */
  function CellDot(dofs: seq<nat>, rhs: seq<real>, psi: seq<real>): (r: real)
    requires DofsFit(dofs, rhs, psi)
    ensures (forall j | 0 <= j < |dofs| :: rhs[dofs[j]] == 0.0) ==> r == 0.0
    decreases |dofs|
  {
    if dofs == [] then 0.0
    else
      var k := |dofs| - 1;
      CellDot(dofs[..k], rhs, psi) + rhs[dofs[k]] * psi[dofs[k]]
  }

  /** A cell's indicator reads the residual and the adjoint only at the cell's own DOFs. */
  lemma {:induction false} CellDotLocal(dofs: seq<nat>, rhs: seq<real>, psi: seq<real>,
                                        rhs': seq<real>, psi': seq<real>)
    requires DofsFit(dofs, rhs, psi) && DofsFit(dofs, rhs', psi')
    requires forall j | 0 <= j < |dofs| :: rhs[dofs[j]] == rhs'[dofs[j]] && psi[dofs[j]] == psi'[dofs[j]]
    ensures CellDot(dofs, rhs, psi) == CellDot(dofs, rhs', psi')
    decreases |dofs|
  {
    if dofs != [] {
      var k := |dofs| - 1;
      CellDotLocal(dofs[..k], rhs, psi, rhs', psi');
    }
  }

  /** The indicator vector after visiting `cells` in order, starting from
      `base`: each owned cell writes its CellDot at its active index. */
  function Scatter(cells: seq<Cell>, rhs: seq<real>, psi: seq<real>, base: seq<real>): (r: seq<real>)
    requires SlotsBelow(cells, |base|) && OwnedFit(cells, rhs, psi)
    ensures |r| == |base|
    decreases |cells|
  {
    if cells == [] then base
    else
      var k := |cells| - 1;
      var prev := Scatter(cells[..k], rhs, psi, base);
      if cells[k].owned then prev[cells[k].activeIndex := CellDot(cells[k].dofs, rhs, psi)]
      else prev
  }

  /** An entry no cell points at keeps its starting value. */
  lemma {:induction false} ScatterUntouched(cells: seq<Cell>, rhs: seq<real>, psi: seq<real>,
                                            base: seq<real>, slot: nat)
    requires SlotsBelow(cells, |base|) && OwnedFit(cells, rhs, psi)
    requires slot < |base|
    requires forall c | 0 <= c < |cells| :: cells[c].activeIndex != slot
    ensures Scatter(cells, rhs, psi, base)[slot] == base[slot]
    decreases |cells|
  {
    if cells != [] {
      ScatterUntouched(cells[..|cells| - 1], rhs, psi, base, slot);
    }
  }

  /** With distinct active indices, a cell's entry holds its own indicator when
      the cell is owned and the starting value when it is not: each cell writes
      only its own entry. */
  lemma {:induction false} ScatterAt(cells: seq<Cell>, rhs: seq<real>, psi: seq<real>,
                                     base: seq<real>, c: nat)
    requires SlotsBelow(cells, |base|) && OwnedFit(cells, rhs, psi) && DistinctSlots(cells)
    requires c < |cells|
    ensures Scatter(cells, rhs, psi, base)[cells[c].activeIndex]
            == if cells[c].owned then CellDot(cells[c].dofs, rhs, psi) else base[cells[c].activeIndex]
    decreases |cells|
  {
    var k := |cells| - 1;
    var front := cells[..k];
    if c == k {
      ScatterUntouched(front, rhs, psi, base, cells[c].activeIndex);
    } else {
      ScatterAt(front, rhs, psi, base, c);
    }
  }

  /** A slot that only copies of one cell `x` point at holds that cell's
      indicator when it is owned and the starting value when it is not, however
      often and wherever in the order the copies come. */
  lemma {:induction false} ScatterAtValue(cells: seq<Cell>, rhs: seq<real>, psi: seq<real>,
                                          base: seq<real>, x: Cell)
    requires SlotsBelow(cells, |base|) && OwnedFit(cells, rhs, psi)
    requires x in cells
    requires forall c | 0 <= c < |cells| && cells[c].activeIndex == x.activeIndex :: cells[c] == x
    ensures x.activeIndex < |base| && (x.owned ==> DofsFit(x.dofs, rhs, psi))
    ensures Scatter(cells, rhs, psi, base)[x.activeIndex]
            == if x.owned then CellDot(x.dofs, rhs, psi) else base[x.activeIndex]
    decreases |cells|
  {
    var k := |cells| - 1;
    var front := cells[..k];
    if cells[k] != x {
      assert x in front;
      ScatterAtValue(front, rhs, psi, base, x);
    } else if !x.owned {
      if x in front {
        ScatterAtValue(front, rhs, psi, base, x);
      } else {
        ScatterUntouched(front, rhs, psi, base, x.activeIndex);
      }
    }
  }

  /** The indicator does not depend on the order in which the cells are
      visited: any rearrangement of the same cells gives the same vector. */
  lemma {:induction false} ScatterOrderIndependent(a: seq<Cell>, b: seq<Cell>, rhs: seq<real>,
                                                   psi: seq<real>, base: seq<real>)
    requires multiset(a) == multiset(b)
    requires SlotsBelow(a, |base|) && OwnedFit(a, rhs, psi) && DistinctSlots(a)
    ensures SlotsBelow(b, |base|) && OwnedFit(b, rhs, psi)
    ensures Scatter(a, rhs, psi, base) == Scatter(b, rhs, psi, base)
  {
    // every cell of b is a cell of a
    forall d | 0 <= d < |b|
      ensures exists c :: 0 <= c < |a| && a[c] == b[d]
    {
      assert b[d] in multiset(a);
    }
    var ra, rb := Scatter(a, rhs, psi, base), Scatter(b, rhs, psi, base);
    forall slot | 0 <= slot < |base|
      ensures ra[slot] == rb[slot]
    {
      if c :| 0 <= c < |a| && a[c].activeIndex == slot {
        var x := a[c];
        assert x in multiset(b);
        ScatterAtValue(a, rhs, psi, base, x);
        ScatterAtValue(b, rhs, psi, base, x);
      } else {
        ScatterUntouched(a, rhs, psi, base, slot);
        ScatterUntouched(b, rhs, psi, base, slot);
      }
    }
  }

  /** A residual that is zero everywhere gives a zero indicator on every cell. */
  lemma {:induction false} ScatterVanishes(cells: seq<Cell>, rhs: seq<real>, psi: seq<real>, n: nat)
    requires SlotsBelow(cells, n) && OwnedFit(cells, rhs, psi)
    requires forall i | 0 <= i < |rhs| :: rhs[i] == 0.0
    ensures Scatter(cells, rhs, psi, Zeros(n)) == Zeros(n)
    decreases |cells|
  {
    if cells != [] {
      var k := |cells| - 1;
      ScatterVanishes(cells[..k], rhs, psi, n);
    }
  }

  /** The gather loop of dual_weighted_residual: a zeroed vector with one entry
      per active cell; for each owned cell, the residual-times-adjoint sum over
      its DOFs stored at its active index. */
  method Gather(cells: seq<Cell>, rhs: seq<real>, psi: seq<real>) returns (r: Outcome)
    requires ActiveIndexing(cells)
    ensures r.Indicator? <==> OwnedFit(cells, rhs, psi)
    ensures r.DofOutOfRange? ==>
              r.cell < |cells| && cells[r.cell].owned &&
              !DofsFit(cells[r.cell].dofs, rhs, psi) && OwnedFit(cells[..r.cell], rhs, psi)
    ensures r.Indicator? ==> r.values == Scatter(cells, rhs, psi, Zeros(|cells|))
    ensures r.Indicator? ==> |r.values| == |cells|
    ensures r.Indicator? ==>
              forall c | 0 <= c < |cells| ::
                r.values[cells[c].activeIndex]
                == if cells[c].owned then CellDot(cells[c].dofs, rhs, psi) else 0.0
  {
    var n := |cells|;
    var v := new real[n](_ => 0.0);
    var c := 0;
    while c < n
      invariant 0 <= c <= n
      invariant OwnedFit(cells[..c], rhs, psi)
      invariant v[..] == Scatter(cells[..c], rhs, psi, Zeros(n))
    {
      var cell := cells[c];
      if cell.owned {
        var acc := 0.0;
        var j := 0;
        while j < |cell.dofs|
          invariant 0 <= j <= |cell.dofs|
          invariant DofsFit(cell.dofs[..j], rhs, psi)
          invariant acc == CellDot(cell.dofs[..j], rhs, psi)
        {
          var i := cell.dofs[j];
          if i >= |rhs| || i >= |psi| {
            assert !DofsFit(cell.dofs, rhs, psi);
            return DofOutOfRange(c);
          }
          assert cell.dofs[..j + 1][..j] == cell.dofs[..j];
          acc := acc + rhs[i] * psi[i];
          j := j + 1;
        }
        assert cell.dofs[..j] == cell.dofs;
        v[cell.activeIndex] := acc;
      }
      assert cells[..c + 1][..c] == cells[..c];
      c := c + 1;
    }
    assert cells[..n] == cells;
    r := Indicator(v[..]);
    forall k | 0 <= k < n
      ensures r.values[cells[k].activeIndex]
              == if cells[k].owned then CellDot(cells[k].dofs, rhs, psi) else 0.0
    {
      ScatterAt(cells, rhs, psi, Zeros(n), k);
    }
  }
}
