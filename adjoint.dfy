/** The adjoint engine: a coarse/fine state machine over the DG object. In the
    coarse state the DG object holds the discretization it was given; going
    to fine raises every owned cell's polynomial order by one, carries the
    coarse solution over, and reassembles. The accessors convert first and
    then compute the adjoint or the dual-weighted-residual indicator. */
module AdjointEngine {
  import opened Mesh
  import opened Dwr

  /** Which discretization the engine's dual quantities belong to. */
  datatype AdjointEnum = Coarse | Fine

  /** The engine's cached vectors. */
  datatype Cache = Cache(dIdwFine: seq<real>, adjointFine: seq<real>,
                         dIdwCoarse: seq<real>, adjointCoarse: seq<real>, dwrFine: seq<real>)

  /** The solution transfer's interpolation of `u` from the cells `from` onto
      the cells `to`, entry by entry, into a vector of `n` entries. */
  function Transferred(transferAt: (seq<Cell>, seq<Cell>, seq<real>, nat) -> real,
                       from: seq<Cell>, to: seq<Cell>, u: seq<real>, n: nat): (r: seq<real>)
    ensures |r| == n
  {
    seq(n, i requires 0 <= i < n => transferAt(from, to, u, i))
  }

  /** The functional's dI/dw on a discretization, one entry per DOF. */
  function DIdw(dIdwAt: (seq<Cell>, seq<real>, nat) -> real, d: Discretization): (r: seq<real>)
    ensures |r| == |d.solution|
  {
    seq(|d.solution|, i requires 0 <= i < |d.solution| => dIdwAt(d.cells, d.solution, i))
  }

  /** The linear solver's answer for the matrix `m` and right-hand side `b`,
      written into a vector of `n` entries. */
  function Solved(solveAt: (Jacobian, seq<real>, nat) -> real,
                  m: Jacobian, b: seq<real>, n: nat): (r: seq<real>)
    ensures |r| == n
  {
    seq(n, i requires 0 <= i < n => solveAt(m, b, i))
  }

  /** The DG object after coarse_to_fine: owned cells one order higher, the
      cells renumbered, the coarse solution `uCoarse` transferred onto the new
      numbering, and the residual and Jacobian assembled there. */
  function Refined(d: Discretization,
                   distribute: seq<Cell> -> DofLayout,
                   residualAt: (seq<Cell>, seq<real>, nat) -> real,
                   transferAt: (seq<Cell>, seq<Cell>, seq<real>, nat) -> real,
                   uCoarse: seq<real>): (r: Discretization)
    requires LayoutFits(distribute(Enriched(d.cells)), |d.cells|)
    ensures |r.cells| == |d.cells|
    ensures forall c | 0 <= c < |d.cells| ::
              r.cells[c].owned == d.cells[c].owned &&
              r.cells[c].activeIndex == d.cells[c].activeIndex &&
              r.cells[c].feIndex == (if d.cells[c].owned then d.cells[c].feIndex + 1 else d.cells[c].feIndex)
    ensures ActiveIndexing(d.cells) ==> ActiveIndexing(r.cells)
    ensures DofsBelow(r.cells, r.nDofs) && |r.solution| == r.nDofs && |r.rhs| == r.nDofs
    ensures r.solution == Transferred(transferAt, d.cells, r.cells, uCoarse, r.nDofs)
    ensures r.rhs == Assembled(residualAt, r.cells, r.solution, r.nDofs)
    ensures r.matrix == Jacobian(r.cells, r.solution)
  {
    var raised := Enriched(d.cells);
    var layout := distribute(raised);
    var cells := Renumbered(raised, layout);
    var u := Transferred(transferAt, d.cells, cells, uCoarse, layout.nDofs);
    Discretization(cells, layout.nDofs, u, Assembled(residualAt, cells, u, layout.nDofs), Jacobian(cells, u))
  }

  class Adjoint {
    /** The DG object the engine works on (shared with the rest of the solver). */
    const dg: DG
    /** Entry i of the functional's dI/dw for a discretization and a solution. */
    const dIdwAt: (seq<Cell>, seq<real>, nat) -> real
    /** Entry i of the linear solver's solution for a matrix and a right-hand side. */
    const solveAt: (Jacobian, seq<real>, nat) -> real
    /** Entry i of the solution transfer's interpolation from old cells onto new ones. */
    const transferAt: (seq<Cell>, seq<Cell>, seq<real>, nat) -> real
    /** The DG solution as it was when the engine was built. */
    const solutionCoarse: seq<real>

    var state: AdjointEnum
    var dIdwFine: seq<real>
    var adjointFine: seq<real>
    var dIdwCoarse: seq<real>
    var adjointCoarse: seq<real>
    var dwrFine: seq<real>

    ghost predicate Valid()
      reads this, dg, dg.cells
    {
      dg.Valid()
    }

    function Cached(): Cache
      reads this
    {
      Cache(dIdwFine, adjointFine, dIdwCoarse, adjointCoarse, dwrFine)
    }

    /** What the DG object looks like after converting from state `from` to
        state `to`, starting from `d`: refined on the way from coarse to fine,
        untouched otherwise. */
    ghost function AfterConversion(from: AdjointEnum, to: AdjointEnum, d: Discretization): Discretization
      requires forall cs :: LayoutFits(dg.distribute(cs), |cs|)
    {
      if from == Coarse && to == Fine then Refined(d, dg.distribute, dg.residualAt, transferAt, solutionCoarse)
      else d
    }

    /** A fresh engine starts coarse, keeps a copy of the DG solution, and
        holds empty vectors. */
    constructor (dg: DG,
                 dIdwAt: (seq<Cell>, seq<real>, nat) -> real,
                 solveAt: (Jacobian, seq<real>, nat) -> real,
                 transferAt: (seq<Cell>, seq<Cell>, seq<real>, nat) -> real)
      requires dg.Valid()
      ensures Valid() && state == Coarse
      ensures this.dg == dg && solutionCoarse == dg.solution
      ensures this.dIdwAt == dIdwAt && this.solveAt == solveAt && this.transferAt == transferAt
      ensures Cached() == Cache([], [], [], [], [])
    {
      this.dg := dg;
      this.dIdwAt := dIdwAt;
      this.solveAt := solveAt;
      this.transferAt := transferAt;
      solutionCoarse := dg.solution;
      state := Coarse;
      dIdwFine, adjointFine, dIdwCoarse, adjointCoarse, dwrFine := [], [], [], [], [];
    }

    /** Raise every owned cell's finite-element index by one, renumber,
        transfer the coarse solution, reassemble, and tag the state fine. */
    method CoarseToFine()
      requires Valid()
      modifies this, dg, dg.cells
      ensures Valid() && state == Fine && Cached() == old(Cached())
      ensures dg.View() == Refined(old(dg.View()), dg.distribute, dg.residualAt, transferAt, solutionCoarse)
    {
      var coarseCells := dg.cells[..];
      var c := 0;
      while c < dg.cells.Length
        invariant 0 <= c <= dg.cells.Length
        invariant forall k | 0 <= k < c :: dg.cells[k] == Raised(coarseCells[k])
        invariant forall k | c <= k < dg.cells.Length :: dg.cells[k] == coarseCells[k]
        modifies dg.cells
      {
        if dg.cells[c].owned {
          dg.cells[c] := dg.cells[c].(feIndex := dg.cells[c].feIndex + 1);
        }
        c := c + 1;
      }
      assert dg.cells[..] == Enriched(coarseCells);
      assert dg.Valid();
      dg.AllocateSystem();
      dg.solution := Transferred(transferAt, coarseCells, dg.cells[..], solutionCoarse, dg.nDofs);
      dg.AssembleResidual();
      state := Fine;
    }

    /** Only the tag goes back to coarse; nothing of the fine discretization is undone. */
    method FineToCoarse()
      modifies this
      ensures state == Coarse && Cached() == old(Cached())
      ensures old(state) == Coarse ==> unchanged(this)
    {
      if state == Fine {
        state := Coarse;
      }
    }

    /** Bring the engine to state `s`; nothing at all happens when it is there already. */
    method ConvertToState(s: AdjointEnum)
      requires Valid()
      modifies this, dg, dg.cells
      ensures Valid() && state == s && Cached() == old(Cached())
      ensures dg.View() == AfterConversion(old(state), s, old(dg.View()))
      ensures old(state) == s ==> unchanged(this, dg, dg.cells)
      ensures old(state) == Fine ==> unchanged(dg, dg.cells)
    {
      if state == s {
        return;
      }
      if state == Coarse && s == Fine {
        CoarseToFine();
      }
      if state == Fine && s == Coarse {
        FineToCoarse();
      }
    }

    /** The fine adjoint: convert to fine, evaluate dI/dw there, and solve with
        the fine system matrix into a vector sized like the solution. */
    method FineGridAdjoint() returns (r: seq<real>)
      requires Valid()
      modifies this, dg, dg.cells
      ensures Valid() && state == Fine
      ensures dg.View() == AfterConversion(old(state), Fine, old(dg.View()))
      ensures dIdwFine == DIdw(dIdwAt, dg.View())
      ensures adjointFine == Solved(solveAt, dg.matrix, dIdwFine, |dg.solution|)
      ensures r == adjointFine && |r| == dg.nDofs
      ensures Cached() == old(Cached()).(dIdwFine := dIdwFine, adjointFine := adjointFine)
    {
      ConvertToState(Fine);
      dIdwFine := DIdw(dIdwAt, dg.View());
      adjointFine := Zeros(|dg.solution|);
      adjointFine := Solved(solveAt, dg.matrix, dIdwFine, |adjointFine|);
      r := adjointFine;
    }

    /** The coarse adjoint: convert to coarse, evaluate dI/dw on whatever the
        DG object now holds, and solve with its system matrix. Converting to
        coarse never touches the DG object. */
    method CoarseGridAdjoint() returns (r: seq<real>)
      requires Valid()
      modifies this, dg, dg.cells
      ensures Valid() && state == Coarse
      ensures unchanged(dg, dg.cells)
      ensures dIdwCoarse == DIdw(dIdwAt, dg.View())
      ensures adjointCoarse == Solved(solveAt, dg.matrix, dIdwCoarse, |dg.solution|)
      ensures r == adjointCoarse && |r| == dg.nDofs
      ensures Cached() == old(Cached()).(dIdwCoarse := dIdwCoarse, adjointCoarse := adjointCoarse)
    {
      ConvertToState(Coarse);
      dIdwCoarse := DIdw(dIdwAt, dg.View());
      adjointCoarse := Zeros(|dg.solution|);
      adjointCoarse := Solved(solveAt, dg.matrix, dIdwCoarse, |adjointCoarse|);
      r := adjointCoarse;
    }

    /** The dual-weighted-residual indicator: convert to fine, then gather, per
        owned cell, the residual times the cached fine adjoint over its DOFs.
        The adjoint is not recomputed here. */
    method DualWeightedResidual() returns (r: Outcome)
      requires Valid()
      modifies this, dg, dg.cells
      ensures Valid() && state == Fine
      ensures dg.View() == AfterConversion(old(state), Fine, old(dg.View()))
      ensures r.Indicator? <==> OwnedFit(dg.cells[..], dg.rhs, adjointFine)
      ensures |adjointFine| == dg.nDofs ==> r.Indicator?
      ensures r.Indicator? ==> |r.values| == dg.cells.Length
      ensures r.Indicator? ==> r.values == Scatter(dg.cells[..], dg.rhs, adjointFine, Zeros(dg.cells.Length))
      ensures r.Indicator? ==>
                forall c | 0 <= c < dg.cells.Length ::
                  r.values[dg.cells[c].activeIndex]
                  == if dg.cells[c].owned then CellDot(dg.cells[c].dofs, dg.rhs, adjointFine) else 0.0
      ensures Cached() == old(Cached()).(dwrFine := if r.Indicator? then r.values else old(dwrFine))
    {
      ConvertToState(Fine);
      r := Gather(dg.cells[..], dg.rhs, adjointFine);
      if r.Indicator? {
        dwrFine := r.values;
      }
    }

    /** Converting twice to the same state does what converting once does. */
    method ConvertTwice(s: AdjointEnum)
      requires Valid()
      modifies this, dg, dg.cells
      ensures Valid() && state == s && Cached() == old(Cached())
      ensures dg.View() == AfterConversion(old(state), s, old(dg.View()))
    {
      ConvertToState(s);
      ConvertToState(s);
    }

    /** Fine, back to coarse, and fine again: since going back restores
        nothing, every owned cell ends two orders above where it started. */
    method RoundTripRaisesTwice()
      requires Valid() && state == Coarse
      modifies this, dg, dg.cells
      ensures Valid() && state == Fine
      ensures forall c | 0 <= c < dg.cells.Length ::
                dg.cells[c].feIndex == old(dg.cells[c].feIndex) + (if old(dg.cells[c].owned) then 2 else 0)
    {
      ConvertToState(Fine);
      ConvertToState(Coarse);
      ConvertToState(Fine);
    }

    /** The driver's sequence: the fine adjoint, then the indicator. The
        indicator then always succeeds, since the adjoint matches the fine numbering. */
    method AdjointThenIndicator() returns (psi: seq<real>, r: Outcome)
      requires Valid()
      modifies this, dg, dg.cells
      ensures Valid() && state == Fine
      ensures psi == adjointFine && r.Indicator?
      ensures OwnedFit(dg.cells[..], dg.rhs, psi) && |r.values| == dg.cells.Length
      ensures forall c | 0 <= c < dg.cells.Length ::
                r.values[dg.cells[c].activeIndex]
                == if dg.cells[c].owned then CellDot(dg.cells[c].dofs, dg.rhs, psi) else 0.0
    {
      psi := FineGridAdjoint();
      r := DualWeightedResidual();
    }
  }
}
