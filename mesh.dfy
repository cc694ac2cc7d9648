/** The hp discretization the adjoint engine works on: the active cells of the
    triangulation as the DoF handler sees them, and the DG object's solution,
    residual and system matrix. Mesh storage, DoF distribution and residual
    assembly belong to collaborators; here they are function-valued fields
    whose only effect is the one the contracts name. */
module Mesh {

  /** One active cell: whether this process owns it, its active finite-element
      index in the hp collection, its active cell index, and the global DOF
      indices the DoF handler gives it. */
  datatype Cell = Cell(owned: bool, feIndex: nat, activeIndex: nat, dofs: seq<nat>)

  /** The system matrix, identified by what it linearises: the residual of the
      discretization `cells` at the solution `at`. */
  datatype Jacobian = Jacobian(cells: seq<Cell>, at: seq<real>)

  /** A DOF numbering: the number of DOFs and the DOF indices of each cell. */
  datatype DofLayout = DofLayout(nDofs: nat, indices: seq<seq<nat>>)

  /** Everything of the DG object the adjoint engine reads or changes, as a value. */
  datatype Discretization = Discretization(
    cells: seq<Cell>, nDofs: nat, solution: seq<real>, rhs: seq<real>, matrix: Jacobian)

  /** A vector of `n` zeros, as a freshly reinitialised vector holds. */
  function Zeros(n: nat): (z: seq<real>)
    ensures |z| == n && forall i | 0 <= i < n :: z[i] == 0.0
  {
    seq(n, _ => 0.0)
  }

  /** Every cell's active index is below `n`. */
  predicate SlotsBelow(cs: seq<Cell>, n: nat) {
    forall c | 0 <= c < |cs| :: cs[c].activeIndex < n
  }

  /** No two cells share an active index. */
  predicate DistinctSlots(cs: seq<Cell>) {
    forall c, d | 0 <= c < d < |cs| :: cs[c].activeIndex != cs[d].activeIndex
  }

  /** The active cell indices number the cells 0 .. |cs|-1, each once. */
  predicate ActiveIndexing(cs: seq<Cell>) {
    SlotsBelow(cs, |cs|) && DistinctSlots(cs)
  }

  /** Every DOF index of every cell is below `n`. */
  predicate DofsBelow(cs: seq<Cell>, n: nat) {
    forall c, j | 0 <= c < |cs| && 0 <= j < |cs[c].dofs| :: cs[c].dofs[j] < n
  }

  /** A numbering of `n` cells whose indices all lie below its DOF count. */
  predicate LayoutFits(layout: DofLayout, n: nat) {
    |layout.indices| == n &&
    forall c, j | 0 <= c < n && 0 <= j < |layout.indices[c]| :: layout.indices[c][j] < layout.nDofs
  }

  /** One step of the enrichment loop: an owned cell is asked for the next
      finite element of the collection, any other cell keeps its own. */
  function Raised(cell: Cell): (r: Cell)
    ensures r == cell.(feIndex := r.feIndex)
    ensures r.feIndex > cell.feIndex <==> cell.owned
    ensures cell.feIndex <= r.feIndex <= cell.feIndex + 1
  {
    if cell.owned then cell.(feIndex := cell.feIndex + 1) else cell
  }

  /** The cells after the enrichment loop has visited all of them: the same
      cells with the same DOFs and active indices, owned ones one order up. */
  function Enriched(cs: seq<Cell>): (r: seq<Cell>)
    ensures |r| == |cs|
    ensures forall k | 0 <= k < |cs| ::
              r[k] == cs[k].(feIndex := r[k].feIndex) &&
              r[k].feIndex == if cs[k].owned then cs[k].feIndex + 1 else cs[k].feIndex
    ensures ActiveIndexing(cs) ==> ActiveIndexing(r)
  {
    seq(|cs|, k requires 0 <= k < |cs| => Raised(cs[k]))
  }

  /** The cells with the DOF indices of a new numbering. */
  function Renumbered(cs: seq<Cell>, layout: DofLayout): (r: seq<Cell>)
    requires |layout.indices| == |cs|
    ensures |r| == |cs|
  {
    seq(|cs|, k requires 0 <= k < |cs| => cs[k].(dofs := layout.indices[k]))
  }

  /** The right-hand side that residual assembly writes, entry by entry.
      Like the transfer, dI/dw and the solve in the engine, this is a vector a
      collaborator fills one entry per DOF; each keeps its own name and
      signature because each stands for a different call of the program. */
  function Assembled(residualAt: (seq<Cell>, seq<real>, nat) -> real,
                     cs: seq<Cell>, u: seq<real>, n: nat): (r: seq<real>)
    ensures |r| == n
  {
    seq(n, i requires 0 <= i < n => residualAt(cs, u, i))
  }

  /** The DG object: the part of it the adjoint engine uses. */
  class DG {
    /** The active cells, in the DoF handler's active-cell order. Only their
        finite-element indices and DOF indices change; the cells stay. */
    const cells: array<Cell>
    /** The DoF handler's numbering of a set of cells (done in allocate_system). */
    const distribute: seq<Cell> -> DofLayout
    /** Entry i of the residual that assembly computes for cells and a solution. */
    const residualAt: (seq<Cell>, seq<real>, nat) -> real

    var nDofs: nat
    var solution: seq<real>
    var rhs: seq<real>
    var matrix: Jacobian

    ghost predicate Valid()
      reads this, cells
    {
      (forall cs :: LayoutFits(distribute(cs), |cs|)) &&
      ActiveIndexing(cells[..]) &&
      DofsBelow(cells[..], nDofs) &&
      |solution| == nDofs && |rhs| == nDofs
    }

    function View(): Discretization
      reads this, cells
    {
      Discretization(cells[..], nDofs, solution, rhs, matrix)
    }

    /** A discretization of the cells `cs`, numbered and allocated, with a zero
        solution. The engine never builds a DG object; this constructor only
        shows that `Valid()` can be established. */
    constructor (cs: seq<Cell>, distribute: seq<Cell> -> DofLayout,
                 residualAt: (seq<Cell>, seq<real>, nat) -> real)
      requires forall cs' :: LayoutFits(distribute(cs'), |cs'|)
      requires ActiveIndexing(cs)
      ensures Valid() && fresh(cells)
      ensures this.distribute == distribute && this.residualAt == residualAt
      ensures cells[..] == Renumbered(cs, distribute(cs)) && nDofs == distribute(cs).nDofs
      ensures solution == Zeros(nDofs) && rhs == Zeros(nDofs) && matrix == Jacobian(cells[..], solution)
    {
      var layout := distribute(cs);
      assert LayoutFits(layout, |cs|);
      var numbered := Renumbered(cs, layout);
      this.distribute := distribute;
      this.residualAt := residualAt;
      cells := new Cell[|cs|](k requires 0 <= k < |cs| => numbered[k]);
      nDofs := layout.nDofs;
      solution := Zeros(layout.nDofs);
      rhs := Zeros(layout.nDofs);
      new;
      assert cells[..] == numbered;
      matrix := Jacobian(cells[..], solution);
    }

    /** allocate_system: number the current cells afresh and size the solution
        and residual to the new DOF count. The matrix is left to the next assembly. */
    method AllocateSystem()
      requires Valid()
      modifies this, cells
      ensures Valid()
      ensures cells[..] == Renumbered(old(cells[..]), distribute(old(cells[..])))
      ensures nDofs == distribute(old(cells[..])).nDofs
      ensures solution == Zeros(nDofs) && rhs == Zeros(nDofs) && matrix == old(matrix)
    {
      var layout := distribute(cells[..]);
      assert LayoutFits(layout, cells.Length);
      ghost var numbered := Renumbered(cells[..], layout);
      forall k | 0 <= k < cells.Length {
        cells[k] := cells[k].(dofs := layout.indices[k]);
      }
      assert cells[..] == numbered;
      nDofs := layout.nDofs;
      solution := Zeros(nDofs);
      rhs := Zeros(nDofs);
    }

    /** assemble_residual with the Jacobian: the residual of the current cells at
        the current solution, and the matrix that linearises it there. */
    method AssembleResidual()
      requires Valid()
      modifies this
      ensures Valid()
      ensures rhs == Assembled(residualAt, cells[..], solution, nDofs)
      ensures matrix == Jacobian(cells[..], solution)
      ensures nDofs == old(nDofs) && solution == old(solution)
    {
      rhs := Assembled(residualAt, cells[..], solution, nDofs);
      matrix := Jacobian(cells[..], solution);
    }
  }
}
