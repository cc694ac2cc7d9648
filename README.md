# Adjoint engine of the PHiLiP DG solver, modelled in Dafny

This project models the goal-oriented adjoint engine of the PHiLiP
discontinuous-Galerkin solver (`Adjoint` in `src/functional/adjoint.cpp`).
The engine has two parts:

- a two-state machine over the DG object: `coarse`, which is the
  discretization it was given, and `fine`, where every locally owned cell's
  polynomial order is one higher;
- the dual-weighted-residual (DWR) error indicator. For each owned cell this
  is the sum, over the cell's degrees of freedom, of residual times fine
  adjoint, stored at the cell's active index.

Files and modules:

- `mesh.dfy`, module `Mesh`: the active cells as the DoF handler sees them.
  Each `Cell` has an owned flag, an active finite-element index, an active
  cell index and its DOF indices. This module also has the `DG` class (cells
  array, DOF count, solution, residual, system matrix). Its two methods,
  `AllocateSystem` and `AssembleResidual`, stand for the DG object's own
  routines that the engine calls. The engine never builds a DG object; the
  `DG` constructor only shows that the class invariant can be established.
- `dwr.dfy`, module `Dwr`: `CellDot`, one cell's residual-times-adjoint sum,
  added in DOF order. `Scatter` is the indicator vector as a fold over the
  cells. Lemmas about both follow, and then `Gather`, the nested gather loop.
- `adjoint.dfy`, module `AdjointEngine`: the `Adjoint` class with the state
  tag, the cached vectors (`dIdwFine`, `adjointFine`, `dIdwCoarse`,
  `adjointCoarse`, `dwrFine`) and the copy of the solution taken at
  construction. It holds the conversions, the two adjoint accessors and the
  indicator. `Refined` is the DG object, as a value, after `coarse_to_fine`.

Collaborators the engine calls but does not implement are function-valued
fields:

- DoF distribution: `distribute`.
- The residual, entry by entry: `residualAt`.
- The functional's dI/dw: `dIdwAt`.
- The linear solver: `solveAt`.
- Solution transfer: `transferAt`.

The vectors the engine fills in place (the transfer into the solution, the
reassembled residual, and the solve into the adjoint) are built by the model
one entry per DOF, in a vector reinitialised to the right length, so their
lengths are proved. dI/dw is different: the engine assigns whatever the
functional returns, and the model assumes that vector is sized like the
solution (see "Left out"). The system matrix is a symbolic `Jacobian(cells, at)`, which records
the discretization and solution it linearises. Numbers are Dafny `real`: the
properties are about which entries are summed and where results land, not
about rounding.

Where the code's method names, or its comment in `fine_to_coarse`
(src/functional/adjoint.cpp:99) that the conversion back belongs there,
suggest more than the code does, the model follows the code:

- `fine_to_coarse` only flips the tag, so the DG object stays enriched. In
  the model, `RoundTripRaisesTwice` shows what a later `coarse_to_fine` then
  does: fine, coarse, fine leaves owned cells two orders up. The program
  itself would not get that far (see "Left out").
- `coarse_grid_adjoint` after a fine phase works on the still-fine DG object.
- `dual_weighted_residual` uses whatever `adjoint_fine` holds. It does not
  compute the adjoint first.
- The solve is done with the system matrix as passed. Whether that matrix is
  already transposed is left to the solver collaborator.
- The transfer in `coarse_to_fine` starts from the solution copied when the
  engine was built, not from the DG object's current solution.

## Model

| member | source | states |
|---|---|---|
| `AdjointEngine.Adjoint.constructor` | src/functional/adjoint.cpp:28-44 | a new engine is in state `Coarse`, holds a copy of the DG solution as its coarse solution, and has empty cached vectors |
| `AdjointEngine.Adjoint.ConvertToState` | src/functional/adjoint.cpp:50-63 | afterwards the state is `s`. If it already was `s`, nothing at all changes: no field, cell or vector. Coarse to fine leaves the DG object equal to `Refined` of the old one. Fine to coarse leaves the DG object untouched. The cached vectors never change |
| `AdjointEngine.Adjoint.CoarseToFine` | src/functional/adjoint.cpp:65-93 | the enrichment loop over the cells array, then allocation, transfer and assembly. The new DG object is exactly `Refined` of the old one, its invariant still holds, and the state is `Fine` |
| `AdjointEngine.Refined` | src/functional/adjoint.cpp:79-92 | the cell count, owned flags and active indices are kept. Each owned cell's finite-element index goes up by one and each other cell keeps its own. DOF indices stay below the new DOF count. The solution is the transfer of the construction-time solution onto the new numbering. The residual is assembled on the new cells at that solution, and the matrix linearises the new cells there. Solution and residual have one entry per new DOF |
| `AdjointEngine.Adjoint.FineToCoarse` | src/functional/adjoint.cpp:95-103 | only the tag becomes `Coarse`. The DG object and all vectors are left as they are, and nothing changes when the state was already coarse |
| `Mesh.DG.AllocateSystem` | src/functional/adjoint.cpp:85 | the cells get the DOF indices of a new numbering. Solution and residual are zero vectors of the new DOF count. The DG invariant (indices below the DOF count, vectors sized to it, active indices a numbering of the cells) is kept |
| `AdjointEngine.Transferred` | src/functional/adjoint.cpp:86-87 | the interpolated solution has exactly as many entries as the new numbering has DOFs |
| `Mesh.Raised` | src/functional/adjoint.cpp:81 | one step of the enrichment loop changes only the finite-element index. The index goes up exactly when the cell is owned, by one at most, and never goes down, so a cell that is not owned keeps its index |
| `Mesh.Enriched` | src/functional/adjoint.cpp:79-82 | after the loop every cell keeps its owned flag, active index and DOFs. Owned cells are one order up and the others keep their order. The active indices still number the cells |
| `Mesh.Assembled` | src/functional/adjoint.cpp:90 | the assembled residual has one entry per DOF of the discretization |
| `Mesh.DG.AssembleResidual` | src/functional/adjoint.cpp:90 | the residual is reassembled, at the current length, for the current cells and solution. The matrix becomes their Jacobian, and the solution is unchanged |
| `AdjointEngine.DIdw` | src/functional/adjoint.cpp:110-111 | dI/dw has one entry per entry of the solution |
| `AdjointEngine.Solved` | src/functional/adjoint.cpp:113-114 | the solver fills a vector of the length it was reinitialised to |
| `AdjointEngine.Adjoint.FineGridAdjoint` | src/functional/adjoint.cpp:105-117 | ends in `Fine` with the DG object as the conversion leaves it. dI/dw is evaluated there, the adjoint is solved with the fine matrix into a vector as long as the solution, and that adjoint is returned. Only the two fine vectors change |
| `AdjointEngine.Adjoint.CoarseGridAdjoint` | src/functional/adjoint.cpp:119-131 | ends in `Coarse` without touching the DG object. dI/dw and the adjoint are computed on whatever it holds and the adjoint is returned. Only the two coarse vectors change |
| `AdjointEngine.Adjoint.DualWeightedResidual` | src/functional/adjoint.cpp:133-167 | ends in `Fine`. It succeeds exactly when every owned cell's DOFs lie inside the residual and the cached adjoint, and always when the adjoint is sized to the fine DOF count. On success it returns one entry per active cell: the owned cell's `CellDot` at its active index, 0 for the others. That vector is cached |
| `Dwr.Gather` | src/functional/adjoint.cpp:141-166 | the nested loop returns a result exactly when every owned cell's DOFs fit. Otherwise it names the first owned cell that does not. On success the result is `Scatter` of the cells from a zero vector as long as the cell count: owned cells hold their residual-times-adjoint sum and the others hold 0 |
| `Dwr.Scatter` | src/functional/adjoint.cpp:142-164 | the indicator has exactly as many entries as the vector it starts from (reinitialised to the number of active cells) |
| `Dwr.ScatterAt` | src/functional/adjoint.cpp:148-164 | with distinct active indices, a cell's entry is its own `CellDot` when owned and the starting value when not. Each cell writes only its own entry |
| `Dwr.ScatterUntouched` | src/functional/adjoint.cpp:142-149 | an entry that no cell's active index points at keeps its starting value |
| `Dwr.ScatterAtValue` | src/functional/adjoint.cpp:148-164 | an entry that only copies of one cell point at holds that cell's `CellDot` when it is owned and the starting value when not, wherever the copies come in the traversal |
| `Dwr.ScatterOrderIndependent` | src/functional/adjoint.cpp:148-164 | any traversal order of the same cells gives the same indicator vector. The rearranged cells need no separate checks: they fit the vectors whenever the original ones do |
| `Dwr.ScatterVanishes` | src/functional/adjoint.cpp:158-163 | a residual that is zero everywhere gives an all-zero indicator |
| `Dwr.CellDot` | src/functional/adjoint.cpp:158-161 | a cell's residual-times-adjoint sum over its DOFs. A residual that is zero on the cell's DOFs gives that cell a zero indicator |
| `Dwr.CellDotLocal` | src/functional/adjoint.cpp:158-161 | a cell's indicator depends only on the residual and adjoint entries at its own DOFs |
| `AdjointEngine.Adjoint.ConvertTwice` | src/functional/adjoint.cpp:51-63 | converting twice to the same state has the same effect as converting once (idempotence) |
| `AdjointEngine.Adjoint.RoundTripRaisesTwice` | src/functional/adjoint.cpp:96-103 | in the model, fine, coarse, fine from coarse leaves each owned cell's finite-element index two above where it started and each other cell's index unchanged, because going back restores nothing. The second pass relies on the model's `CoarseToFine`, which goes past where the program would stop |
| `AdjointEngine.Adjoint.AdjointThenIndicator` | src/functional/adjoint.cpp:105-167 | computing the fine adjoint and then the indicator always yields an indicator, and each owned cell's entry is its sum against that adjoint |

## Left out

- `Adjoint::output_results_vtk` (src/functional/adjoint.cpp:169-249): VTU/PVTU file output, which is I/O.
- MPI: the communicator, `update_ghost_values`, `zero_out_ghosts` and `pcout`. These are ghost-value exchange and console output. With one process they leave the values alone, so the model has none of them.
- Mesh refinement proper (`prepare_coarsening_and_refinement` / `execute_coarsening_and_refinement`): only the finite-element index change they make active is modelled. The range check that a raised index still names an element of the hp collection lives in deal.II and is not modelled.
- The bodies of `allocate_system`, `assemble_residual`, the solution transfer, `evaluate_dIdw` and `solve_linear`: they are collaborators, given as function-valued fields. DoF distribution is assumed to give indices below its own DOF count. A linear-solver failure, fatal in the solver, is not modelled.
- Mesh.DG.AllocateSystem: the reallocation of the system matrix's sparsity is not tracked; the matrix keeps its old value until the next assembly replaces it.
- AdjointEngine.DIdw: the model assumes `evaluate_dIdw` returns a vector sized like the solution. The engine assigns whatever it returns (src/functional/adjoint.cpp:111), so that length is assumed, not proved.
- AdjointEngine.Adjoint.RoundTripRaisesTwice: the "+2" is what the model gives under the `CoarseToFine` deviation below. In the program, the second `coarse_to_fine` hands the construction-time `solution_coarse` (copied at src/functional/adjoint.cpp:38, sized for the coarse numbering) to the transfer at line 76, against the already enriched DOF handler. deal.II would stop there, or read out of range, before the second raise.
- AdjointEngine.Adjoint.CoarseToFine: a second coarse-to-fine pass after `fine_to_coarse` transfers the construction-time coarse solution against a numbering it was not made for. deal.II would check that; the model applies the transfer collaborator anyway.
- AdjointEngine.Adjoint.DualWeightedResidual: an out-of-range DOF index trips deal.II's index check (debug builds), modelled as the `DofOutOfRange` result. The model then keeps the previous `dwrFine` rather than the partly written vector. Release builds would read out of bounds, which the model does not capture.
- Floating-point rounding and summation order effects: values are Dafny `real`.
- The rest of the repository: the real-gas physics (`src/physics/inviscid_real_gas.*`) with its Newton iteration and NASA polynomials; the `DiscontinuousGalerkin` declaration in `src/dg.h`; and the primitive-to-conservative test. None of these are part of this model.
