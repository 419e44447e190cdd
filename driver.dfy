/** The checks `main` makes before it multiplies, and the exit status each
    outcome leads to. The parsed integers and the result of each allocation
    are inputs: parsing and allocation themselves are library calls. */
module Driver {

  /** Whether each of the three buffer allocations succeeded. */
  datatype Allocation = Allocation(a: bool, b: bool, c: bool)

  /** How `main` ends: its exit status, whether it got as far as allocating
      the buffers, and whether it went on to fill and multiply them. */
  datatype Outcome = Outcome(status: int, triedAllocation: bool, multiplied: bool)

  /** `main`'s decision: too few arguments or a non-positive size or thread
      count stop with status 1 before anything is allocated; a failed
      allocation stops with status 2 before anything is multiplied; otherwise
      the product is computed and the status is 0. */
  function MainOutcome(argc: int, N: int, TH: int, alloc: Allocation): (o: Outcome)
    ensures o.status == 0 || o.status == 1 || o.status == 2
    ensures o.status == 1 <==> argc < 3 || N <= 0 || TH <= 0
    ensures o.status == 2 <==> argc >= 3 && N > 0 && TH > 0 && !(alloc.a && alloc.b && alloc.c)
    ensures o.triedAllocation <==> o.status != 1
    ensures o.multiplied <==> o.status == 0
  {
    if argc < 3 then Outcome(1, false, false)
    else if N <= 0 || TH <= 0 then Outcome(1, false, false)
    else if !alloc.a || !alloc.b || !alloc.c then Outcome(2, true, false)
    else Outcome(0, true, true)
  }
}
