/** The quality gate of `munge` and the fiducial count it rests on
    (`read_fvcMerge`). */
module Quality {
  import opened Wrappers
  import Paths

  /** A floating-point column value: a number or NaN. Every comparison with
      NaN is false. */
  datatype Float = Num(v: real) | NaN

  const MIN_NUM_FIDUCIALS: nat := 100
  const MAX_POS_RMS: real := 0.05

  /** `x <= bound` on a float column. */
  predicate AtMost(x: Float, bound: real)
  {
    x.Num? && x.v <= bound
  }

  /** `(num_fiducials >= 100) & (xrms <= 0.05) & (yrms <= 0.05)`. */
  predicate Successful(numFiducials: nat, xrms: Float, yrms: Float)
  {
    numFiducials >= MIN_NUM_FIDUCIALS && AtMost(xrms, MAX_POS_RMS) && AtMost(yrms, MAX_POS_RMS)
  }

  /** `len(read_fvcMerge(expid, data_dir))`: the row count of `fvcMerge-{expid}.dat`
      if it can be read, else of `fvcMerge-{expid}.0.dat`, else of the empty
      frame returned on failure. `rows` gives the row count of a file that
      reads, `None` for one that raises. */
  function NumFiducials(expid: int, dir: string, rows: string -> Option<nat>): (n: nat)
    ensures rows(Paths.FvcMergePath(dir, expid)).Some? ==> n == rows(Paths.FvcMergePath(dir, expid)).value
    ensures rows(Paths.FvcMergePath(dir, expid)).None? && rows(Paths.FvcMergeAltPath(dir, expid)).Some? ==>
              n == rows(Paths.FvcMergeAltPath(dir, expid)).value
    ensures rows(Paths.FvcMergePath(dir, expid)).None? && rows(Paths.FvcMergeAltPath(dir, expid)).None? ==>
              n == 0
  {
    match rows(Paths.FvcMergePath(dir, expid))
    case Some(n) => n
    case None =>
      match rows(Paths.FvcMergeAltPath(dir, expid))
      case Some(n) => n
      case None => 0
  }

  /** A successful exposure has at least 100 fiducials and both residuals are
      numbers no larger than 0.05; an exposure meeting those is successful. */
  lemma SuccessfulIff(numFiducials: nat, xrms: Float, yrms: Float)
    ensures Successful(numFiducials, xrms, yrms) <==>
              numFiducials >= 100 &&
              (exists x :: xrms == Num(x) && x <= 0.05) &&
              (exists y :: yrms == Num(y) && y <= 0.05)
  {
    if xrms.Num? && yrms.Num? {
      assert xrms == Num(xrms.v) && yrms == Num(yrms.v);
    }
  }

  /** A missing residual (NaN, as for an exposure whose coefficient file has
      no such term) can never pass the gate. */
  lemma NaNNeverSuccessful(numFiducials: nat, rms: Float)
    ensures !Successful(numFiducials, NaN, rms) && !Successful(numFiducials, rms, NaN)
  {
  }

  /** When neither fvcMerge file can be read the count is 0, so no residuals
      make the exposure successful. */
  lemma NeverSuccessfulWithoutFvcMerge(expid: int, dir: string, rows: string -> Option<nat>, xrms: Float, yrms: Float)
    requires rows(Paths.FvcMergePath(dir, expid)).None?
    requires rows(Paths.FvcMergeAltPath(dir, expid)).None?
    ensures !Successful(NumFiducials(expid, dir, rows), xrms, yrms)
  {
  }

  /** More fiducials and smaller residuals keep an exposure successful. */
  lemma SuccessfulMonotone(n: nat, x: Float, y: Float, n': nat, x': Float, y': Float)
    requires Successful(n, x, y)
    requires n' >= n && x'.Num? && x'.v <= x.v && y'.Num? && y'.v <= y.v
    ensures Successful(n', x', y')
  {
  }
}
