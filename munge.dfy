/** `munge(qcinv_fname, fits_dir, zth_dir)`: load the inventory, collect the
    FITS header parameters and the coefficient rows, inner-join the three on
    exposure id, count fiducials, mark each exposure `successful`, and cut
    the exposure parameters down to the exposures that made it through. */
module Munge {
  import opened Wrappers
  import opened Tables
  import Inventory
  import FitsHeader
  import Zth
  import Quality
  import Collect

  /** A row of `exp_params`: the inventory row and the header row. */
  type ExpRow = (Inventory.InventoryRow, FitsHeader.FitsRow)

  /** A row of `fids`. */
  datatype FidsRow = FidsRow(inventory: Inventory.InventoryRow, fits: FitsHeader.FitsRow, zth: Zth.ZthRow,
                             numFiducials: nat, successful: bool)

  /** A row of `good_exp_params`. */
  datatype GoodRow = GoodRow(inventory: Inventory.InventoryRow, fits: FitsHeader.FitsRow, successful: bool)

  datatype Munged = Munged(goodExpParams: Table<GoodRow>, fids: Table<FidsRow>)

  const XRMS: string := "xrms"
  const YRMS: string := "yrms"

  /** Whether some coefficient row has a value for `term`, that is whether
      the merged frame has a column of that name. */
  predicate HasTerm(zths: Table<Zth.ZthRow>, term: string)
  {
    exists i, j :: 0 <= i < |zths| && 0 <= j < |zths[i].1.entries| && zths[i].1.entries[j].0 == Zth.Term(term)
  }

  /** No entry before position `j` is stored under `term`. */
  predicate NoTermBefore(entries: seq<Zth.Cell>, term: string, j: nat)
    requires j <= |entries|
  {
    forall i :: 0 <= i < j ==> entries[i].0 != Zth.Term(term)
  }

  /** The value of a row in the `term` column: the first value stored under
      that term, or NaN where the row has none. */
  function TermValue(entries: seq<Zth.Cell>, term: string): (v: Zth.Value)
    ensures NoTermBefore(entries, term, |entries|) ==> v == Zth.Number(Quality.NaN)
    ensures forall j :: 0 <= j < |entries| && entries[j].0 == Zth.Term(term) && NoTermBefore(entries, term, j) ==>
                          v == entries[j].1
    decreases |entries|
  {
    if entries == [] then Zth.Number(Quality.NaN)
    else if entries[0].0 == Zth.Term(term) then entries[0].1
    else
      var v := TermValue(entries[1..], term);
      assert forall j :: 0 < j <= |entries| && NoTermBefore(entries, term, j) ==> NoTermBefore(entries[1..], term, j - 1);
      v
  }

  /** The first value under `term` in two pieces of a row: from the first
      piece when it holds the term, else from the second. */
  lemma {:induction false} TermValueAppend(a: seq<Zth.Cell>, b: seq<Zth.Cell>, term: string)
    ensures TermValue(a + b, term) == if NoTermBefore(a, term, |a|) then TermValue(b, term) else TermValue(a, term)
    decreases |a|
  {
    if a == [] {
      assert a + b == b;
    } else {
      assert (a + b)[1..] == a[1..] + b;
      TermValueAppend(a[1..], b, term);
      if a[0].0 != Zth.Term(term) {
        assert NoTermBefore(a, term, |a|) <==> NoTermBefore(a[1..], term, |a| - 1) by {
          assert forall i :: 0 < i < |a| ==> a[i] == a[1..][i - 1];
        }
      }
    }
  }

  /** Cells keyed by triples add nothing to a term's value. */
  lemma TermValueTriples(a: seq<Zth.Cell>, b: seq<Zth.Cell>, term: string)
    requires forall i :: 0 <= i < |b| ==> b[i].0.Coef?
    ensures TermValue(a + b, term) == TermValue(a, term)
  {
    TermValueAppend(a, b, term);
  }

  /** The value under a term in short cells followed by cells keyed by
      triples. */
  lemma RowResidual(x0: seq<Zth.Cell>, y0: seq<Zth.Cell>, x1: seq<Zth.Cell>, y1: seq<Zth.Cell>, term: string)
    requires forall i :: 0 <= i < |x1| ==> x1[i].0.Coef?
    requires forall i :: 0 <= i < |y1| ==> y1[i].0.Coef?
    ensures TermValue((x0 + y0) + (x1 + y1), term) ==
            if NoTermBefore(x0, term, |x0|) then TermValue(y0, term) else TermValue(x0, term)
  {
    var long := x1 + y1;
    assert forall i :: 0 <= i < |long| ==> long[i].0.Coef? by {
      assert forall i :: 0 <= i < |long| ==> long[i] == if i < |x1| then x1[i] else y1[i - |x1|];
    }
    TermValueTriples(x0 + y0, long, term);
    TermValueAppend(x0, y0, term);
  }

  /** A residual of an exposure's coefficient row is the first value under
      its term in the `xzth` short table, or else in the `yzth` short table
      (NaN when neither has it); the long tables never supply it. */
  lemma ResidualOf(expid: int, zthDir: string, readFile: string -> Option<string>,
                   num: string -> Option<Quality.Float>, term: string)
    requires Zth.PolyTables(Zth.XZth, expid, zthDir, readFile, num).Some?
    requires Zth.PolyTables(Zth.YZth, expid, zthDir, readFile, num).Some?
    ensures Zth.ZthRowOf(expid, zthDir, readFile, num).Some?
    ensures var x := Zth.PolyTables(Zth.XZth, expid, zthDir, readFile, num).value.0;
            var y := Zth.PolyTables(Zth.YZth, expid, zthDir, readFile, num).value.0;
            TermValue(Zth.ZthRowOf(expid, zthDir, readFile, num).value.entries, term) ==
            if NoTermBefore(x, term, |x|) then TermValue(y, term) else TermValue(x, term)
  {
    var x := Zth.PolyTables(Zth.XZth, expid, zthDir, readFile, num).value;
    var y := Zth.PolyTables(Zth.YZth, expid, zthDir, readFile, num).value;
    Zth.ZthRowLayout(expid, zthDir, readFile, num);
    Zth.PolyTablesKeys(Zth.XZth, expid, zthDir, readFile, num);
    Zth.PolyTablesKeys(Zth.YZth, expid, zthDir, readFile, num);
    RowResidual(x.0, y.0, x.1, y.1, term);
  }

  /** Both residuals of a coefficient row are numbers: `<=` can compare
      them with the bound. */
  predicate NumericRow(zth: Zth.ZthRow)
  {
    TermValue(zth.entries, XRMS).Number? && TermValue(zth.entries, YRMS).Number?
  }

  /** Every joined row has numeric residuals. */
  predicate RowsNumeric(joined: Table<(ExpRow, Zth.ZthRow)>)
  {
    forall i :: 0 <= i < |joined| ==> NumericRow(joined[i].1.1)
  }

  /** The value of `successful` for a row with `n` fiducials and numeric
      residuals. */
  function Verdict(n: nat, zth: Zth.ZthRow): bool
    requires NumericRow(zth)
  {
    Quality.Successful(n, TermValue(zth.entries, XRMS).x, TermValue(zth.entries, YRMS).x)
  }

  /** The `num_fiducials` and `successful` columns added to the joined rows,
      once every row's residuals are numbers. */
  function Annotate(joined: Table<(ExpRow, Zth.ZthRow)>, zthDir: string, rows: string -> Option<nat>)
    : (fids: Table<FidsRow>)
    requires RowsNumeric(joined)
    ensures Ids(fids) == Ids(joined)
    ensures forall i :: 0 <= i < |joined| ==>
              var inv, fits, zth := joined[i].1.0.0, joined[i].1.0.1, joined[i].1.1;
              var n := Quality.NumFiducials(inv.expid, zthDir, rows);
              fids[i].1 == FidsRow(inv, fits, zth, n, Verdict(n, zth))
  {
    seq(|joined|, i requires 0 <= i < |joined| =>
      var inv, fits, zth := joined[i].1.0.0, joined[i].1.0.1, joined[i].1.1;
      var n := Quality.NumFiducials(inv.expid, zthDir, rows);
      (joined[i].0, FidsRow(inv, fits, zth, n, Verdict(n, zth))))
  }

  /** `good_exp_params['successful'] = fids['successful']`. When the two
      indexes are equal the flags are copied position by position; otherwise
      the flags are aligned by id, which needs `fids` to have distinct ids
      and raises when it has not. */
  function MarkSuccessful(selected: Table<ExpRow>, fids: Table<FidsRow>): (r: Result<Table<GoodRow>, string>)
    ensures r.Ok? <==> Ids(selected) == Ids(fids) || Unique(Ids(fids))
    ensures r.Ok? ==> Ids(r.value) == Ids(selected)
    ensures r.Ok? ==> forall i :: 0 <= i < |selected| ==>
              r.value[i].1.inventory == selected[i].1.0 && r.value[i].1.fits == selected[i].1.1
    ensures r.Ok? && Ids(selected) == Ids(fids) ==>
              forall i :: 0 <= i < |selected| ==> r.value[i].1.successful == fids[i].1.successful
    ensures r.Ok? && Ids(selected) != Ids(fids) ==>
              forall i :: 0 <= i < |selected| ==>
                r.value[i].1.successful == (var f := Find(fids, selected[i].0); f.Some? && f.value.successful)
  {
    if Ids(selected) == Ids(fids) then
      Ok(seq(|selected|, i requires 0 <= i < |selected| =>
        (selected[i].0, GoodRow(selected[i].1.0, selected[i].1.1, fids[i].1.successful))))
    else if Unique(Ids(fids)) then
      Ok(seq(|selected|, i requires 0 <= i < |selected| =>
        var f := Find(fids, selected[i].0);
        (selected[i].0, GoodRow(selected[i].1.0, selected[i].1.1, f.Some? && f.value.successful))))
    else Err("cannot reindex on an axis with duplicate labels")
  }

  /** With distinct `fids` ids, both ways of assigning give each selected row
      the flag of the `fids` row with its id. */
  lemma MarkSuccessfulAligned(selected: Table<ExpRow>, fids: Table<FidsRow>)
    requires Unique(Ids(fids))
    ensures MarkSuccessful(selected, fids).Ok?
    ensures forall i :: 0 <= i < |selected| ==>
              MarkSuccessful(selected, fids).value[i].1.successful ==
              (var f := Find(fids, selected[i].0); f.Some? && f.value.successful)
  {
    if Ids(selected) == Ids(fids) {
      forall i | 0 <= i < |selected| ensures Find(fids, selected[i].0) == Some(fids[i].1) {
        assert Ids(fids)[i] == selected[i].0;
        assert fids[i] in fids;
        FindUnique(fids, fids[i].0, fids[i].1);
      }
    }
  }

  /** Everything after the three reads: the joins, the gate, the selection
      and the assignment of the flags. The gate fails when the frame has no
      `xrms` or `yrms` column at all, and when a joined row holds a residual
      that is text, which `<=` cannot compare with a float. */
  function Combine(qcinv: Table<Inventory.InventoryRow>, fits: Table<FitsHeader.FitsRow>, zths: Table<Zth.ZthRow>,
                   zthDir: string, rows: string -> Option<nat>)
    : Result<Munged, string>
  {
    var expParams := Join(qcinv, fits);
    var joined := Join(expParams, zths);
    if !HasTerm(zths, XRMS) || !HasTerm(zths, YRMS) then Err("no xrms or yrms column")
    else if !RowsNumeric(joined) then
      Err("'<=' not supported between instances of 'str' and 'float'")
    else
      var fids := Annotate(joined, zthDir, rows);
      match MarkSuccessful(Select(expParams, Ids(fids)), fids)
      case Err(e) => Err(e)
      case Ok(good) => Ok(Munged(good, fids))
  }

  /** What `munge` returns, or the error it raises. */
  function MungeOf(qcinvFname: string, fitsDir: string, zthDir: string,
                   readFile: string -> Option<string>, openFits: string -> Option<FitsHeader.Header>,
                   isFloat: string -> bool, rows: string -> Option<nat>, num: string -> Option<Quality.Float>)
    : Result<Munged, string>
  {
    match Inventory.LoadInventory(qcinvFname, readFile)
    case Err(e) => Err(e)
    case Ok(qcinv) =>
      match Collect.FitsTable(fitsDir, qcinv, openFits, isFloat)
      case Err(e) => Err(e)
      case Ok(fits) =>
        match Collect.ZthTable(zthDir, qcinv, readFile, num)
        case Err(e) => Err(e)
        case Ok(zths) => Combine(qcinv, fits, zths, zthDir, rows)
  }

  /** `munge(qcinv_fname, fits_dir, zth_dir)`. */
  method Munge(qcinvFname: string, fitsDir: string, zthDir: string,
               readFile: string -> Option<string>, openFits: string -> Option<FitsHeader.Header>,
               isFloat: string -> bool, rows: string -> Option<nat>, num: string -> Option<Quality.Float>)
    returns (r: Result<Munged, string>)
    ensures r == MungeOf(qcinvFname, fitsDir, zthDir, readFile, openFits, isFloat, rows, num)
  {
    var qcinv := Inventory.LoadInventory(qcinvFname, readFile);
    if qcinv.Err? {
      return Err(qcinv.error);
    }
    var fits := Collect.ReadFitsHeaderParams(fitsDir, qcinv.value, openFits, isFloat);
    if fits.Err? {
      return Err(fits.error);
    }
    var zths := Collect.ReadZths(zthDir, qcinv.value, readFile, num);
    if zths.Err? {
      return Err(zths.error);
    }
    r := Combine(qcinv.value, fits.value, zths.value, zthDir, rows);
  }

  // ---------------------------------------------------------------------------
  // Properties of the joins and the gate

  /** The parts of a successful `Combine`. */
  lemma CombineParts(qcinv: Table<Inventory.InventoryRow>, fits: Table<FitsHeader.FitsRow>,
                     zths: Table<Zth.ZthRow>, zthDir: string, rows: string -> Option<nat>)
    requires Combine(qcinv, fits, zths, zthDir, rows).Ok?
    ensures var expParams := Join(qcinv, fits);
            var joined := Join(expParams, zths);
            && HasTerm(zths, XRMS) && HasTerm(zths, YRMS)
            && RowsNumeric(joined)
            && var fids := Annotate(joined, zthDir, rows);
               var m := Combine(qcinv, fits, zths, zthDir, rows).value;
               && m.fids == fids
               && MarkSuccessful(Select(expParams, Ids(fids)), fids) == Ok(m.goodExpParams)
  {
  }

  /** No exposure with a coefficient row has more than one inventory row
      with a header row. */
  predicate SingleExpRows(qcinv: Table<Inventory.InventoryRow>, fits: Table<FitsHeader.FitsRow>,
                          zths: Table<Zth.ZthRow>)
  {
    forall k :: k in Ids(zths) ==> Count(Ids(qcinv), k) * Count(Ids(fits), k) <= 1
  }

  /** Every coefficient row of an exposure that has an inventory row and a
      header row holds numbers for both residuals. */
  predicate NumericResiduals(qcinv: Table<Inventory.InventoryRow>, fits: Table<FitsHeader.FitsRow>,
                             zths: Table<Zth.ZthRow>)
  {
    forall i :: 0 <= i < |zths| && zths[i].0 in Ids(qcinv) && zths[i].0 in Ids(fits) ==> NumericRow(zths[i].1)
  }

  /** The rows reaching the comparison are exactly the coefficient rows of
      exposures with an inventory row and a header row, so all of them hold
      numeric residuals exactly when those coefficient rows do. */
  lemma JoinedNumeric(qcinv: Table<Inventory.InventoryRow>, fits: Table<FitsHeader.FitsRow>,
                      zths: Table<Zth.ZthRow>)
    ensures var joined := Join(Join(qcinv, fits), zths);
            RowsNumeric(joined) <==> NumericResiduals(qcinv, fits, zths)
  {
    var expParams := Join(qcinv, fits);
    var joined := Join(expParams, zths);
    if RowsNumeric(joined) {
      forall j | 0 <= j < |zths| && zths[j].0 in Ids(qcinv) && zths[j].0 in Ids(fits) ensures NumericRow(zths[j].1) {
        var (k, z) := zths[j];
        assert (k, z) in zths;
        FindMember(qcinv, k);
        FindMember(fits, k);
        var e := (Find(qcinv, k).value, Find(fits, k).value);
        JoinMember(qcinv, fits, k, e.0, e.1);
        JoinMember(expParams, zths, k, e, z);
        var i :| 0 <= i < |joined| && joined[i] == (k, (e, z));
      }
    } else {
      var i :| 0 <= i < |joined| && !NumericRow(joined[i].1.1);
      var (k, e, z) := (joined[i].0, joined[i].1.0, joined[i].1.1);
      assert joined[i] in joined;
      JoinMember(expParams, zths, k, e, z);
      JoinMember(qcinv, fits, k, e.0, e.1);
      IdOf(qcinv, k, e.0);
      IdOf(fits, k, e.1);
      var j :| 0 <= j < |zths| && zths[j] == (k, z);
    }
  }

  /** When every joined id has a single `exp_params` row, `.loc` gives, for
      each `fids` row in turn, the exposure parameters that row was joined
      from. */
  lemma SelectionOfJoined(qcinv: Table<Inventory.InventoryRow>, fits: Table<FitsHeader.FitsRow>,
                          zths: Table<Zth.ZthRow>)
    requires SingleExpRows(qcinv, fits, zths)
    ensures var expParams := Join(qcinv, fits);
            var joined := Join(expParams, zths);
            var selected := Select(expParams, Ids(joined));
            && |selected| == |joined|
            && forall i :: 0 <= i < |joined| ==> selected[i] == (joined[i].0, joined[i].1.0)
  {
    var expParams := Join(qcinv, fits);
    var joined := Join(expParams, zths);
    var ids := Ids(joined);
    var vals := seq(|joined|, i requires 0 <= i < |joined| => joined[i].1.0);
    forall i | 0 <= i < |ids| ensures RowsOf(expParams, ids[i]) == [(ids[i], vals[i])] {
      var k := joined[i].0;
      assert joined[i] in joined;
      JoinMember(expParams, zths, k, joined[i].1.0, joined[i].1.1);
      JoinKeyAt(expParams, zths, k);
      JoinCount(qcinv, fits, k);
      RowsOfSingle(expParams, k, joined[i].1.0);
    }
    SelectSingletons(expParams, ids, vals);
  }

  /** `munge` gets past line 62 exactly when the frame has both columns, every
      exposure reaching the comparison has numeric residuals, and no exposure
      with a coefficient row has more than one exposure-parameter row. A
      repeated exposure-parameter row makes `.loc` return more rows for its
      id than `fids` has, so the two indexes differ while `fids` repeats the
      id, and pandas cannot align the flags. */
  lemma CombineOk(qcinv: Table<Inventory.InventoryRow>, fits: Table<FitsHeader.FitsRow>,
                  zths: Table<Zth.ZthRow>, zthDir: string, rows: string -> Option<nat>)
    ensures Combine(qcinv, fits, zths, zthDir, rows).Ok? <==>
            && HasTerm(zths, XRMS) && HasTerm(zths, YRMS)
            && NumericResiduals(qcinv, fits, zths)
            && SingleExpRows(qcinv, fits, zths)
  {
    var expParams := Join(qcinv, fits);
    var joined := Join(expParams, zths);
    JoinedNumeric(qcinv, fits, zths);
    if HasTerm(zths, XRMS) && HasTerm(zths, YRMS) && NumericResiduals(qcinv, fits, zths) {
      var fids := Annotate(joined, zthDir, rows);
      var selected := Select(expParams, Ids(fids));
      if SingleExpRows(qcinv, fits, zths) {
        SelectionOfJoined(qcinv, fits, zths);
        assert Ids(selected) == Ids(fids);
      } else {
        var k :| k in Ids(zths) && Count(Ids(qcinv), k) * Count(Ids(fits), k) > 1;
        var ce, cz := Count(Ids(expParams), k), Count(Ids(zths), k);
        JoinCount(qcinv, fits, k);
        JoinCount(expParams, zths, k);
        SelectCount(expParams, Ids(fids), k);
        var cf := Count(Ids(fids), k);
        assert cf == ce * cz;
        MoreRows(ce, cz);
        assert Count(Ids(selected), k) == cf * ce;
        UniqueCount(Ids(fids), k);
        assert Ids(selected) != Ids(fids);
      }
    }
  }

  /** A count of at least two, times a count of at least one, is at least two
      and grows when multiplied by the first count again. */
  lemma MoreRows(ce: nat, cz: nat)
    requires ce > 1 && cz > 0
    ensures ce * cz > 1 && ce * cz * ce > ce * cz
  {
    assert ce * cz >= ce;
    assert ce * cz * ce >= ce * cz * 2;
  }

  /** With an inventory and a header table of distinct ids, `munge` fails
      only for want of an `xrms` or `yrms` column, or for a residual that is
      text in a row reaching the comparison. */
  lemma CombineOkDistinct(qcinv: Table<Inventory.InventoryRow>, fits: Table<FitsHeader.FitsRow>,
                          zths: Table<Zth.ZthRow>, zthDir: string, rows: string -> Option<nat>)
    requires Unique(Ids(qcinv)) && Unique(Ids(fits))
    ensures Combine(qcinv, fits, zths, zthDir, rows).Ok? <==>
            HasTerm(zths, XRMS) && HasTerm(zths, YRMS) && NumericResiduals(qcinv, fits, zths)
  {
    forall k | k in Ids(zths) ensures Count(Ids(qcinv), k) * Count(Ids(fits), k) <= 1 {
      UniqueCount(Ids(qcinv), k);
      UniqueCount(Ids(fits), k);
      AtMostOne(Count(Ids(qcinv), k), Count(Ids(fits), k));
    }
    CombineOk(qcinv, fits, zths, zthDir, rows);
  }

  lemma AtMostOne(a: nat, b: nat)
    requires a <= 1 && b <= 1
    ensures a * b <= 1
  {
    if a == 1 {
      assert a * b == b;
    }
  }

  /** With an inventory of distinct ids, `fids` has exactly the inventory ids
      that have both a header row and a coefficient row, in inventory order,
      and `good_exp_params` has exactly the ids of `fids`, in the same order.
      The key set of `exp_params` is the intersection of the inventory and
      header key sets (`Tables.JoinKeys`). */
  lemma CombineIds(qcinv: Table<Inventory.InventoryRow>, fits: Table<FitsHeader.FitsRow>, zths: Table<Zth.ZthRow>,
                   zthDir: string, rows: string -> Option<nat>)
    requires Unique(Ids(qcinv)) && Unique(Ids(fits)) && Unique(Ids(zths))
    requires Combine(qcinv, fits, zths, zthDir, rows).Ok?
    ensures var m := Combine(qcinv, fits, zths, zthDir, rows).value;
            && Ids(m.fids) == KeepIn(KeepIn(Ids(qcinv), set k | k in Ids(fits)), set k | k in Ids(zths))
            && Ids(m.goodExpParams) == Ids(m.fids)
  {
    var expParams := Join(qcinv, fits);
    JoinIds(qcinv, fits);
    JoinIds(expParams, zths);
    CombineGoodRows(qcinv, fits, zths, zthDir, rows);
    var m := Combine(qcinv, fits, zths, zthDir, rows).value;
    assert Ids(m.goodExpParams) == Ids(m.fids);
  }

  /** Whenever `munge` succeeds, each row of `good_exp_params` is the
      exposure parameters of the `fids` row in the same position, with that
      row's `successful` flag. */
  lemma CombineGoodRows(qcinv: Table<Inventory.InventoryRow>, fits: Table<FitsHeader.FitsRow>,
                        zths: Table<Zth.ZthRow>, zthDir: string, rows: string -> Option<nat>)
    requires Combine(qcinv, fits, zths, zthDir, rows).Ok?
    ensures var m := Combine(qcinv, fits, zths, zthDir, rows).value;
            && |m.goodExpParams| == |m.fids|
            && forall i :: 0 <= i < |m.fids| ==>
                 m.goodExpParams[i] ==
                 (m.fids[i].0, GoodRow(m.fids[i].1.inventory, m.fids[i].1.fits, m.fids[i].1.successful))
  {
    CombineParts(qcinv, fits, zths, zthDir, rows);
    CombineOk(qcinv, fits, zths, zthDir, rows);
    SelectionOfJoined(qcinv, fits, zths);
    var expParams := Join(qcinv, fits);
    var joined := Join(expParams, zths);
    var fids := Annotate(joined, zthDir, rows);
    var selected := Select(expParams, Ids(fids));
    assert Ids(selected) == Ids(fids);
  }

  /** Every `fids` row joins an inventory row, a header row and a coefficient
      row indexed by its id, holds numeric residuals, and is successful
      exactly when its fiducial count and residuals pass the gate. */
  lemma CombineRow(qcinv: Table<Inventory.InventoryRow>, fits: Table<FitsHeader.FitsRow>,
                   zths: Table<Zth.ZthRow>, zthDir: string, rows: string -> Option<nat>, i: int)
    requires Combine(qcinv, fits, zths, zthDir, rows).Ok?
    requires 0 <= i < |Combine(qcinv, fits, zths, zthDir, rows).value.fids|
    ensures var f := Combine(qcinv, fits, zths, zthDir, rows).value.fids[i];
            && (f.0, f.1.inventory) in qcinv
            && (f.0, f.1.fits) in fits
            && (f.0, f.1.zth) in zths
            && f.1.numFiducials == Quality.NumFiducials(f.1.inventory.expid, zthDir, rows)
            && NumericRow(f.1.zth)
            && f.1.successful == Quality.Successful(f.1.numFiducials, TermValue(f.1.zth.entries, XRMS).x,
                                                    TermValue(f.1.zth.entries, YRMS).x)
  {
    CombineParts(qcinv, fits, zths, zthDir, rows);
    var expParams := Join(qcinv, fits);
    var joined := Join(expParams, zths);
    var fids := Annotate(joined, zthDir, rows);
    var k := fids[i].0;
    assert Ids(fids)[i] == k && Ids(joined)[i] == k;
    assert joined[i] in joined;
    JoinMember(expParams, zths, k, joined[i].1.0, joined[i].1.1);
    JoinMember(qcinv, fits, k, joined[i].1.0.0, joined[i].1.0.1);
  }

  // ---------------------------------------------------------------------------
  // Properties of `munge` as a whole

  /** `fids` has a row for exactly the inventory exposures whose header and
      coefficient file both read. */
  lemma MungeKeys(qcinvFname: string, fitsDir: string, zthDir: string,
                  readFile: string -> Option<string>, openFits: string -> Option<FitsHeader.Header>,
                  isFloat: string -> bool, rows: string -> Option<nat>, num: string -> Option<Quality.Float>)
    requires MungeOf(qcinvFname, fitsDir, zthDir, readFile, openFits, isFloat, rows, num).Ok?
    ensures Inventory.LoadInventory(qcinvFname, readFile).Ok?
    ensures var qcinv := Inventory.LoadInventory(qcinvFname, readFile).value;
            var m := MungeOf(qcinvFname, fitsDir, zthDir, readFile, openFits, isFloat, rows, num).value;
            forall k :: k in Ids(m.fids) <==>
              k in Ids(qcinv) && FitsHeader.FitsRowOf(k, fitsDir, openFits, isFloat).Some? &&
              Zth.ZthRowOf(k, zthDir, readFile, num).Some?
  {
    var qcinv := Inventory.LoadInventory(qcinvFname, readFile).value;
    var readFits := e => FitsHeader.FitsRowOf(e, fitsDir, openFits, isFloat);
    var readZth := e => Zth.ZthRowOf(e, zthDir, readFile, num);
    var fits := Collect.FitsTable(fitsDir, qcinv, openFits, isFloat).value;
    var zths := Collect.ZthTable(zthDir, qcinv, readFile, num).value;
    assert MungeOf(qcinvFname, fitsDir, zthDir, readFile, openFits, isFloat, rows, num) ==
           Combine(qcinv, fits, zths, zthDir, rows);
    CombineParts(qcinv, fits, zths, zthDir, rows);
    var expParams := Join(qcinv, fits);
    var fids := Combine(qcinv, fits, zths, zthDir, rows).value.fids;
    assert Ids(fids) == Ids(Join(expParams, zths));
    forall k ensures k in Ids(fids) <==> k in Ids(qcinv) && readFits(k).Some? && readZth(k).Some? {
      JoinKeyAt(qcinv, fits, k);
      JoinKeyAt(expParams, zths, k);
      SuccessesCount(Ids(qcinv), readFits, k);
      SuccessesCount(Ids(qcinv), readZth, k);
    }
  }

  /** An inventory that lists an exposure twice makes `munge` raise once
      both reads of that exposure succeed: the header and coefficient tables
      list it twice too, `exp_params` four times, and the flags of line 62
      cannot be aligned. */
  lemma MungeRepeatedExposure(qcinvFname: string, fitsDir: string, zthDir: string,
                              readFile: string -> Option<string>, openFits: string -> Option<FitsHeader.Header>,
                              isFloat: string -> bool, rows: string -> Option<nat>,
                              num: string -> Option<Quality.Float>, i: int, j: int)
    requires Inventory.LoadInventory(qcinvFname, readFile).Ok?
    requires var qcinv := Inventory.LoadInventory(qcinvFname, readFile).value;
             && 0 <= i < j < |qcinv| && qcinv[i].0 == qcinv[j].0
             && FitsHeader.FitsRowOf(qcinv[i].0, fitsDir, openFits, isFloat).Some?
             && Zth.ZthRowOf(qcinv[i].0, zthDir, readFile, num).Some?
    ensures MungeOf(qcinvFname, fitsDir, zthDir, readFile, openFits, isFloat, rows, num).Err?
  {
    var qcinv := Inventory.LoadInventory(qcinvFname, readFile).value;
    var k := qcinv[i].0;
    var readFits := e => FitsHeader.FitsRowOf(e, fitsDir, openFits, isFloat);
    var readZth := e => Zth.ZthRowOf(e, zthDir, readFile, num);
    assert k in Ids(qcinv) by {
      assert Ids(qcinv)[i] == k;
    }
    SuccessesMember(Ids(qcinv), readFits, k, readFits(k).value);
    SuccessesMember(Ids(qcinv), readZth, k, readZth(k).value);
    var fits := Collect.FitsTable(fitsDir, qcinv, openFits, isFloat).value;
    var zths := Collect.ZthTable(zthDir, qcinv, readFile, num).value;
    assert fits == Successes(Ids(qcinv), readFits);
    assert zths == Successes(Ids(qcinv), readZth);
    CountTwice(Ids(qcinv), i, j);
    SuccessesCount(Ids(qcinv), readFits, k);
    SuccessesCount(Ids(qcinv), readZth, k);
    MoreRows(Count(Ids(qcinv), k), Count(Ids(fits), k));
    CombineOk(qcinv, fits, zths, zthDir, rows);
    assert MungeOf(qcinvFname, fitsDir, zthDir, readFile, openFits, isFloat, rows, num) ==
           Combine(qcinv, fits, zths, zthDir, rows);
  }

  /** A coefficient row with a text residual, of an exposure with an
      inventory row and a header row, makes the comparison raise. */
  lemma CombineTextResidual(qcinv: Table<Inventory.InventoryRow>, fits: Table<FitsHeader.FitsRow>,
                            zths: Table<Zth.ZthRow>, zthDir: string, rows: string -> Option<nat>,
                            k: int, z: Zth.ZthRow)
    requires (k, z) in zths && k in Ids(qcinv) && k in Ids(fits) && !NumericRow(z)
    ensures Combine(qcinv, fits, zths, zthDir, rows).Err?
  {
    var j :| 0 <= j < |zths| && zths[j] == (k, z);
    CombineOk(qcinv, fits, zths, zthDir, rows);
  }

  /** An inventory exposure whose header reads and whose coefficient row
      holds a residual that is text makes `munge` raise at line 60. */
  lemma MungeTextResidual(qcinvFname: string, fitsDir: string, zthDir: string,
                          readFile: string -> Option<string>, openFits: string -> Option<FitsHeader.Header>,
                          isFloat: string -> bool, rows: string -> Option<nat>,
                          num: string -> Option<Quality.Float>, i: int)
    requires Inventory.LoadInventory(qcinvFname, readFile).Ok?
    requires var qcinv := Inventory.LoadInventory(qcinvFname, readFile).value;
             && 0 <= i < |qcinv|
             && FitsHeader.FitsRowOf(qcinv[i].0, fitsDir, openFits, isFloat).Some?
             && var z := Zth.ZthRowOf(qcinv[i].0, zthDir, readFile, num);
                z.Some? && !NumericRow(z.value)
    ensures MungeOf(qcinvFname, fitsDir, zthDir, readFile, openFits, isFloat, rows, num).Err?
  {
    var qcinv := Inventory.LoadInventory(qcinvFname, readFile).value;
    var k := qcinv[i].0;
    var readFits := e => FitsHeader.FitsRowOf(e, fitsDir, openFits, isFloat);
    var readZth := e => Zth.ZthRowOf(e, zthDir, readFile, num);
    assert k in Ids(qcinv) by {
      assert Ids(qcinv)[i] == k;
    }
    var fitsRows := Successes(Ids(qcinv), readFits);
    var zthRows := Successes(Ids(qcinv), readZth);
    SuccessesMember(Ids(qcinv), readFits, k, readFits(k).value);
    SuccessesMember(Ids(qcinv), readZth, k, readZth(k).value);
    IdOf(fitsRows, k, readFits(k).value);
    assert (k, readZth(k).value) in zthRows;
    if Collect.FitsTable(fitsDir, qcinv, openFits, isFloat).Ok? && Collect.ZthTable(zthDir, qcinv, readFile, num).Ok? {
      var fits := Collect.FitsTable(fitsDir, qcinv, openFits, isFloat).value;
      var zths := Collect.ZthTable(zthDir, qcinv, readFile, num).value;
      assert fits == fitsRows && zths == zthRows;
      CombineTextResidual(qcinv, fits, zths, zthDir, rows, k, readZth(k).value);
      assert MungeOf(qcinvFname, fitsDir, zthDir, readFile, openFits, isFloat, rows, num) ==
             Combine(qcinv, fits, zths, zthDir, rows);
    }
  }

  /** Each `fids` row holds its exposure's inventory row, header row and
      coefficient row, the fiducial count of its fvcMerge file, and the
      verdict of the gate on that count and its residuals; the
      `good_exp_params` row in the same position carries the same verdict. */
  lemma MungeRow(qcinvFname: string, fitsDir: string, zthDir: string,
                 readFile: string -> Option<string>, openFits: string -> Option<FitsHeader.Header>,
                 isFloat: string -> bool, rows: string -> Option<nat>, num: string -> Option<Quality.Float>, i: int)
    requires MungeOf(qcinvFname, fitsDir, zthDir, readFile, openFits, isFloat, rows, num).Ok?
    requires 0 <= i < |MungeOf(qcinvFname, fitsDir, zthDir, readFile, openFits, isFloat, rows, num).value.fids|
    ensures var qcinv := Inventory.LoadInventory(qcinvFname, readFile).value;
            var m := MungeOf(qcinvFname, fitsDir, zthDir, readFile, openFits, isFloat, rows, num).value;
            var f := m.fids[i];
            && Inventory.LoadInventory(qcinvFname, readFile).Ok?
            && (f.0, f.1.inventory) in qcinv
            && FitsHeader.FitsRowOf(f.0, fitsDir, openFits, isFloat) == Some(f.1.fits)
            && Zth.ZthRowOf(f.0, zthDir, readFile, num) == Some(f.1.zth)
            && f.1.numFiducials == Quality.NumFiducials(f.0, zthDir, rows)
            && NumericRow(f.1.zth)
            && i < |m.goodExpParams|
            && m.goodExpParams[i].0 == f.0
            && m.goodExpParams[i].1.successful ==
               Quality.Successful(Quality.NumFiducials(f.0, zthDir, rows),
                                  TermValue(f.1.zth.entries, XRMS).x, TermValue(f.1.zth.entries, YRMS).x)
  {
    var qcinv := Inventory.LoadInventory(qcinvFname, readFile).value;
    var fits := Collect.FitsTable(fitsDir, qcinv, openFits, isFloat).value;
    var zths := Collect.ZthTable(zthDir, qcinv, readFile, num).value;
    assert MungeOf(qcinvFname, fitsDir, zthDir, readFile, openFits, isFloat, rows, num) ==
           Combine(qcinv, fits, zths, zthDir, rows);
    CombineRow(qcinv, fits, zths, zthDir, rows, i);
    CombineGoodRows(qcinv, fits, zths, zthDir, rows);
    var f := Combine(qcinv, fits, zths, zthDir, rows).value.fids[i];
    assert f.1.inventory.expid == f.0 by {
      var a :| 0 <= a < |qcinv| && qcinv[a] == (f.0, f.1.inventory);
    }
    assert FitsHeader.FitsRowOf(f.0, fitsDir, openFits, isFloat) == Some(f.1.fits) by {
      Collect.CollectedRows(Ids(qcinv), e => FitsHeader.FitsRowOf(e, fitsDir, openFits, isFloat), "FITS header");
    }
    assert Zth.ZthRowOf(f.0, zthDir, readFile, num) == Some(f.1.zth) by {
      Collect.CollectedRows(Ids(qcinv), e => Zth.ZthRowOf(e, zthDir, readFile, num), "coefficient file");
    }
  }
}
