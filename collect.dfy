/** `read_fits_header_params` and `read_zths`: read one record per inventory
    exposure, skip every exposure whose read raises, and index what is left by
    exposure id. */
module Collect {
  import opened Wrappers
  import opened Tables
  import Inventory
  import FitsHeader
  import Zth
  import Quality

  /** The frame built from the collected rows; with no row at all it has no
      `expid` column, and indexing by it raises. */
  function Collected<R>(rows: Table<R>, what: string): (r: Result<Table<R>, string>)
    ensures r.Ok? <==> rows != []
    ensures r.Ok? ==> r.value == rows
  {
    if rows == [] then Err("no " + what + " could be read") else Ok(rows)
  }

  function FitsTable(dir: string, qcinv: Table<Inventory.InventoryRow>,
                     openFits: string -> Option<FitsHeader.Header>, isFloat: string -> bool)
    : Result<Table<FitsHeader.FitsRow>, string>
  {
    Collected(Successes(Ids(qcinv), e => FitsHeader.FitsRowOf(e, dir, openFits, isFloat)), "FITS header")
  }

  function ZthTable(dir: string, qcinv: Table<Inventory.InventoryRow>, readFile: string -> Option<string>,
                    num: string -> Option<Quality.Float>)
    : Result<Table<Zth.ZthRow>, string>
  {
    Collected(Successes(Ids(qcinv), e => Zth.ZthRowOf(e, dir, readFile, num)), "coefficient file")
  }

  /** `read_fits_header_params(fits_dir, qcinv)`. */
  method ReadFitsHeaderParams(dir: string, qcinv: Table<Inventory.InventoryRow>,
                              openFits: string -> Option<FitsHeader.Header>, isFloat: string -> bool)
    returns (r: Result<Table<FitsHeader.FitsRow>, string>)
    ensures r == FitsTable(dir, qcinv, openFits, isFloat)
  {
    ghost var read := e => FitsHeader.FitsRowOf(e, dir, openFits, isFloat);
    var rows: Table<FitsHeader.FitsRow> := [];
    for i := 0 to |qcinv|
      invariant rows == Successes(Ids(qcinv)[..i], read)
    {
      var expid := qcinv[i].0;
      var row := FitsHeader.ReadOneFitsHeaderParams(expid, dir, openFits, isFloat);
      SuccessesStep(Ids(qcinv), i, read, row);
      if row.Some? {
        rows := rows + [(expid, row.value)];
      }
    }
    assert Ids(qcinv)[..|qcinv|] == Ids(qcinv);
    r := Collected(rows, "FITS header");
  }

  /** `read_zths(zth_dir, qcinv)`. */
  method ReadZths(dir: string, qcinv: Table<Inventory.InventoryRow>, readFile: string -> Option<string>,
                  num: string -> Option<Quality.Float>)
    returns (r: Result<Table<Zth.ZthRow>, string>)
    ensures r == ZthTable(dir, qcinv, readFile, num)
  {
    ghost var read := e => Zth.ZthRowOf(e, dir, readFile, num);
    var rows: Table<Zth.ZthRow> := [];
    for i := 0 to |qcinv|
      invariant rows == Successes(Ids(qcinv)[..i], read)
    {
      var expid := qcinv[i].0;
      var row := Zth.ReadZth(expid, dir, readFile, num);
      SuccessesStep(Ids(qcinv), i, read, row);
      if row.Some? {
        rows := rows + [(expid, row.value)];
      }
    }
    assert Ids(qcinv)[..|qcinv|] == Ids(qcinv);
    r := Collected(rows, "coefficient file");
  }

  /** A collected table holds a row for exactly the inventory ids whose read
      succeeds, each the row read for that id, in inventory order and without
      introducing a repeated id. Both `FitsTable` and `ZthTable` are of this
      form. */
  lemma CollectedRows<R>(ids: seq<int>, read: int -> Option<R>, what: string)
    requires Collected(Successes(ids, read), what).Ok?
    ensures var t := Collected(Successes(ids, read), what).value;
            && (forall k, row :: (k, row) in t <==> k in ids && read(k) == Some(row))
            && Ids(t) == KeepIn(ids, set e | e in ids && read(e).Some?)
            && (Unique(ids) ==> Unique(Ids(t)))
  {
    forall k, row {
      SuccessesMember(ids, read, k, row);
    }
    SuccessesIds(ids, read);
    if Unique(ids) {
      SuccessesUnique(ids, read);
    }
  }

  /** The collection fails exactly when no read succeeds. */
  lemma CollectedFails<R>(ids: seq<int>, read: int -> Option<R>, what: string)
    ensures Collected(Successes(ids, read), what).Err? <==> forall k :: k in ids ==> read(k).None?
  {
    SuccessesIds(ids, read);
    var keep := set e | e in ids && read(e).Some?;
    assert |Ids(Successes(ids, read))| == |Successes(ids, read)|;
    if Successes(ids, read) != [] {
      assert Ids(Successes(ids, read))[0] in KeepIn(ids, keep);
    } else {
      assert forall k :: k in ids && read(k).Some? ==> k in KeepIn(ids, keep);
    }
  }
}
