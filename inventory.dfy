/** `load_qcinv`: the exposure inventory, one whitespace-separated line per
    exposure, read into a table indexed by exposure id and cut down to the
    rows whose `ut` field is five characters long. */
module Inventory {
  import opened Wrappers
  import opened Strings
  import opened Substitution
  import opened Decimal
  import opened Tables

  const INVENTORY_COLUMN_NAMES: seq<string> :=
    ["night", "expid", "ra", "dec", "ut", "ha", "adc1", "adc2", "seq", "program"]

  /** Positions of the two fields the program looks at. */
  const EXPID_FIELD: nat := 1
  const UT_FIELD: nat := 4

  /** The program name that is written with a space in the inventory, and the
      single token it is rewritten to before the text is split. */
  const SPACED_PROGRAM: string := "everywhere script"
  const JOINED_PROGRAM: string := "everywhere_script"

  /** One inventory row: its id and its fields in column order. Columns past
      the last field are missing (NaN in the frame). */
  datatype InventoryRow = InventoryRow(expid: int, fields: seq<string>)

  /** The text after `replace('everywhere script', 'everywhere_script')`. */
  function InventoryText(raw: string): string
  {
    Replace(raw, SPACED_PROGRAM, JOINED_PROGRAM)
  }

  /** After the rewrite the spaced program name occurs nowhere. */
  lemma InventoryTextJoined(raw: string)
    ensures !Occurs(InventoryText(raw), SPACED_PROGRAM)
  {
    EliminatesByFronts(SPACED_PROGRAM, JOINED_PROGRAM);
    ReplaceEliminates(raw, SPACED_PROGRAM, JOINED_PROGRAM);
  }

  /** The filter `qcinv['ut'].str.len() == 5`: a row that stops before the
      `ut` column has no length and is dropped. */
  predicate Kept(fields: seq<string>)
  {
    |fields| > UT_FIELD && |fields[UT_FIELD]| == 5
  }

  /** A line gives a row and its `expid` field reads as an integer, or it is
      blank; every other line makes `read_csv` infer a float or text `expid`
      column. */
  predicate IntegralId(fields: seq<string>)
  {
    fields == [] || (|fields| > EXPID_FIELD && ParseInt(fields[EXPID_FIELD]).Some?)
  }

  /** `read_csv(sep='\s+', names=INVENTORY_COLUMN_NAMES)` followed by the
      `ut` filter: blank lines give no row, and a line with more fields than
      columns is an error. The `expid` column is typed from every line, kept
      or not; when it is not integral, every `f'{expid:08d}'` of
      `read_one_fits_header_params` raises and `munge` fails, and that
      failure is reported here. */
  function InventoryRows(lines: seq<string>): (r: Result<Table<InventoryRow>, string>)
    ensures r.Ok? ==> forall i :: 0 <= i < |r.value| ==>
              && Kept(r.value[i].1.fields)
              && |r.value[i].1.fields| <= |INVENTORY_COLUMN_NAMES|
              && r.value[i].0 == r.value[i].1.expid
              && ParseInt(r.value[i].1.fields[EXPID_FIELD]) == Some(r.value[i].0)
    decreases |lines|
  {
    if lines == [] then Ok([])
    else
      var prev := InventoryRows(lines[..|lines| - 1]);
      var fields := Tokens(lines[|lines| - 1]);
      if prev.Err? then prev
      else if |fields| > |INVENTORY_COLUMN_NAMES| then Err("too many fields in an inventory line")
      else if !IntegralId(fields) then Err("inventory expid column is not integral")
      else if !Kept(fields) then prev
      else
        var k := ParseInt(fields[EXPID_FIELD]).value;
        Ok(prev.value + [(k, InventoryRow(k, fields))])
  }

  /** `load_qcinv(fname)`. */
  function LoadInventory(fname: string, readFile: string -> Option<string>): (r: Result<Table<InventoryRow>, string>)
    ensures readFile(fname).None? ==> r.Err?
    ensures r.Ok? ==> forall i :: 0 <= i < |r.value| ==> r.value[i].0 == r.value[i].1.expid && Kept(r.value[i].1.fields)
  {
    match readFile(fname)
    case None => Err("cannot read the inventory")
    case Some(raw) => InventoryRows(SplitOn(InventoryText(raw), '\n'))
  }

  /** Reading succeeds exactly when no line has too many fields and every
      line that is not blank has an integer id, whether or not it passes the
      `ut` filter. */
  lemma {:induction false} InventoryRowsOk(lines: seq<string>)
    ensures InventoryRows(lines).Ok? <==>
            forall i :: 0 <= i < |lines| ==>
              && |Tokens(lines[i])| <= |INVENTORY_COLUMN_NAMES|
              && (Tokens(lines[i]) != [] ==>
                    |Tokens(lines[i])| > EXPID_FIELD && ParseInt(Tokens(lines[i])[EXPID_FIELD]).Some?)
    decreases |lines|
  {
    if lines != [] {
      var init, fields := lines[..|lines| - 1], Tokens(lines[|lines| - 1]);
      InventoryRowsOk(init);
      assert forall i :: 0 <= i < |init| ==> init[i] == lines[i];
      assert Tokens(lines[|lines| - 1]) == fields;
    }
  }

  /** A row is in the table exactly when some line passes the `ut` filter, has
      those fields, and its `expid` field reads as the row's id. */
  lemma {:induction false} InventoryRowsMember(lines: seq<string>, k: int, row: InventoryRow)
    requires InventoryRows(lines).Ok?
    ensures (k, row) in InventoryRows(lines).value <==>
            exists i :: 0 <= i < |lines| && Kept(Tokens(lines[i])) &&
                        row == InventoryRow(k, Tokens(lines[i])) &&
                        ParseInt(Tokens(lines[i])[EXPID_FIELD]) == Some(k)
    decreases |lines|
  {
    if lines != [] {
      var init, fields := lines[..|lines| - 1], Tokens(lines[|lines| - 1]);
      InventoryRowsMember(init, k, row);
      assert forall i :: 0 <= i < |init| ==> init[i] == lines[i];
      var prev := InventoryRows(init).value;
      if Kept(fields) {
        var id := ParseInt(fields[EXPID_FIELD]).value;
        assert InventoryRows(lines).value == prev + [(id, InventoryRow(id, fields))];
      } else {
        assert InventoryRows(lines).value == prev;
      }
    }
  }

  /** Rows keep the order of their lines: the table of two runs of lines is
      the two tables one after the other. */
  lemma {:induction false} InventoryRowsAppend(a: seq<string>, b: seq<string>)
    requires InventoryRows(a + b).Ok?
    ensures InventoryRows(a).Ok? && InventoryRows(b).Ok?
    ensures InventoryRows(a + b).value == InventoryRows(a).value + InventoryRows(b).value
    decreases |b|
  {
    if b == [] {
      assert a + b == a;
    } else {
      var b' := b[..|b| - 1];
      assert (a + b)[..|a + b| - 1] == a + b';
      assert (a + b)[|a + b| - 1] == b[|b| - 1];
      InventoryRowsAppend(a, b');
    }
  }
}
