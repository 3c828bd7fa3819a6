/** `read_one_fits_header_params`: the pointing and weather cards and the
    parsed `FOCUS` card of one exposure's FVC image header. */
module FitsHeader {
  import opened Wrappers
  import opened Strings
  import Paths

  /** Output name and header card of each header parameter, in the order of
      the program's `HEADER_PARAMS` dictionary. */
  const HEADER_PARAMS: seq<(string, string)> := [
    ("airmass", "AIRMASS"),
    ("az", "MOUNTAZ"),
    ("el", "MOUNTEL"),
    ("zd", "ZD"),
    ("q", "PARALLAC"),
    ("humidity", "HUMIDITY"),
    ("pressure", "PRESSURE")
  ]

  const FOCUS_ELEMENTS: seq<string> := ["xtrans", "ytrans", "ztrans", "xtilt", "ytilt", "ztilt"]

  const FOCUS_CARD: string := "FOCUS"

  /** A header: card name to value text. */
  type Header = map<string, string>

  /** The series one header gives: the exposure id (its name) and the
      parameters after `expid`, in insertion order. */
  datatype FitsRow = FitsRow(expid: int, params: seq<(string, string)>)

  function Min(a: nat, b: nat): nat
  {
    if a <= b then a else b
  }

  /** Python's `zip`, which stops at the end of the shorter sequence. */
  function Zip<A, B>(a: seq<A>, b: seq<B>): (z: seq<(A, B)>)
    ensures |z| == Min(|a|, |b|)
    ensures forall i :: 0 <= i < |z| ==> z[i] == (a[i], b[i])
    decreases |a|
  {
    if a == [] || b == [] then [] else [(a[0], b[0])] + Zip(a[1..], b[1..])
  }

  /** `header[card]` for each parameter; `None` stands for the `KeyError`
      of a missing card. */
  function Lookups(params: seq<(string, string)>, h: Header): (r: Option<seq<(string, string)>>)
    ensures r.Some? <==> forall i :: 0 <= i < |params| ==> params[i].1 in h
    ensures r.Some? ==> |r.value| == |params|
    ensures r.Some? ==> forall i :: 0 <= i < |params| ==> r.value[i] == (params[i].0, h[params[i].1])
    decreases |params|
  {
    if params == [] then Some([])
    else if params[0].1 !in h then None
    else match Lookups(params[1..], h)
      case None => None
      case Some(rest) => Some([(params[0].0, h[params[0].1])] + rest)
  }

  /** The column name of each focus element. */
  function FocusName(elem: string): string
  {
    "focus_" + elem
  }

  function FocusNames(elems: seq<string>): (names: seq<string>)
    ensures |names| == |elems|
    ensures forall i :: 0 <= i < |elems| ==> names[i] == FocusName(elems[i])
    decreases |elems|
  {
    if elems == [] then [] else [FocusName(elems[0])] + FocusNames(elems[1..])
  }

  /** What `read_one_fits_header_params` returns, or `None` for the exception
      it raises: the file cannot be opened, a card is missing, or some comma
      part of `FOCUS` is not a float (every part is converted before the zip,
      so parts past the sixth are checked too). */
  function FitsRowOf(expid: int, dir: string, openFits: string -> Option<Header>, isFloat: string -> bool)
    : Option<FitsRow>
  {
    match openFits(Paths.FitsPath(dir, expid))
    case None => None
    case Some(h) =>
      match Lookups(HEADER_PARAMS, h)
      case None => None
      case Some(values) =>
        if FOCUS_CARD !in h then None
        else
          var parts := SplitOn(h[FOCUS_CARD], ',');
          if exists i :: 0 <= i < |parts| && !isFloat(parts[i]) then None
          else Some(FitsRow(expid, values + Zip(FocusNames(FOCUS_ELEMENTS), parts)))
  }

  /** The loop `for key in HEADER_PARAMS: values[key] = header[...]`. */
  method ReadCards(params: seq<(string, string)>, h: Header) returns (values: Option<seq<(string, string)>>)
    ensures values == Lookups(params, h)
  {
    var acc: seq<(string, string)> := [];
    for i := 0 to |params|
      invariant |acc| == i
      invariant forall j :: 0 <= j < i ==> params[j].1 in h && acc[j] == (params[j].0, h[params[j].1])
    {
      var card := params[i].1;
      if card !in h {
        return None;
      }
      acc := acc + [(params[i].0, h[card])];
    }
    assert Lookups(params, h).value == acc;
    return Some(acc);
  }

  /** `tuple(float(v) for v in parts)`: every part is converted, and the first
      that is not a float raises. */
  method ParseFloats(parts: seq<string>, isFloat: string -> bool) returns (ok: bool)
    ensures ok <==> forall i :: 0 <= i < |parts| ==> isFloat(parts[i])
  {
    for i := 0 to |parts|
      invariant forall j :: 0 <= j < i ==> isFloat(parts[j])
    {
      if !isFloat(parts[i]) {
        return false;
      }
    }
    return true;
  }

  /** The loop over `zip(FOCUS_ELEMENTS, focus_values)` appending one
      `focus_` entry per pair. */
  method AddFocus(values: seq<(string, string)>, elems: seq<string>, focusValues: seq<string>)
    returns (r: seq<(string, string)>)
    ensures r == values + Zip(FocusNames(elems), focusValues)
  {
    r := values;
    var n := Min(|elems|, |focusValues|);
    for i := 0 to n
      invariant |r| == |values| + i
      invariant r[..|values|] == values
      invariant forall j :: 0 <= j < i ==> r[|values| + j] == (FocusName(elems[j]), focusValues[j])
    {
      r := r + [(FocusName(elems[i]), focusValues[i])];
    }
    assert r[|values|..] == Zip(FocusNames(elems), focusValues);
    assert r == r[..|values|] + r[|values|..];
  }

  /** `read_one_fits_header_params(expid, fits_dir)`, with `None` for the
      exception it raises. */
  method ReadOneFitsHeaderParams(expid: int, dir: string, openFits: string -> Option<Header>,
                                 isFloat: string -> bool)
    returns (r: Option<FitsRow>)
    ensures r == FitsRowOf(expid, dir, openFits, isFloat)
  {
    var hdus := openFits(Paths.FitsPath(dir, expid));
    if hdus.None? {
      return None;
    }
    var h := hdus.value;
    var values := ReadCards(HEADER_PARAMS, h);
    if values.None? || FOCUS_CARD !in h {
      return None;
    }
    var parts := SplitOn(h[FOCUS_CARD], ',');
    var allFloat := ParseFloats(parts, isFloat);
    if !allFloat {
      return None;
    }
    var params := AddFocus(values.value, FOCUS_ELEMENTS, parts);
    r := Some(FitsRow(expid, params));
  }

  /** The row exists exactly when the file opens, every card is present and
      every part of `FOCUS` is a float; it then holds the seven header values
      under their names and one `focus_` entry per element and part, as many
      as the shorter of the two. */
  lemma FitsRowShape(expid: int, dir: string, openFits: string -> Option<Header>, isFloat: string -> bool)
    ensures FitsRowOf(expid, dir, openFits, isFloat).Some? <==>
              && openFits(Paths.FitsPath(dir, expid)).Some?
              && var h := openFits(Paths.FitsPath(dir, expid)).value;
              && (forall i :: 0 <= i < |HEADER_PARAMS| ==> HEADER_PARAMS[i].1 in h)
              && FOCUS_CARD in h
              && (forall p :: p in SplitOn(h[FOCUS_CARD], ',') ==> isFloat(p))
    ensures FitsRowOf(expid, dir, openFits, isFloat).Some? ==>
              var h := openFits(Paths.FitsPath(dir, expid)).value;
              var parts := SplitOn(h[FOCUS_CARD], ',');
              var row := FitsRowOf(expid, dir, openFits, isFloat).value;
              && row.expid == expid
              && |row.params| == |HEADER_PARAMS| + Min(|FOCUS_ELEMENTS|, |parts|)
              && (forall i :: 0 <= i < |HEADER_PARAMS| ==>
                    row.params[i] == (HEADER_PARAMS[i].0, h[HEADER_PARAMS[i].1]))
              && (forall i :: 0 <= i < Min(|FOCUS_ELEMENTS|, |parts|) ==>
                    row.params[|HEADER_PARAMS| + i] == ("focus_" + FOCUS_ELEMENTS[i], parts[i]))
  {
  }

  /** The names of all parameters a row can hold. */
  function ParamNames(): seq<string>
  {
    Names(HEADER_PARAMS) + FocusNames(FOCUS_ELEMENTS)
  }

  /** The parameter names, in order. */
  function Names(params: seq<(string, string)>): (names: seq<string>)
    ensures |names| == |params|
    ensures forall i :: 0 <= i < |params| ==> names[i] == params[i].0
  {
    seq(|params|, i requires 0 <= i < |params| => params[i].0)
  }

  const PARAM_NAMES: seq<string> := [
    "airmass", "az", "el", "zd", "q", "humidity", "pressure",
    "focus_xtrans", "focus_ytrans", "focus_ztrans", "focus_xtilt", "focus_ytilt", "focus_ztilt"
  ]

  lemma HeaderNamesListed()
    ensures Names(HEADER_PARAMS) == PARAM_NAMES[..7]
  {
    var h := Names(HEADER_PARAMS);
    assert h[0] == "airmass" && h[1] == "az" && h[2] == "el" && h[3] == "zd";
    assert h[4] == "q" && h[5] == "humidity" && h[6] == "pressure";
  }

  lemma FocusNamesListed()
    ensures FocusNames(FOCUS_ELEMENTS) == PARAM_NAMES[7..]
  {
    var f := FocusNames(FOCUS_ELEMENTS);
    assert f[0] == FocusName("xtrans") == "focus_xtrans" && f[1] == FocusName("ytrans") == "focus_ytrans";
    assert f[2] == FocusName("ztrans") == "focus_ztrans" && f[3] == FocusName("xtilt") == "focus_xtilt";
    assert f[4] == FocusName("ytilt") == "focus_ytilt" && f[5] == FocusName("ztilt") == "focus_ztilt";
  }

  lemma ParamNamesListed()
    ensures ParamNames() == PARAM_NAMES
  {
    HeaderNamesListed();
    FocusNamesListed();
    assert PARAM_NAMES == PARAM_NAMES[..7] + PARAM_NAMES[7..];
  }

  lemma ListedNamesDistinct()
    ensures forall i, j :: 0 <= i < j < |PARAM_NAMES| ==> PARAM_NAMES[i] != PARAM_NAMES[j]
  {
  }

  /** No two parameters share a name, so the ordered dictionary keeps one
      entry per assignment. */
  lemma ParamNamesDistinct()
    ensures forall i, j :: 0 <= i < j < |ParamNames()| ==> ParamNames()[i] != ParamNames()[j]
  {
    ParamNamesListed();
    ListedNamesDistinct();
  }
}
