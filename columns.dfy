/** Column labels of the merged frame: their normalisation to 1- and 3-tuples
    in `munge`, and their flattening to comma-joined names by `colstr` when
    the frame is written as text. */
module Columns {
  import Wrappers
  import Tables
  import opened Strings
  import opened Decimal

  /** One element of a column tuple, classified the way `colstr` tests it:
      Python's `None`, a string, a finite number equal to an integer, NaN,
      or any other number (shown by its `str`). */
  datatype Part = NoneValue | Str(s: string) | Int(i: int) | NaN | Other(text: string)

  /** A column label as the frames hold it: a plain name, or a tuple. */
  datatype Label = Name(name: string) | Tuple(items: seq<Part>)

  /** A label after normalisation: a 1-tuple or a 3-tuple. */
  datatype Column = One(inner: Label) | Three(first: Part, second: Part, third: Part)

  /** `x if len(x) == 3 and not isinstance(x, str) else (x, )`. */
  function Normalise(l: Label): (c: Column)
    ensures c.Three? <==> l.Tuple? && |l.items| == 3
    ensures c.Three? ==> [c.first, c.second, c.third] == l.items
    ensures c.One? ==> c.inner == l
  {
    match l
    case Tuple(items) => if |items| == 3 then Three(items[0], items[1], items[2]) else One(l)
    case Name(_) => One(l)
  }

  function NormaliseAll(labels: seq<Label>): (cols: seq<Column>)
    ensures |cols| == |labels|
    ensures forall i :: 0 <= i < |labels| ==> cols[i] == Normalise(labels[i])
    decreases |labels|
  {
    if labels == [] then [] else [Normalise(labels[0])] + NormaliseAll(labels[1..])
  }

  // ---------------------------------------------------------------------------
  // colstr

  /** What one element after the first adds to the name. */
  function Segment(c: Part): string
  {
    match c
    case NoneValue => ""
    case Str(s) => "," + s
    case Int(i) => "," + IntText(i)
    case NaN => ""
    case Other(t) => "," + t
  }

  /** Whether an element shows in the name. */
  predicate Shown(c: Part)
  {
    !c.NoneValue? && !c.NaN?
  }

  function Segments(rest: seq<Part>): string
    decreases |rest|
  {
    if rest == [] then "" else Segments(rest[..|rest| - 1]) + Segment(rest[|rest| - 1])
  }

  /** The name `colstr` gives the tuple `(head,) + rest`. */
  function ColName(head: string, rest: seq<Part>): string
  {
    head + Segments(rest)
  }

  /** `colstr(col)` with `col[0]` a string: the loop over `col[1:]`. */
  method ColStr(head: string, rest: seq<Part>) returns (colname: string)
    ensures colname == ColName(head, rest)
  {
    colname := head;
    for i := 0 to |rest|
      invariant colname == ColName(head, rest[..i])
    {
      ColNameStep(head, rest, i);
      match rest[i] {
        case NoneValue =>
        case Str(s) => colname := colname + ("," + s);
        case Int(n) => colname := colname + ("," + IntText(n));
        case NaN =>
        case Other(t) => colname := colname + ("," + t);
      }
    }
    assert rest[..|rest|] == rest;
  }

  /** Each further element extends the name by its segment. */
  lemma ColNameStep(head: string, rest: seq<Part>, i: nat)
    requires i < |rest|
    ensures ColName(head, rest[..i + 1]) == ColName(head, rest[..i]) + Segment(rest[i])
  {
    var done, next := Segments(rest[..i]), Segment(rest[i]);
    assert Segments(rest[..i + 1]) == done + next by {
      assert rest[..i + 1][..i] == rest[..i];
      assert rest[..i + 1][i] == rest[i];
    }
    assert (head + done) + next == head + (done + next);
  }

  lemma {:induction false} SegmentsAppend(a: seq<Part>, b: seq<Part>)
    ensures Segments(a + b) == Segments(a) + Segments(b)
    decreases |b|
  {
    if b == [] {
      assert a + b == a;
    } else {
      var b', last := b[..|b| - 1], b[|b| - 1];
      assert (a + b)[..|a + b| - 1] == a + b';
      assert (a + b)[|a + b| - 1] == last;
      SegmentsAppend(a, b');
      ColNameStep(Segments(a), b, |b| - 1);
      assert b[..|b|] == b;
    }
  }

  /** The name begins with the first element. */
  lemma ColNameHead(head: string, rest: seq<Part>)
    ensures |ColName(head, rest)| >= |head| && ColName(head, rest)[..|head|] == head
  {
  }

  /** `None` and NaN elements add nothing, wherever they stand. */
  lemma MissingAddsNothing(head: string, a: seq<Part>, c: Part, b: seq<Part>)
    requires !Shown(c)
    ensures ColName(head, a + [c] + b) == ColName(head, a + b)
  {
    SegmentsAppend(a + [c], b);
    SegmentsAppend(a, [c]);
    SegmentsAppend(a, b);
    assert [c][..0] == [];
    assert Segments([c]) == "" + Segment(c) == "";
    calc {
      Segments(a + [c] + b);
      Segments(a + [c]) + Segments(b);
      (Segments(a) + Segments([c])) + Segments(b);
      { assert Segments(a) + "" == Segments(a); }
      Segments(a) + Segments(b);
      Segments(a + b);
    }
  }

  /** An element whose own text has no comma. */
  predicate CommaFree(c: Part)
  {
    match c
    case Str(s) => ',' !in s
    case Other(t) => ',' !in t
    case _ => true
  }

  /** The number of elements that show. */
  function ShownCount(rest: seq<Part>): nat
    decreases |rest|
  {
    if rest == [] then 0 else ShownCount(rest[..|rest| - 1]) + (if Shown(rest[|rest| - 1]) then 1 else 0)
  }

  lemma SegmentCommas(c: Part)
    requires CommaFree(c)
    ensures Tables.Count(Segment(c), ',') == if Shown(c) then 1 else 0
  {
    match c
    case NoneValue =>
    case NaN =>
    case Str(s) =>
      Tables.CountAppend(",", s, ',');
    case Other(t) =>
      Tables.CountAppend(",", t, ',');
    case Int(n) =>
      IntTextChars(n);
      Tables.CountAppend(",", IntText(n), ',');
  }

  /** With comma-free elements, the name has one comma more than the first
      element for every element that shows. */
  lemma {:induction false} ColNameCommas(head: string, rest: seq<Part>)
    requires forall i :: 0 <= i < |rest| ==> CommaFree(rest[i])
    ensures Tables.Count(ColName(head, rest), ',') == Tables.Count(head, ',') + ShownCount(rest)
    decreases |rest|
  {
    Tables.CountAppend(head, Segments(rest), ',');
    if rest != [] {
      var init := rest[..|rest| - 1];
      ColNameCommas(head, init);
      Tables.CountAppend(head, Segments(init), ',');
      Tables.CountAppend(Segments(init), Segment(rest[|rest| - 1]), ',');
      SegmentCommas(rest[|rest| - 1]);
    }
  }

  /** The segments of a pair of elements after the first. */
  lemma SegmentsPair(b: Part, t: Part)
    ensures Segments([b, t]) == Segment(b) + Segment(t)
  {
    assert [b, t][..1] == [b] && [b][..0] == [];
    assert Segments([b]) == "" + Segment(b);
    assert "" + Segment(b) == Segment(b);
  }

  /** The name of a coefficient column `(poly, order, term)`. */
  lemma CoefName(poly: string, order: int, term: string)
    ensures ColName(poly, [Int(order), Str(term)]) == poly + "," + IntText(order) + "," + term
  {
    SegmentsPair(Int(order), Str(term));
    calc {
      ColName(poly, [Int(order), Str(term)]);
      poly + (("," + IntText(order)) + ("," + term));
      { assert ("," + IntText(order)) + ("," + term) == "," + IntText(order) + "," + term; }
      poly + ("," + IntText(order) + "," + term);
      poly + "," + IntText(order) + "," + term;
    }
  }

  /** Coefficient columns with comma-free names keep distinct names. */
  lemma CoefNameInjective(p: string, o: int, t: string, p': string, o': int, t': string)
    requires ',' !in p && ',' !in t && ',' !in p' && ',' !in t'
    requires ColName(p, [Int(o), Str(t)]) == ColName(p', [Int(o'), Str(t')])
    ensures p == p' && o == o' && t == t'
  {
    CoefName(p, o, t);
    CoefName(p', o', t');
    JoinedCoef(p, o, t);
    JoinedCoef(p', o', t');
    IntTextInjective(o, o');
  }

  /** A coefficient name splits back into its three comma-free parts. */
  lemma JoinedCoef(p: string, o: int, t: string)
    requires ',' !in p && ',' !in t
    ensures SplitOn(p + "," + IntText(o) + "," + t, ',') == [p, IntText(o), t]
  {
    IntTextChars(o);
    var parts := [p, IntText(o), t];
    assert Join([','], parts) == p + "," + IntText(o) + "," + t by {
      assert parts[1..][1..] == [t];
      assert Join([','], parts[1..]) == IntText(o) + "," + t;
      assert Join([','], parts) == p + "," + (IntText(o) + "," + t);
    }
    SplitOnJoin(parts, ',');
  }

  // ---------------------------------------------------------------------------
  // Flattening the normalised columns

  /** `MultiIndex.from_tuples` pads every tuple to the longest one with NaN;
      with a 3-tuple among the columns a 1-tuple `(x,)` becomes `(x, nan, nan)`. */
  predicate HasTriple(cols: seq<Column>)
  {
    exists i :: 0 <= i < |cols| && cols[i].Three?
  }

  /** The flat name of one normalised column, or `None` when its first
      element is not a string (`colstr` then has no text to extend). */
  function FlatName(c: Column, padded: bool): Wrappers.Option<string>
  {
    match c
    case One(Name(n)) => Wrappers.Some(ColName(n, if padded then [NaN, NaN] else []))
    case One(Tuple(_)) => Wrappers.None
    case Three(Str(p), b, t) => Wrappers.Some(ColName(p, [b, t]))
    case Three(_, _, _) => Wrappers.None
  }

  /** `[colstr(col) for col in flat_fids.columns.values]`. */
  function FlatNames(cols: seq<Column>): (names: seq<Wrappers.Option<string>>)
    ensures |names| == |cols|
    ensures forall i :: 0 <= i < |cols| ==> names[i] == FlatName(cols[i], HasTriple(cols))
  {
    seq(|cols|, i requires 0 <= i < |cols| => FlatName(cols[i], HasTriple(cols)))
  }

  /** The labels the merged frame can hold: plain names and the
      (polynomial, order, term) keys of the coefficient tables, all with
      comma-free texts. */
  predicate PlainLabel(l: Label)
  {
    match l
    case Name(n) => ',' !in n
    case Tuple(items) => |items| == 3 && items[0].Str? && items[1].Int? && items[2].Str? &&
                         ',' !in items[0].s && ',' !in items[2].s
  }

  /** A plain name flattens to itself, padded or not. */
  lemma FlatPlainName(n: string, padded: bool)
    ensures FlatName(Normalise(Name(n)), padded) == Wrappers.Some(n)
  {
    SegmentsPair(NaN, NaN);
    assert n + "" == n;
  }

  /** Only a coefficient label's flat name has a comma. */
  lemma FlatNameComma(l: Label, padded: bool)
    requires PlainLabel(l)
    ensures FlatName(Normalise(l), padded).Some?
    ensures ',' in FlatName(Normalise(l), padded).value <==> l.Tuple?
  {
    match l {
      case Name(n) =>
        FlatPlainName(n, padded);
      case Tuple(items) =>
        CoefName(items[0].s, items[1].i, items[2].s);
        var name := items[0].s + "," + IntText(items[1].i) + "," + items[2].s;
        assert name[|items[0].s|] == ',';
    }
  }

  /** Distinct plain labels flatten to distinct names. */
  lemma FlatNameInjective(l: Label, l': Label, padded: bool)
    requires PlainLabel(l) && PlainLabel(l')
    requires FlatName(Normalise(l), padded) == FlatName(Normalise(l'), padded)
    ensures l == l'
  {
    FlatNameComma(l, padded);
    FlatNameComma(l', padded);
    if l.Name? && l'.Name? {
      FlatPlainName(l.name, padded);
      FlatPlainName(l'.name, padded);
    } else if l.Tuple? && l'.Tuple? {
      var items, items' := l.items, l'.items;
      CoefName(items[0].s, items[1].i, items[2].s);
      CoefName(items'[0].s, items'[1].i, items'[2].s);
      CoefNameInjective(items[0].s, items[1].i, items[2].s, items'[0].s, items'[1].i, items'[2].s);
      assert items == [items[0], items[1], items[2]];
      assert items' == [items'[0], items'[1], items'[2]];
    }
  }
}
