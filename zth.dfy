/** `read_zth`: the two polynomial-coefficient files of one exposure
    (`xzth-{expid}.0.par` and `yzth-{expid}.0.par`), rewritten, bucketed line
    by line into two-token and three-token lines, and read as one row of
    term/value pairs. */
module Zth {
  import opened Wrappers
  import opened Strings
  import opened Substitution
  import opened Decimal
  import Paths
  import Quality

  /** The two polynomials, in the order the program reads them. */
  datatype Poly = XZth | YZth
  {
    function Name(): (n: string)
      ensures IsWord(n) && ',' !in n && '-' !in n
    {
      if XZth? then "xzth" else "yzth"
    }
  }

  const POLYS: seq<Poly> := [XZth, YZth]

  // ---------------------------------------------------------------------------
  // The text rewrite

  /** `None` becomes the polynomial name, `,sig` becomes `_sig`, and every
      remaining `,` becomes a tab, in that order. */
  function RewriteText(poly: Poly, raw: string): string
  {
    Replace(Replace(Replace(raw, "None", poly.Name()), ",sig", "_sig"), ",", "\t")
  }

  /** After the rewrite the text holds no comma. */
  lemma RewriteNoComma(poly: Poly, raw: string)
    ensures ',' !in RewriteText(poly, raw)
  {
    var t := Replace(Replace(raw, "None", poly.Name()), ",sig", "_sig");
    ReplaceCharEliminates(t, ',', "\t");
  }

  lemma NoneEliminated(poly: Poly)
    ensures Eliminates("None", poly.Name())
  {
    EliminatesByFronts("None", poly.Name());
  }

  /** The first step leaves no `None` behind. */
  lemma RewriteDropsNone(poly: Poly, raw: string)
    ensures !Occurs(Replace(raw, "None", poly.Name()), "None")
  {
    NoneEliminated(poly);
    ReplaceEliminates(raw, "None", poly.Name());
  }

  /** The second step leaves no `,sig` behind. */
  lemma RewriteDropsSig(poly: Poly, raw: string)
    ensures !Occurs(Replace(Replace(raw, "None", poly.Name()), ",sig", "_sig"), ",sig")
  {
    EliminatesByFronts(",sig", "_sig");
    ReplaceEliminates(Replace(raw, "None", poly.Name()), ",sig", "_sig");
  }

  lemma NotOccursSameLength(t: string, q: string)
    requires |t| == |q| && t != q
    ensures !Occurs(t, q)
  {
    assert t[0..|q|] == t;
  }

  /** Each `None` in the raw text turns into the polynomial name, and the text
      on either side is rewritten on its own. */
  lemma RewriteNone(poly: Poly, a: string, b: string)
    ensures RewriteText(poly, a + "None" + b) ==
            RewriteText(poly, a) + poly.Name() + RewriteText(poly, b)
  {
    var P := poly.Name();
    var a1, b1 := Replace(a, "None", P), Replace(b, "None", P);
    assert Replace(a + "None" + b, "None", P) == a1 + P + b1 by {
      NoStraddleFront(a, "None" + b, "None");
      NoStraddleBack("None", b, "None");
      ReplaceAround(a, "None", b, "None", P);
      assert Replace("None", "None", P) == P + Replace([], "None", P);
    }
    var a2, b2 := Replace(a1, ",sig", "_sig"), Replace(b1, ",sig", "_sig");
    assert Replace(a1 + P + b1, ",sig", "_sig") == a2 + P + b2 by {
      NoStraddleFront(a1, P + b1, ",sig");
      NoStraddleBack(P, b1, ",sig");
      ReplaceAround(a1, P, b1, ",sig", "_sig");
      NotOccursSameLength(P, ",sig");
      ReplaceAbsent(P, ",sig", "_sig");
    }
    assert Replace(a2 + P + b2, ",", "\t") == Replace(a2, ",", "\t") + P + Replace(b2, ",", "\t") by {
      NoStraddleChar(a2, P + b2, ',');
      NoStraddleChar(P, b2, ',');
      ReplaceAround(a2, P, b2, ",", "\t");
      ReplaceCharAbsent(P, ',', "\t");
    }
  }

  /** Each `,sig` in the raw text turns into `_sig` (not into a tab and
      `sig`), and the text on either side is rewritten on its own. */
  lemma RewriteSig(poly: Poly, a: string, b: string)
    ensures RewriteText(poly, a + ",sig" + b) ==
            RewriteText(poly, a) + "_sig" + RewriteText(poly, b)
  {
    var P := poly.Name();
    var a1, b1 := Replace(a, "None", P), Replace(b, "None", P);
    assert Replace(a + ",sig" + b, "None", P) == a1 + ",sig" + b1 by {
      NoStraddleFront(a, ",sig" + b, "None");
      NoStraddleBack(",sig", b, "None");
      ReplaceAround(a, ",sig", b, "None", P);
      NotOccursSameLength(",sig", "None");
      ReplaceAbsent(",sig", "None", P);
    }
    var a2, b2 := Replace(a1, ",sig", "_sig"), Replace(b1, ",sig", "_sig");
    assert Replace(a1 + ",sig" + b1, ",sig", "_sig") == a2 + "_sig" + b2 by {
      NoStraddleFront(a1, ",sig" + b1, ",sig");
      NoStraddleBack(",sig", b1, ",sig");
      ReplaceAround(a1, ",sig", b1, ",sig", "_sig");
      assert Replace(",sig", ",sig", "_sig") == "_sig" + Replace([], ",sig", "_sig");
    }
    assert Replace(a2 + "_sig" + b2, ",", "\t") == Replace(a2, ",", "\t") + "_sig" + Replace(b2, ",", "\t") by {
      NoStraddleChar(a2, "_sig" + b2, ',');
      NoStraddleChar("_sig", b2, ',');
      ReplaceAround(a2, "_sig", b2, ",", "\t");
      ReplaceCharAbsent("_sig", ',', "\t");
    }
  }

  // ---------------------------------------------------------------------------
  // Line bucketing

  /** What one line adds to `shortlines`: its two tokens joined by one space. */
  function ShortOf(line: string): seq<string>
  {
    var elems := Tokens(line);
    if |elems| == 2 then [Join(" ", elems)] else []
  }

  /** What one line adds to `longlines`: the polynomial name and its three
      tokens, joined by single spaces. */
  function LongOf(poly: Poly, line: string): seq<string>
  {
    var elems := Tokens(line);
    if |elems| == 3 then [Join(" ", [poly.Name()] + elems)] else []
  }

  function ShortLines(lines: seq<string>): seq<string>
    decreases |lines|
  {
    if lines == [] then []
    else ShortLines(lines[..|lines| - 1]) + ShortOf(lines[|lines| - 1])
  }

  function LongLines(poly: Poly, lines: seq<string>): seq<string>
    decreases |lines|
  {
    if lines == [] then []
    else LongLines(poly, lines[..|lines| - 1]) + LongOf(poly, lines[|lines| - 1])
  }

  /** The loop of `read_zth` over the lines of the rewritten text. */
  method BucketLines(poly: Poly, zthStr: string) returns (shortlines: seq<string>, longlines: seq<string>)
    ensures shortlines == ShortLines(SplitOn(zthStr, '\n'))
    ensures longlines == LongLines(poly, SplitOn(zthStr, '\n'))
  {
    var lines := SplitOn(zthStr, '\n');
    shortlines, longlines := [], [];
    for i := 0 to |lines|
      invariant shortlines == ShortLines(lines[..i])
      invariant longlines == LongLines(poly, lines[..i])
    {
      var elems := Tokens(lines[i]);
      if |elems| == 2 {
        shortlines := shortlines + [Join(" ", elems)];
      } else if |Tokens(lines[i])| == 3 {
        longlines := longlines + [Join(" ", [poly.Name()] + elems)];
      }
      assert lines[..i + 1][..i] == lines[..i];
    }
    assert lines[..|lines|] == lines;
  }

  /** Bucketing a text in two pieces gives the two buckets one after the
      other: the input order of lines is kept. */
  lemma {:induction false} ShortLinesAppend(a: seq<string>, b: seq<string>)
    ensures ShortLines(a + b) == ShortLines(a) + ShortLines(b)
    decreases |b|
  {
    if b == [] {
      assert a + b == a;
    } else {
      var b' := b[..|b| - 1];
      assert (a + b)[..|a + b| - 1] == a + b';
      ShortLinesAppend(a, b');
    }
  }

  lemma {:induction false} LongLinesAppend(poly: Poly, a: seq<string>, b: seq<string>)
    ensures LongLines(poly, a + b) == LongLines(poly, a) + LongLines(poly, b)
    decreases |b|
  {
    if b == [] {
      assert a + b == a;
    } else {
      var b' := b[..|b| - 1];
      assert (a + b)[..|a + b| - 1] == a + b';
      LongLinesAppend(poly, a, b');
    }
  }

  /** A text is in `shortlines` exactly when some line has exactly two tokens
      and the text is those tokens joined by one space. */
  lemma {:induction false} ShortLinesMember(lines: seq<string>, s: string)
    ensures s in ShortLines(lines) <==>
            exists i :: 0 <= i < |lines| && |Tokens(lines[i])| == 2 && s == Join(" ", Tokens(lines[i]))
    decreases |lines|
  {
    if lines != [] {
      var init := lines[..|lines| - 1];
      ShortLinesMember(init, s);
      assert forall i :: 0 <= i < |init| ==> init[i] == lines[i];
    }
  }

  /** A text is in `longlines` exactly when some line has exactly three tokens
      and the text is the polynomial name and those tokens joined by spaces. */
  lemma {:induction false} LongLinesMember(poly: Poly, lines: seq<string>, s: string)
    ensures s in LongLines(poly, lines) <==>
            exists i :: 0 <= i < |lines| && |Tokens(lines[i])| == 3 &&
                        s == Join(" ", [poly.Name()] + Tokens(lines[i]))
    decreases |lines|
  {
    if lines != [] {
      var init := lines[..|lines| - 1];
      LongLinesMember(poly, init, s);
      assert forall i :: 0 <= i < |init| ==> init[i] == lines[i];
    }
  }

  /** Tokens have no space in them, so splitting a single-space join on `' '`
      gives the same tokens as splitting it on whitespace. */
  lemma JoinedWords(ws: seq<string>)
    requires |ws| >= 1
    requires forall k :: 0 <= k < |ws| ==> IsWord(ws[k])
    ensures Tokens(Join(" ", ws)) == ws
    ensures SplitOn(Join(" ", ws), ' ') == ws
  {
    TokensOfJoin(ws);
    forall k | 0 <= k < |ws| ensures ' ' !in ws[k] {
      WordHasNoSpace(ws[k]);
    }
    SplitOnJoin(ws, ' ');
  }

  /** Every entry of `shortlines` is two words with one space between. */
  lemma ShortLinesShape(lines: seq<string>)
    ensures forall k :: 0 <= k < |ShortLines(lines)| ==>
              |Tokens(ShortLines(lines)[k])| == 2 &&
              SplitOn(ShortLines(lines)[k], ' ') == Tokens(ShortLines(lines)[k])
  {
    forall k | 0 <= k < |ShortLines(lines)|
      ensures |Tokens(ShortLines(lines)[k])| == 2
      ensures SplitOn(ShortLines(lines)[k], ' ') == Tokens(ShortLines(lines)[k])
    {
      var s := ShortLines(lines)[k];
      ShortLinesMember(lines, s);
      var i :| 0 <= i < |lines| && |Tokens(lines[i])| == 2 && s == Join(" ", Tokens(lines[i]));
      JoinedWords(Tokens(lines[i]));
    }
  }

  /** Every entry of `longlines` is four words with single spaces between, the
      first being the polynomial name. */
  lemma LongLinesShape(poly: Poly, lines: seq<string>)
    ensures forall k :: 0 <= k < |LongLines(poly, lines)| ==>
              |Tokens(LongLines(poly, lines)[k])| == 4 &&
              Tokens(LongLines(poly, lines)[k])[0] == poly.Name() &&
              SplitOn(LongLines(poly, lines)[k], ' ') == Tokens(LongLines(poly, lines)[k])
  {
    forall k | 0 <= k < |LongLines(poly, lines)|
      ensures |Tokens(LongLines(poly, lines)[k])| == 4
      ensures Tokens(LongLines(poly, lines)[k])[0] == poly.Name()
      ensures SplitOn(LongLines(poly, lines)[k], ' ') == Tokens(LongLines(poly, lines)[k])
    {
      var s := LongLines(poly, lines)[k];
      LongLinesMember(poly, lines, s);
      var i :| 0 <= i < |lines| && |Tokens(lines[i])| == 3 && s == Join(" ", [poly.Name()] + Tokens(lines[i]));
      JoinedWords([poly.Name()] + Tokens(lines[i]));
    }
  }

  // ---------------------------------------------------------------------------
  // The two tables of one file and the row of one exposure

  /** The index of one value: a term of a two-token line, or the
      (polynomial, order, term) triple of a three-token line. */
  datatype ZthKey = Term(term: string) | Coef(poly: string, order: int, term: string)

  /** A value as the text of its line. */
  type Entry = (ZthKey, string)

  /** A value as its table column holds it: a number (NaN for a missing
      value) when the column reads as numbers, else the text itself. */
  datatype Value = Number(x: Quality.Float) | Text(s: string)

  type Cell = (ZthKey, Value)

  /** What the column typing of `read_csv` makes of one text of a column
      that is numeric or not. */
  function ValueOf(numeric: bool, text: string, num: string -> Option<Quality.Float>): Value
  {
    var v := num(text);
    if v == Some(Quality.NaN) || (numeric && v.Some?) then Number(v.value) else Text(text)
  }

  /** The value column of one table as `read_csv` types it. `num` gives the
      number a text reads as (`Some(NaN)` for a missing-value marker such as
      `NaN`), `None` for a text that is not a number. The column holds numbers
      when every value reads as one; otherwise each value stays text, except
      the missing-value markers, which still read as NaN. */
  function Typed(entries: seq<Entry>, num: string -> Option<Quality.Float>): (cells: seq<Cell>)
    ensures |cells| == |entries|
    ensures forall i :: 0 <= i < |entries| ==> cells[i].0 == entries[i].0
    ensures forall i :: 0 <= i < |entries| ==>
              (cells[i].1.Text? <==>
                 num(entries[i].1) != Some(Quality.NaN) &&
                 exists j :: 0 <= j < |entries| && num(entries[j].1).None?)
    ensures forall i :: 0 <= i < |entries| ==>
              match cells[i].1
              case Text(t) => t == entries[i].1
              case Number(x) => num(entries[i].1) == Some(x)
  {
    var numeric := forall j :: 0 <= j < |entries| ==> num(entries[j].1).Some?;
    seq(|entries|, i requires 0 <= i < |entries| => (entries[i].0, ValueOf(numeric, entries[i].1, num)))
  }

  /** `read_csv(short_str, names=('term', 'value'), sep=' ')` indexed by term. */
  function ShortEntries(shortlines: seq<string>): seq<Entry>
    decreases |shortlines|
  {
    if shortlines == [] then []
    else
      var parts := SplitOn(shortlines[0], ' ');
      (if |parts| == 2 then [(Term(parts[0]), parts[1])] else []) + ShortEntries(shortlines[1..])
  }

  /** `read_csv(long_str, names=('poly', 'order', 'term', 'value'), sep=' ')`
      with the order column cast to `int`: an order written as a decimal
      numeral (`2`, `2.0`, `2e0`) is cut toward zero, and any other text
      makes the cast fail. */
  function LongEntries(longlines: seq<string>): Option<seq<Entry>>
    decreases |longlines|
  {
    if longlines == [] then Some([])
    else
      var parts := SplitOn(longlines[0], ' ');
      if |parts| != 4 then None
      else match ParseTruncated(parts[1])
        case None => None
        case Some(order) =>
          match LongEntries(longlines[1..])
          case None => None
          case Some(rest) => Some([(Coef(parts[0], order, parts[2]), parts[3])] + rest)
  }

  /** One iteration of the loop over polynomials: read the file, rewrite it,
      bucket its lines and read both tables, each value column typed on its
      own: `(short cells, long cells)`, or `None` when the file cannot be read
      or an order is not a numeral. */
  function PolyTables(poly: Poly, expid: int, dir: string, readFile: string -> Option<string>,
                      num: string -> Option<Quality.Float>)
    : Option<(seq<Cell>, seq<Cell>)>
  {
    match readFile(Paths.ZthPath(dir, expid, poly.Name()))
    case None => None
    case Some(raw) =>
      var lines := SplitOn(RewriteText(poly, raw), '\n');
      match LongEntries(LongLines(poly, lines))
      case None => None
      case Some(long) => Some((Typed(ShortEntries(ShortLines(lines)), num), Typed(long, num)))
  }

  /** What one polynomial's file gives: `(short cells, long cells)`. */
  type Tables = Poly -> Option<(seq<Cell>, seq<Cell>)>

  /** The short and long tables of the polynomials in `polys`, each kind
      concatenated in the order the polynomials are read; `None` as soon as
      one of them cannot be read. */
  function Gathered(polys: seq<Poly>, tables: Tables): Option<(seq<Cell>, seq<Cell>)>
    decreases |polys|
  {
    if polys == [] then Some(([], []))
    else
      var g := Gathered(polys[..|polys| - 1], tables);
      var t := tables(polys[|polys| - 1]);
      if g.Some? && t.Some? then Some((g.value.0 + t.value.0, g.value.1 + t.value.1)) else None
  }

  /** One more polynomial extends both kinds of table, or fails. */
  lemma GatheredStep(polys: seq<Poly>, i: nat, tables: Tables)
    requires i < |polys|
    ensures Gathered(polys[..i + 1], tables) ==
            var g, t := Gathered(polys[..i], tables), tables(polys[i]);
            if g.Some? && t.Some? then Some((g.value.0 + t.value.0, g.value.1 + t.value.1)) else None
  {
    assert polys[..i + 1][..i] == polys[..i];
  }

  /** Once a prefix of the polynomials fails, the whole sequence fails. */
  lemma {:induction false} GatheredFailurePersists(polys: seq<Poly>, n: nat, tables: Tables)
    requires n <= |polys|
    requires Gathered(polys[..n], tables).None?
    ensures Gathered(polys, tables).None?
    decreases |polys| - n
  {
    if n < |polys| {
      assert polys[..n + 1][..n] == polys[..n];
      GatheredFailurePersists(polys, n + 1, tables);
    } else {
      assert polys[..n] == polys;
    }
  }

  /** The series `read_zth` returns: the values indexed by key, short tables
      before long ones and `xzth` before `yzth` within each, then the
      exposure id. */
  datatype ZthRow = ZthRow(entries: seq<Cell>, expid: int)

  function ZthRowOf(expid: int, dir: string, readFile: string -> Option<string>,
                    num: string -> Option<Quality.Float>): Option<ZthRow>
  {
    match Gathered(POLYS, p => PolyTables(p, expid, dir, readFile, num))
    case Some(g) => Some(ZthRow(g.0 + g.1, expid))
    case None => None
  }

  /** One pass of the loop in `read_zth`: read, rewrite and bucket one file
      and read its two tables. */
  method ReadPolyTables(poly: Poly, expid: int, dir: string, readFile: string -> Option<string>,
                        num: string -> Option<Quality.Float>)
    returns (t: Option<(seq<Cell>, seq<Cell>)>)
    ensures t == PolyTables(poly, expid, dir, readFile, num)
  {
    var raw := readFile(Paths.ZthPath(dir, expid, poly.Name()));
    if raw.None? {
      return None;
    }
    var zthStr := RewriteText(poly, raw.value);
    var shortlines, longlines := BucketLines(poly, zthStr);
    var longTable := LongEntries(longlines);
    if longTable.None? {
      return None;
    }
    t := Some((Typed(ShortEntries(shortlines), num), Typed(longTable.value, num)));
  }

  /** `read_zth(expid, zth_dir)`: `None` stands for the exception the caller
      catches. */
  method ReadZth(expid: int, dir: string, readFile: string -> Option<string>,
                 num: string -> Option<Quality.Float>) returns (r: Option<ZthRow>)
    ensures r == ZthRowOf(expid, dir, readFile, num)
  {
    ghost var tables: Tables := p => PolyTables(p, expid, dir, readFile, num);
    var shortElems: seq<Cell> := [];
    var longElems: seq<Cell> := [];
    for i := 0 to |POLYS|
      invariant Gathered(POLYS[..i], tables) == Some((shortElems, longElems))
    {
      GatheredStep(POLYS, i, tables);
      var t := ReadPolyTables(POLYS[i], expid, dir, readFile, num);
      assert t == tables(POLYS[i]);
      if t.None? {
        GatheredFailurePersists(POLYS, i + 1, tables);
        return None;
      }
      shortElems := shortElems + t.value.0;
      longElems := longElems + t.value.1;
    }
    assert POLYS[..|POLYS|] == POLYS;
    r := Some(ZthRow(shortElems + longElems, expid));
  }

  /** Reading both polynomials gathers the `xzth` tables and then the
      `yzth` tables. */
  lemma GatheredBoth(tables: Tables)
    ensures Gathered(POLYS, tables) ==
            var x := tables(XZth);
            var y := tables(YZth);
            if x.Some? && y.Some? then Some((x.value.0 + y.value.0, x.value.1 + y.value.1)) else None
  {
    var px := tables(XZth);
    var g1 := Gathered(POLYS[..1], tables);
    assert POLYS[..1] == [XZth] && POLYS[..1][..0] == [];
    assert Gathered(POLYS[..1][..0], tables) == Some(([], []));
    assert px.Some? ==> [] + px.value.0 == px.value.0 && [] + px.value.1 == px.value.1;
    assert g1 == px;
    assert POLYS[..|POLYS| - 1] == POLYS[..1] && POLYS[|POLYS| - 1] == YZth;
  }

  /** The row exists exactly when both files are readable and every order is
      a numeral; its values come in the order short `xzth`, short `yzth`,
      long `xzth`, long `yzth`, and it carries the exposure id. */
  lemma ZthRowLayout(expid: int, dir: string, readFile: string -> Option<string>,
                     num: string -> Option<Quality.Float>)
    ensures var x := PolyTables(XZth, expid, dir, readFile, num);
            var y := PolyTables(YZth, expid, dir, readFile, num);
            ZthRowOf(expid, dir, readFile, num) ==
              if x.Some? && y.Some?
              then Some(ZthRow((x.value.0 + y.value.0) + (x.value.1 + y.value.1), expid))
              else None
  {
    var tables: Tables := p => PolyTables(p, expid, dir, readFile, num);
    GatheredBoth(tables);
  }

  /** The short table has one entry per two-token line, in order: the first
      token is the term, the second the value. */
  lemma {:induction false} ShortEntriesOfLines(lines: seq<string>)
    ensures ShortEntries(ShortLines(lines)) == ShortTable(lines)
    decreases |lines|
  {
    if lines != [] {
      var init, last := lines[..|lines| - 1], lines[|lines| - 1];
      ShortEntriesOfLines(init);
      ShortEntriesAppend(ShortLines(init), ShortOf(last));
      var elems := Tokens(last);
      if |elems| == 2 {
        JoinedWords(elems);
        assert ShortEntries(ShortOf(last)) == [(Term(elems[0]), elems[1])];
      }
    }
  }

  /** The short table read directly off the raw lines. */
  function ShortTable(lines: seq<string>): seq<Entry>
    decreases |lines|
  {
    if lines == [] then []
    else
      var elems := Tokens(lines[|lines| - 1]);
      ShortTable(lines[..|lines| - 1]) + (if |elems| == 2 then [(Term(elems[0]), elems[1])] else [])
  }

  lemma {:induction false} ShortEntriesAppend(a: seq<string>, b: seq<string>)
    ensures ShortEntries(a + b) == ShortEntries(a) + ShortEntries(b)
    decreases |a|
  {
    if a != [] {
      assert (a + b)[1..] == a[1..] + b;
      ShortEntriesAppend(a[1..], b);
    } else {
      assert a + b == b;
    }
  }

  /** The long table read directly off the raw lines: one entry per
      three-token line, keyed by the polynomial name, the order (a numeral,
      cut toward zero) and the term; `None` when some order is not a numeral. */
  function LongTable(poly: Poly, lines: seq<string>): Option<seq<Entry>>
    decreases |lines|
  {
    if lines == [] then Some([])
    else
      var g := LongTable(poly, lines[..|lines| - 1]);
      var elems := Tokens(lines[|lines| - 1]);
      if |elems| != 3 then g
      else
        var order := ParseTruncated(elems[0]);
        if g.Some? && order.Some?
        then Some(g.value + [(Coef(poly.Name(), order.value, elems[1]), elems[2])])
        else None
  }

  lemma {:induction false} LongEntriesAppend(a: seq<string>, b: seq<string>)
    ensures LongEntries(a + b) ==
            if LongEntries(a).Some? && LongEntries(b).Some?
            then Some(LongEntries(a).value + LongEntries(b).value)
            else None
    decreases |a|
  {
    if a != [] {
      assert (a + b)[1..] == a[1..] + b;
      assert (a + b)[0] == a[0];
      LongEntriesAppend(a[1..], b);
      var ra, rb := LongEntries(a[1..]), LongEntries(b);
      if ra.Some? && rb.Some? {
        forall e: Entry ensures [e] + (ra.value + rb.value) == [e] + ra.value + rb.value {
          assert [e] + (ra.value + rb.value) == ([e] + ra.value) + rb.value;
        }
      }
    } else {
      assert a + b == b;
      if LongEntries(b).Some? {
        assert [] + LongEntries(b).value == LongEntries(b).value;
      }
    }
  }

  /** The long table of the rewritten lines, read through `longlines`, is the
      table read directly off the lines. */
  lemma {:induction false} LongEntriesOfLines(poly: Poly, lines: seq<string>)
    ensures LongEntries(LongLines(poly, lines)) == LongTable(poly, lines)
    decreases |lines|
  {
    if lines != [] {
      var init, last := lines[..|lines| - 1], lines[|lines| - 1];
      LongEntriesOfLines(poly, init);
      LongEntriesAppend(LongLines(poly, init), LongOf(poly, last));
      LongEntriesOfLine(poly, last);
      var g := LongTable(poly, init);
      if |Tokens(last)| != 3 {
        assert LongLines(poly, lines) == LongLines(poly, init) + [];
        assert LongLines(poly, init) + [] == LongLines(poly, init);
        assert g.Some? ==> g.value + [] == g.value;
      }
    }
  }

  /** What one line contributes to the long table. */
  lemma LongEntriesOfLine(poly: Poly, line: string)
    ensures var elems := Tokens(line);
            LongEntries(LongOf(poly, line)) ==
              if |elems| != 3 then Some([])
              else if ParseTruncated(elems[0]).Some?
              then Some([(Coef(poly.Name(), ParseTruncated(elems[0]).value, elems[1]), elems[2])])
              else None
  {
    var elems := Tokens(line);
    if |elems| == 3 {
      var l := Join(" ", [poly.Name()] + elems);
      JoinedWords([poly.Name()] + elems);
      assert SplitOn(l, ' ') == [poly.Name(), elems[0], elems[1], elems[2]];
      LongEntriesSingle(l);
    }
  }

  /** The long table of a single line. */
  lemma LongEntriesSingle(l: string)
    ensures var parts := SplitOn(l, ' ');
            LongEntries([l]) ==
              if |parts| != 4 then None
              else if ParseTruncated(parts[1]).Some?
              then Some([(Coef(parts[0], ParseTruncated(parts[1]).value, parts[2]), parts[3])])
              else None
  {
    assert [l][1..] == [];
    var parts := SplitOn(l, ' ');
    if |parts| == 4 && ParseTruncated(parts[1]).Some? {
      var e := (Coef(parts[0], ParseTruncated(parts[1]).value, parts[2]), parts[3]);
      assert [e] + [] == [e];
    }
  }

  /** Every long-table key is a (polynomial, order, term) triple. */
  lemma {:induction false} LongEntriesKeys(longlines: seq<string>)
    requires LongEntries(longlines).Some?
    ensures forall i :: 0 <= i < |LongEntries(longlines).value| ==> LongEntries(longlines).value[i].0.Coef?
    decreases |longlines|
  {
    if longlines != [] {
      LongEntriesKeys(longlines[1..]);
    }
  }

  /** The long cells of a file are keyed by triples only, never by a bare
      term. */
  lemma PolyTablesKeys(poly: Poly, expid: int, dir: string, readFile: string -> Option<string>,
                       num: string -> Option<Quality.Float>)
    requires PolyTables(poly, expid, dir, readFile, num).Some?
    ensures var long := PolyTables(poly, expid, dir, readFile, num).value.1;
            forall i :: 0 <= i < |long| ==> long[i].0.Coef?
  {
    var raw := readFile(Paths.ZthPath(dir, expid, poly.Name())).value;
    var lines := SplitOn(RewriteText(poly, raw), '\n');
    LongEntriesKeys(LongLines(poly, lines));
  }

  /** One polynomial's tables, stated on the lines of the rewritten file
      without going through the intermediate `shortlines`/`longlines` text. */
  lemma PolyTablesDirect(poly: Poly, expid: int, dir: string, readFile: string -> Option<string>,
                         num: string -> Option<Quality.Float>)
    ensures var raw := readFile(Paths.ZthPath(dir, expid, poly.Name()));
            PolyTables(poly, expid, dir, readFile, num) ==
              if raw.None? then None
              else
                var lines := SplitOn(RewriteText(poly, raw.value), '\n');
                var long := LongTable(poly, lines);
                if long.None? then None else Some((Typed(ShortTable(lines), num), Typed(long.value, num)))
  {
    var raw := readFile(Paths.ZthPath(dir, expid, poly.Name()));
    if raw.Some? {
      var lines := SplitOn(RewriteText(poly, raw.value), '\n');
      ShortEntriesOfLines(lines);
      LongEntriesOfLines(poly, lines);
    }
  }
}
