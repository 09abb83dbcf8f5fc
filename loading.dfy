/**
 * The two loaders of utils.py: reading a plain-text file with `#` comments
 * (`read_commented_plain_text`) and turning the rows of the Isnad table into
 * an isnad set (`IsnadSet.get_full_isnadset`). The file and the database are
 * given as their contents: a sequence of lines, a sequence of rows.
 */
module Loading {
  import opened Outcomes
  import opened Sequences
  import opened Text
  import opened Chains
  import opened Corpus

  // ---------------------------------------------------------------------------
  // read_commented_plain_text
  // ---------------------------------------------------------------------------

  /** The `data_type` argument: `str` (the default) or `int`. */
  datatype DataType = TextData | IntData

  /** One value read from a line. */
  datatype Datum = Str(text: string) | Int(num: int)

  /**
   * The data part of one line, before its final strip: None for a comment
   * line, UnpackError when `line.split('#')` does not give exactly two parts.
   */
  function LineData(line: string): Result<Option<string>> {
    var l := Strip(line);
    if |l| > 0 && l[0] == '#' then Success(None)
    else if '#' in l then
      var parts := Split(l, '#');
      if |parts| != 2 then Failure(UnpackError) else Success(Some(parts[0]))
    else Success(Some(l))
  }

  /** `data_type(text)`. */
  function Convert(dt: DataType, text: string): Result<Datum> {
    match dt
    case TextData => Success(Str(text))
    case IntData => if PyInt(text).Some? then Success(Int(PyInt(text).value)) else Failure(ValueError)
  }

  /** `ret.append(data_type(...))`: the converted value is added, or the conversion raises. */
  function Added(v: Result<Datum>): Result<Option<Datum>> {
    if v.Failure? then Failure(v.error) else Success(Some(v.value))
  }

  /** What one line contributes: nothing, one value, or the error it raises. */
  function ReadLine(line: string, dt: DataType): Result<Option<Datum>> {
    var d := LineData(line);
    if d.Failure? then Failure(d.error)
    else if d.value.None? then Success(None)
    else Added(Convert(dt, Strip(d.value.value)))
  }

  /** What each line contributes. */
  function ReadLines(lines: seq<string>, dt: DataType): seq<Result<Option<Datum>>> {
    seq(|lines|, i requires 0 <= i < |lines| => ReadLine(lines[i], dt))
  }

  /** The values of all lines in order, or the error of the first line that raises one. */
  function ReadAll(lines: seq<string>, dt: DataType): Result<seq<Datum>> {
    Collect(ReadLines(lines, dt))
  }

  /**
   * The body of the loop, for one line: strip it, skip it when it is a
   * comment, unpack `line.split('#')` when it holds a `#`, and convert what
   * precedes the `#` after stripping it again.
   */
  method ReadOne(line: string, dt: DataType) returns (r: Result<Option<Datum>>)
    ensures r == ReadLine(line, dt)
    ensures var l := Strip(line);
            |l| > 0 && l[0] == '#' ==> r == Success(None)
    ensures var l := Strip(line);
            '#' !in l ==> r == Added(Convert(dt, Strip(l)))
    ensures var l := Strip(line);
            !(|l| > 0 && l[0] == '#') && multiset(l)['#'] == 1 ==>
              r == Added(Convert(dt, Strip(l[..FirstIndex(l, '#')])))
    ensures var l := Strip(line);
            !(|l| > 0 && l[0] == '#') && multiset(l)['#'] >= 2 ==> r == Failure(UnpackError)
  {
    var l := Strip(line);
    if |l| > 0 && l[0] == '#' {
      return Success(None);
    }
    var data: string;
    if '#' in l {
      var parts := Split(l, '#');
      SplitCount(l, '#');
      if |parts| != 2 {
        return Failure(UnpackError);
      }
      LineDataOneHash(line);
      data := parts[0];
    } else {
      data := l;
    }
    var d := Convert(dt, Strip(data));
    if d.Failure? {
      return Failure(d.error);
    }
    return Success(Some(d.value));
  }

  /** `read_commented_plain_text(fn, data_type)` over the lines of the file. */
  method ReadCommentedPlainText(lines: seq<string>, dt: DataType) returns (r: Result<seq<Datum>>)
    ensures r == ReadAll(lines, dt)
  {
    ghost var rs := ReadLines(lines, dt);
    var ret: seq<Datum> := [];
    var i := 0;
    while i < |lines|
      invariant 0 <= i <= |lines|
      invariant Collect(rs[..i]) == Success(ret)
    {
      var d := ReadOne(lines[i], dt);
      assert rs[i] == d;
      if d.Failure? {
        CollectStops(rs, i);
        return Failure(d.error);
      }
      CollectStep(rs, i);
      if d.value.Some? {
        ret := ret + [d.value.value];
      } else {
        assert ret + [] == ret;
      }
      i := i + 1;
    }
    assert rs[..i] == rs;
    return Success(ret);
  }

  /** After stripping, a line is skipped exactly when it starts with `#`. */
  lemma LineDataComment(line: string)
    ensures LineData(line) == Success(None) <==> |Strip(line)| > 0 && Strip(line)[0] == '#'
  {
  }

  /** A line without `#` is data as a whole. */
  lemma LineDataWhole(line: string)
    requires '#' !in Strip(line)
    ensures LineData(line) == Success(Some(Strip(line)))
  {
  }

  /** A line with one `#`, not at its start, keeps what precedes the `#`. */
  lemma LineDataOneHash(line: string)
    requires var l := Strip(line); !(|l| > 0 && l[0] == '#') && multiset(l)['#'] == 1
    ensures var l := Strip(line); LineData(line) == Success(Some(l[..FirstIndex(l, '#')]))
  {
    var l := Strip(line);
    var k := FirstIndex(l, '#');
    var a, b := l[..k], l[k + 1..];
    assert l == a + ['#'] + b;
    assert '#' !in b by {
      assert multiset(l) == multiset(a) + multiset(['#']) + multiset(b);
    }
    SplitOnce(a, b, '#');
  }

  /** A line with two or more `#`, not at its start, raises on unpacking. */
  lemma LineDataManyHashes(line: string)
    requires var l := Strip(line); !(|l| > 0 && l[0] == '#') && multiset(l)['#'] >= 2
    ensures LineData(line) == Failure(UnpackError)
  {
    SplitCount(Strip(line), '#');
  }

  /** Every value a line yields is free of `#`. */
  lemma LineDataNoHash(line: string)
    requires LineData(line).Success? && LineData(line).value.Some?
    ensures '#' !in LineData(line).value.value
  {
    SplitPieces(Strip(line), '#');
  }

  /** A blank line yields the empty text, and is not an integer. */
  lemma BlankLine(line: string)
    requires AllSpace(line)
    ensures ReadLine(line, TextData) == Success(Some(Str([])))
    ensures ReadLine(line, IntData) == Failure(ValueError)
  {
    assert line + [] == line;
    LeadingSpacesOf(line, []);
    PyIntBlank([]);
  }

  /** A line holding a number and a comment reads back as that number. */
  lemma NumberLine(n: int, comment: string)
    requires '#' !in comment && Trimmed(comment)
    ensures ReadLine(ShowInt(n) + " #" + comment, IntData) == Success(Some(Int(n)))
  {
    var s := ShowInt(n);
    var line := s + " " + ['#'] + comment;
    assert s + " #" + comment == line;
    assert LineData(line) == Success(Some(s + " ")) by {
      ShowIntShape(n);
      assert Trimmed(line);
      LineDataSplit(s + " ", comment);
    }
    assert Strip(s + " ") == s by {
      ShowIntShape(n);
      StripUnique([], s, " ");
      assert [] + s + " " == s + " ";
    }
    assert PyInt(s) == Some(n) by {
      PyIntShowInt(n);
    }
    ReadLineInt(line, s + " ");
  }

  /** A line whose data part is an integer reads as that integer. */
  lemma ReadLineInt(line: string, data: string)
    requires LineData(line) == Success(Some(data)) && PyInt(Strip(data)).Some?
    ensures ReadLine(line, IntData) == Success(Some(Int(PyInt(Strip(data)).value)))
  {
  }

  /** A stripped line `a#b` with no other `#`, and not starting with one, yields `a`. */
  lemma LineDataSplit(a: string, b: string)
    requires a != [] && '#' !in a && '#' !in b && Trimmed(a + ['#'] + b)
    ensures LineData(a + ['#'] + b) == Success(Some(a))
  {
    var line := a + ['#'] + b;
    StripTrimmed(line);
    SplitOnce(a, b, '#');
  }

  /** A line holding just a number reads back as that number. */
  lemma NumberOnlyLine(n: int)
    ensures ReadLine(ShowInt(n), IntData) == Success(Some(Int(n)))
  {
    var s := ShowInt(n);
    ShowIntShape(n);
    StripTrimmed(s);
    PyIntShowInt(n);
  }

  // ---------------------------------------------------------------------------
  // get_full_isnadset
  // ---------------------------------------------------------------------------

  /** A row of the Isnad table: its ID, HadithID and TransmitterIDs columns. */
  datatype Row = Row(sid: int, hid: int, transmitterIds: string)

  /** `zip(nodes, nodes[1:])`: each node paired with the next. */
  function Pairs(ns: seq<int>): seq<Edge> {
    if |ns| < 2 then [] else Pairs(ns[..|ns| - 1]) + [Edge(ns[|ns| - 2], ns[|ns| - 1])]
  }

  function NonEmptyFn(): string -> bool {
    (t: string) => t != []
  }

  /** `int` on one token: None where Python raises ValueError. */
  function PyIntFn(): string -> Option<int> {
    (t: string) => PyInt(t)
  }

  /** The transmitter ids of a row: the comma-separated, non-empty tokens, as integers. */
  function RowNodes(tids: string): Option<seq<int>> {
    MapAll(Filter(Split(tids, ','), NonEmptyFn()), PyIntFn())
  }

  /** What a row contributes: ValueError, nothing (fewer than two ids), or an isnad. */
  function ParseRow(row: Row): Result<Option<Isnad>> {
    var nodes := RowNodes(row.transmitterIds);
    if nodes.None? then Failure(ValueError)
    else
      var edges := Pairs(nodes.value);
      if |edges| == 0 then Success(None)
      else Success(Some(Isnad(row.sid, row.hid, edges, NodesOf(edges))))
  }

  /** What each row contributes. */
  function ParsedRows(rows: seq<Row>): seq<Result<Option<Isnad>>> {
    seq(|rows|, i requires 0 <= i < |rows| => ParseRow(rows[i]))
  }

  /** The isnads of all rows in order, or ValueError from the first row that raises one. */
  function FullIsnadSet(rows: seq<Row>, dbUrl: string): Result<IsnadSet> {
    var l := Collect(ParsedRows(rows));
    if l.Failure? then Failure(l.error) else Success(Build(l.value, dbUrl))
  }

  /** `get_full_isnadset(db_url)` over the rows of the Isnad table. */
  method GetFullIsnadSet(rows: seq<Row>, dbUrl: string) returns (r: Result<IsnadSet>)
    ensures r == FullIsnadSet(rows, dbUrl)
  {
    ghost var rs := ParsedRows(rows);
    var ret: seq<Isnad> := [];
    var i := 0;
    while i < |rows|
      invariant 0 <= i <= |rows|
      invariant Collect(rs[..i]) == Success(ret)
    {
      var row := rows[i];
      var nodes := RowNodes(row.transmitterIds);
      if nodes.None? {
        assert rs[i] == Failure(ValueError);
        CollectStops(rs, i);
        return Failure(ValueError);
      }
      var edges := Pairs(nodes.value);
      if |edges| == 0 {
        assert rs[i] == Success(None);
        CollectStep(rs, i);
        assert ret + [] == ret;
        i := i + 1;
        continue;
      }
      var isnad := MakeIsnad(row.sid, row.hid, edges);
      assert rs[i] == Success(Some(isnad.value));
      CollectStep(rs, i);
      ret := ret + [isnad.value];
      i := i + 1;
    }
    assert rs[..i] == rs;
    var built := NewIsnadSet(ret, dbUrl);
    return Success(built);
  }

  /** The edges join each node to the next: one edge fewer than nodes. */
  lemma {:induction false} PairsSpec(ns: seq<int>)
    ensures |Pairs(ns)| == if |ns| < 2 then 0 else |ns| - 1
    ensures forall i :: 0 <= i < |Pairs(ns)| ==> Pairs(ns)[i] == Edge(ns[i], ns[i + 1])
  {
    if |ns| >= 2 {
      var p := ns[..|ns| - 1];
      PairsSpec(p);
    }
  }

  lemma PairsAppend(p: seq<int>, x: int)
    requires |p| >= 1
    ensures Pairs(p + [x]) == Pairs(p) + [Edge(p[|p| - 1], x)]
  {
    var q := p + [x];
    assert |q| >= 2;
    assert q[..|q| - 1] == p;
    assert q[|q| - 2] == p[|p| - 1] && q[|q| - 1] == x;
  }
  /** The node list of a chain read from a row is its distinct ids in row order. */
  lemma {:induction false} PairsNodes(ns: seq<int>)
    requires |ns| >= 2
    ensures NodesOf(Pairs(ns)) == Dedup(ns)
  {
    var p, x := ns[..|ns| - 1], ns[|ns| - 1];
    var y := p[|p| - 1];
    assert ns == p + [x];
    var before := NodesOf(Pairs(p));
    assert AddNew(before, y) == Dedup(p) by {
      if |p| >= 2 {
        PairsNodes(p);
        DedupMember(p, y);
      } else {
        assert p == [] + [y];
        DedupAppend([], y);
      }
    }
    calc {
      NodesOf(Pairs(ns));
      { PairsAppend(p, x); }
      NodesOf(Pairs(p) + [Edge(y, x)]);
      { NodesOfAppend(Pairs(p), Edge(y, x)); }
      AddNew(AddNew(before, y), x);
      AddNew(Dedup(p), x);
      { DedupAppend(p, x); }
      Dedup(ns);
    }
  }

  /** Each isnad read from a row is well formed, carries the row's ids, and is the path through the row's ids. */
  lemma ParseRowSpec(row: Row)
    requires ParseRow(row).Success? && ParseRow(row).value.Some?
    ensures var c := ParseRow(row).value.value;
      && WellFormed(c) && c.sid == row.sid && c.hid == row.hid
      && c.edges == Pairs(RowNodes(row.transmitterIds).value)
      && c.nodes == Dedup(RowNodes(row.transmitterIds).value)
  {
    var ns := RowNodes(row.transmitterIds).value;
    PairsSpec(ns);
    PairsNodes(ns);
  }

  /** The decimal renderings of a list of ids. */
  function ShowAll(ns: seq<int>): seq<string> {
    seq(|ns|, i requires 0 <= i < |ns| => ShowInt(ns[i]))
  }

  lemma IdsRoundTrip(ns: seq<int>)
    ensures MapAll(ShowAll(ns), PyIntFn()) == Some(ns)
  {
    var ts := ShowAll(ns);
    forall k | 0 <= k < |ts| ensures PyInt(ts[k]) == Some(ns[k]) {
      PyIntShowInt(ns[k]);
    }
    MapAllOf(ts, ns, PyIntFn());
  }

  /** A row whose ids are written as comma-separated integers reads back as the chain through them. */
  lemma ParseRowRoundTrip(sid: int, hid: int, ns: seq<int>)
    requires |ns| >= 2
    ensures ParseRow(Row(sid, hid, Join(ShowAll(ns), ','))) ==
            Success(Some(Isnad(sid, hid, Pairs(ns), Dedup(ns))))
  {
    var ts := ShowAll(ns);
    forall k | 0 <= k < |ts| ensures ',' !in ts[k] && ts[k] != [] {
      ShowIntShape(ns[k]);
    }
    JoinSplit(ts, ',');
    FilterAll(ts, NonEmptyFn());
    IdsRoundTrip(ns);
    PairsSpec(ns);
    PairsNodes(ns);
  }

  /**
   * Loading fails exactly when a row holds a token that is not an integer,
   * and then with ValueError.
   */
  lemma FullIsnadSetFailure(rows: seq<Row>, dbUrl: string)
    ensures FullIsnadSet(rows, dbUrl).Failure? <==>
            exists i :: 0 <= i < |rows| && RowNodes(rows[i].transmitterIds).None?
    ensures FullIsnadSet(rows, dbUrl).Failure? ==> FullIsnadSet(rows, dbUrl).error == ValueError
  {
    var rs := ParsedRows(rows);
    assert forall i :: 0 <= i < |rows| ==> (rs[i].Failure? <==> RowNodes(rows[i].transmitterIds).None?);
    CollectSuccess(rs);
    if Collect(rs).Failure? {
      CollectFailure(rs);
    }
  }

  /**
   * A loaded set is consistent and comes from the given database; every
   * isnad in it is well formed and read from a row with the same ids, and
   * there are no more isnads than rows.
   */
  lemma FullIsnadSetSuccess(rows: seq<Row>, dbUrl: string)
    requires FullIsnadSet(rows, dbUrl).Success?
    ensures var s := FullIsnadSet(rows, dbUrl).value;
      && Consistent(s) && s.dbUrl == dbUrl && |s.isnads| <= |rows|
      && forall c :: c in s.isnads ==>
           WellFormed(c) && exists r :: r in rows && r.sid == c.sid && r.hid == c.hid
  {
    var rs := ParsedRows(rows);
    CollectSuccess(rs);
    CollectMembers(rs);
    forall c | c in Collect(rs).value
      ensures WellFormed(c) && exists r :: r in rows && r.sid == c.sid && r.hid == c.hid
    {
      var i :| 0 <= i < |rs| && rs[i] == Success(Some(c));
      ParseRowSpec(rows[i]);
      assert rows[i] in rows;
    }
  }
}
