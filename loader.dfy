/** The loader: header normalisation, the required-column check, the cleaning
    of the parsed rows into the engine's bar series, and the symbol listing.
    The file system is replaced by its answers, passed in as parameters. */
module Loader {
  import opened Series

  // ---------------------------------------------------------------------------
  // Header normalisation: `c.strip().capitalize()`
  // ---------------------------------------------------------------------------

  /** Python's `str.isspace`: the characters `strip()` removes by default. */
  predicate IsSpace(c: char)
  {
    var n := c as int;
    (9 <= n <= 13) || (28 <= n <= 32) || n == 0x85 || n == 0xA0 || n == 0x1680 ||
    (0x2000 <= n <= 0x200A) || n == 0x2028 || n == 0x2029 || n == 0x202F ||
    n == 0x205F || n == 0x3000
  }

  /** Drop leading whitespace: the result is a suffix of `s`, everything
      dropped is whitespace, and the result does not start with whitespace. */
  function StripLeading(s: string): (r: string)
    ensures |r| <= |s| && r == s[|s| - |r|..]
    ensures forall i :: 0 <= i < |s| - |r| ==> IsSpace(s[i])
    ensures r == [] || !IsSpace(r[0])
  {
    if s != [] && IsSpace(s[0]) then StripLeading(s[1..]) else s
  }

  /** Drop trailing whitespace: the result is a prefix of `s`, everything
      dropped is whitespace, and the result does not end with whitespace. */
  function StripTrailing(s: string): (r: string)
    ensures |r| <= |s| && r == s[..|r|]
    ensures forall i :: |r| <= i < |s| ==> IsSpace(s[i])
    ensures r == [] || !IsSpace(r[|r| - 1])
  {
    if s != [] && IsSpace(s[|s| - 1]) then StripTrailing(s[..|s| - 1]) else s
  }

  function Strip(s: string): (r: string)
    ensures r == [] || (!IsSpace(r[0]) && !IsSpace(r[|r| - 1]))
  {
    StripTrailing(StripLeading(s))
  }

  function ToUpper(c: char): char
  {
    if 'a' <= c <= 'z' then (c as int - 32) as char else c
  }

  function ToLower(c: char): char
  {
    if 'A' <= c <= 'Z' then (c as int + 32) as char else c
  }

  function LowerAll(s: string): string
  {
    seq(|s|, i requires 0 <= i < |s| => ToLower(s[i]))
  }

  /** `str.capitalize`: the first character upper-cased, the rest lower-cased. */
  function Capitalize(s: string): string
  {
    if s == [] then [] else [ToUpper(s[0])] + LowerAll(s[1..])
  }

  /** The name a header cell is given. */
  function NormaliseName(c: string): string
  {
    Capitalize(Strip(c))
  }

  /** `df.columns` after the reassignment. */
  function NormaliseHeader(header: seq<string>): seq<string>
  {
    seq(|header|, i requires 0 <= i < |header| => NormaliseName(header[i]))
  }

  /** Leading blanks go and the first letter is raised. */
  lemma NormaliseDate()
    ensures NormaliseName(" date") == "Date"
  {
    StripSpaceDate();
    NormaliseStripped(" date", "date", "Date");
  }

  lemma StripSpaceDate()
    ensures Strip(" date") == "date"
  {
    assert " date" == [' '] + "date";
    StripOneLeadingSpace("date");
  }

  lemma NormaliseStripped(x: string, s: string, n: string)
    requires Strip(x) == s && Capitalize(s) == n
    ensures NormaliseName(x) == n
  {
  }

  lemma StripOneLeadingSpace(x: string)
    requires x != [] && !IsSpace(x[0]) && !IsSpace(x[|x| - 1])
    ensures Strip([' '] + x) == x
  {
    assert ([' '] + x)[1..] == x;
    StripNoop(x);
  }

  /** The letters after the first are lowered. */
  lemma NormaliseClose()
    ensures NormaliseName("CLOSE") == "Close"
  {
    StripNoop("CLOSE");
    CapitalizeClose();
    NormaliseStripped("CLOSE", "CLOSE", "Close");
  }

  lemma CapitalizeClose()
    ensures Capitalize("CLOSE") == "Close"
  {
    assert "CLOSE"[1..] == "LOSE";
    assert LowerAll("LOSE") == "lose";
  }

  lemma CaseKeepsSpace(c: char)
    ensures IsSpace(ToUpper(c)) == IsSpace(c) && IsSpace(ToLower(c)) == IsSpace(c)
  {
  }

  /** A string with no surrounding whitespace is left alone by `strip`. */
  lemma {:induction false} StripNoop(s: string)
    requires s == [] || (!IsSpace(s[0]) && !IsSpace(s[|s| - 1]))
    ensures Strip(s) == s
  {
  }

  lemma CaseFolds(c: char)
    ensures ToLower(ToUpper(c)) == ToLower(c) && ToLower(ToLower(c)) == ToLower(c)
    ensures ToUpper(ToLower(c)) == ToUpper(c) && ToUpper(ToUpper(c)) == ToUpper(c)
  {
  }

  lemma LowerOfCapitalize(s: string)
    ensures LowerAll(Capitalize(s)) == LowerAll(s)
  {
    var c := Capitalize(s);
    assert |c| == |s|;
    forall i | 0 <= i < |s| ensures ToLower(c[i]) == ToLower(s[i]) {
      CaseFolds(s[i]);
      if i == 0 {
        assert c[0] == ToUpper(s[0]);
      } else {
        assert c[i] == LowerAll(s[1..])[i - 1];
      }
    }
  }

  lemma CapitalizeOfLower(s: string)
    ensures Capitalize(LowerAll(s)) == Capitalize(s)
  {
    if s != [] {
      CaseFolds(s[0]);
      var l := LowerAll(s);
      assert l[1..] == LowerAll(s[1..]);
      forall i | 0 <= i < |s| - 1 ensures LowerAll(l[1..])[i] == LowerAll(s[1..])[i] {
        CaseFolds(s[i + 1]);
      }
    }
  }

  /** Normalising a normalised name changes nothing. */
  lemma NormaliseIdempotent(c: string)
    ensures NormaliseName(NormaliseName(c)) == NormaliseName(c)
  {
    var s := Strip(c);
    var n := Capitalize(s);
    if s != [] {
      CaseKeepsSpace(s[0]);
      CaseKeepsSpace(s[|s| - 1]);
      assert n[|n| - 1] == if |s| == 1 then ToUpper(s[0]) else ToLower(s[|s| - 1]);
    }
    StripNoop(n);
    assert Capitalize(n) == n;
  }

  /** Two header cells get the same name exactly when they agree once
      surrounding whitespace is removed and letter case is ignored. */
  lemma NormaliseSameIff(a: string, b: string)
    ensures NormaliseName(a) == NormaliseName(b) <==> LowerAll(Strip(a)) == LowerAll(Strip(b))
  {
    var sa, sb := Strip(a), Strip(b);
    LowerOfCapitalize(sa);
    LowerOfCapitalize(sb);
    CapitalizeOfLower(sa);
    CapitalizeOfLower(sb);
  }

  // ---------------------------------------------------------------------------
  // The required-column check
  // ---------------------------------------------------------------------------

  const Required: seq<string> := ["Date", "Open", "High", "Low", "Close", "Volume"]

  /** The position in `required` of the first column missing from `columns`,
      or `|required|` when none is missing. */
  function FirstMissingIndex(columns: seq<string>, required: seq<string>): (k: nat)
    ensures k <= |required|
    ensures forall j :: 0 <= j < k ==> required[j] in columns
    ensures k < |required| ==> required[k] !in columns
  {
    if required == [] then 0
    else if required[0] !in columns then 0
    else 1 + FirstMissingIndex(columns, required[1..])
  }

  /** The checking loop: the first required column, in order, that the header
      lacks, or none. */
  method CheckRequired(columns: seq<string>, required: seq<string>) returns (missing: Option<string>)
    ensures var k := FirstMissingIndex(columns, required);
      missing == if k < |required| then Some(required[k]) else None
  {
    for i := 0 to |required|
      invariant forall j :: 0 <= j < i ==> required[j] in columns
    {
      if required[i] !in columns {
        return Some(required[i]);
      }
    }
    return None;
  }

  lemma MissingIffAbsent(columns: seq<string>, required: seq<string>)
    ensures FirstMissingIndex(columns, required) == |required|
      <==> forall j :: 0 <= j < |required| ==> required[j] in columns
  {
  }

  // ---------------------------------------------------------------------------
  // Rows: `drop_duplicates(subset=["Date"])` then `sort_values("Date")`
  // ---------------------------------------------------------------------------

  /** One parsed row of the file, its date already a day number. */
  datatype Row = Row(date: int, open: real, high: real, low: real, close: real, volume: real)

  /** The dates carried by the rows. */
  function Dates(s: seq<Row>): (ds: set<int>)
    ensures forall i :: 0 <= i < |s| ==> s[i].date in ds
  {
    if s == [] then {} else Dates(s[..|s| - 1]) + {s[|s| - 1].date}
  }

  predicate DistinctDates(s: seq<Row>)
  {
    forall i, j :: 0 <= i < j < |s| ==> s[i].date != s[j].date
  }

  /** `Series.Ascending` stated for rows, which carry all six columns of the
      file rather than the two a bar keeps. */
  predicate DatesAscending(s: seq<Row>)
  {
    forall i, j :: 0 <= i < j < |s| ==> s[i].date < s[j].date
  }

  /** The index of the first row carrying date `d`. */
  function FirstIndex(rows: seq<Row>, d: int): (k: nat)
    requires d in Dates(rows)
    ensures k < |rows| && rows[k].date == d
    ensures forall j :: 0 <= j < k ==> rows[j].date != d
  {
    var init := rows[..|rows| - 1];
    if d in Dates(init) then FirstIndex(init, d)
    else
      assert forall j :: 0 <= j < |init| ==> init[j].date != d;
      |rows| - 1
  }

  lemma FirstIndexUnique(rows: seq<Row>, d: int, k: nat)
    requires k < |rows| && rows[k].date == d
    requires forall j :: 0 <= j < k ==> rows[j].date != d
    ensures d in Dates(rows) && FirstIndex(rows, d) == k
  {
  }

  lemma DatesSnoc(s: seq<Row>, x: Row)
    ensures Dates(s + [x]) == Dates(s) + {x.date}
  {
    assert (s + [x])[..|s|] == s;
  }

  /** Rows with the same elements carry the same dates. */
  lemma SameElementsSameDates(a: seq<Row>, b: seq<Row>)
    requires forall r :: r in a ==> r in b
    requires forall r :: r in b ==> r in a
    ensures Dates(a) == Dates(b)
  {
    forall d | d in Dates(a) ensures d in Dates(b) {
      var k := FirstIndex(a, d);
      assert a[k] in b;
    }
    forall d | d in Dates(b) ensures d in Dates(a) {
      var k := FirstIndex(b, d);
      assert b[k] in a;
    }
  }

  /** Keep the first row of each date, in input order. */
  function DedupFirst(rows: seq<Row>): seq<Row>
  {
    if rows == [] then []
    else
      var s, x := rows[..|rows| - 1], rows[|rows| - 1];
      if x.date in Dates(s) then DedupFirst(s) else DedupFirst(s) + [x]
  }

  /** Deduplication keeps every date, keeps each date once, and the row kept
      for a date is the first row carrying it. */
  lemma {:induction false} DedupFacts(rows: seq<Row>)
    ensures Dates(DedupFirst(rows)) == Dates(rows)
    ensures DistinctDates(DedupFirst(rows))
    ensures forall i :: 0 <= i < |DedupFirst(rows)| ==>
      DedupFirst(rows)[i].date in Dates(rows) &&
      DedupFirst(rows)[i] == rows[FirstIndex(rows, DedupFirst(rows)[i].date)]
  {
    if rows != [] {
      var s, x := rows[..|rows| - 1], rows[|rows| - 1];
      assert rows == s + [x];
      DedupFacts(s);
      var ds := DedupFirst(s);
      DedupKeepsFirst(s, x, ds);
      if x.date !in Dates(s) {
        DedupAppendsNew(rows, ds);
      }
    }
  }

  /** Appending a row does not move the first row of an existing date. */
  lemma FirstIndexSnoc(s: seq<Row>, x: Row, d: int)
    requires d in Dates(s)
    ensures d in Dates(s + [x]) && FirstIndex(s + [x], d) == FirstIndex(s, d)
  {
    var k := FirstIndex(s, d);
    assert (s + [x])[k] == s[k];
    assert forall j :: 0 <= j < k ==> (s + [x])[j] == s[j];
    FirstIndexUnique(s + [x], d, k);
  }

  /** A row that was the first of its date in `s` stays the first of its date
      once a row is appended. */
  lemma DedupKeepsFirst(s: seq<Row>, x: Row, ds: seq<Row>)
    requires forall i :: 0 <= i < |ds| ==> ds[i].date in Dates(s) && ds[i] == s[FirstIndex(s, ds[i].date)]
    ensures forall i :: 0 <= i < |ds| ==>
      ds[i].date in Dates(s + [x]) && ds[i] == (s + [x])[FirstIndex(s + [x], ds[i].date)]
  {
    forall i | 0 <= i < |ds|
      ensures ds[i].date in Dates(s + [x]) && ds[i] == (s + [x])[FirstIndex(s + [x], ds[i].date)]
    {
      FirstIndexSnoc(s, x, ds[i].date);
      assert (s + [x])[FirstIndex(s, ds[i].date)] == s[FirstIndex(s, ds[i].date)];
    }
  }

  /** A last row with a new date is kept, and is its date's first row. */
  lemma DedupAppendsNew(rows: seq<Row>, ds: seq<Row>)
    requires rows != []
    requires ds == DedupFirst(rows[..|rows| - 1])
    requires rows[|rows| - 1].date !in Dates(rows[..|rows| - 1])
    requires Dates(ds) == Dates(rows[..|rows| - 1]) && DistinctDates(ds)
    ensures DedupFirst(rows) == ds + [rows[|rows| - 1]]
    ensures Dates(DedupFirst(rows)) == Dates(rows)
    ensures DistinctDates(DedupFirst(rows))
    ensures FirstIndex(rows, rows[|rows| - 1].date) == |rows| - 1
  {
    var s, x := rows[..|rows| - 1], rows[|rows| - 1];
    assert rows == s + [x];
    DatesSnoc(s, x);
    DatesSnoc(ds, x);
    FirstIndexUnique(rows, x.date, |s|);
  }

  /** Insert `x` before the first row dated at or after it. */
  function Insert(x: Row, s: seq<Row>): (r: seq<Row>)
    ensures |r| == |s| + 1
    ensures multiset(r) == multiset(s) + multiset{x}
  {
    if s == [] then [x]
    else if x.date <= s[0].date then [x] + s
    else
      assert s == [s[0]] + s[1..];
      [s[0]] + Insert(x, s[1..])
  }

  /** The rows ordered by date. */
  function SortByDate(s: seq<Row>): (r: seq<Row>)
    ensures multiset(r) == multiset(s)
  {
    if s == [] then []
    else
      assert s == [s[0]] + s[1..];
      Insert(s[0], SortByDate(s[1..]))
  }

  lemma {:induction false} InsertAscending(x: Row, s: seq<Row>)
    requires DatesAscending(s)
    requires forall i :: 0 <= i < |s| ==> s[i].date != x.date
    ensures DatesAscending(Insert(x, s))
  {
    if s != [] && x.date > s[0].date {
      var rest := s[1..];
      InsertAscending(x, rest);
      var ins := Insert(x, rest);
      forall k | 0 <= k < |ins| ensures s[0].date < ins[k].date {
        assert ins[k] in multiset(ins);
        assert ins[k] == x || ins[k] in multiset(rest);
      }
    }
  }

  /** Sorting rows with distinct dates orders them strictly by date. */
  lemma {:induction false} SortAscending(s: seq<Row>)
    requires DistinctDates(s)
    ensures DatesAscending(SortByDate(s))
  {
    if s != [] {
      var rest := s[1..];
      SortAscending(rest);
      var sorted := SortByDate(rest);
      forall i | 0 <= i < |sorted| ensures sorted[i].date != s[0].date {
        assert sorted[i] in multiset(rest);
        var k :| 0 <= k < |rest| && rest[k] == sorted[i];
        assert s[k + 1] == sorted[i];
      }
      InsertAscending(s[0], sorted);
    }
  }

  /** The rows as `drop_duplicates` then `sort_values` leave them. */
  function Cleaned(rows: seq<Row>): seq<Row>
  {
    SortByDate(DedupFirst(rows))
  }

  /** Every row of `t` is the first row of `rows` with its date. */
  predicate FirstOccurrences(t: seq<Row>, rows: seq<Row>)
  {
    forall r :: r in t ==> r.date in Dates(rows) && r == rows[FirstIndex(rows, r.date)]
  }

  lemma FirstOccurrencesOfIndices(t: seq<Row>, rows: seq<Row>)
    requires forall i :: 0 <= i < |t| ==> t[i].date in Dates(rows) && t[i] == rows[FirstIndex(rows, t[i].date)]
    ensures FirstOccurrences(t, rows)
  {
  }

  lemma PermutationSameElements(a: seq<Row>, b: seq<Row>)
    requires multiset(a) == multiset(b)
    ensures forall r :: r in a <==> r in b
  {
    forall r ensures r in a <==> r in b {
      assert r in a <==> r in multiset(a);
    }
  }

  /** After cleaning, dates are strictly ascending, every input date is
      present (exactly once, by the ordering), and each row is the first
      input row with its date. */
  lemma CleanedFacts(rows: seq<Row>)
    ensures DatesAscending(Cleaned(rows))
    ensures Dates(Cleaned(rows)) == Dates(rows)
    ensures multiset(Cleaned(rows)) == multiset(DedupFirst(rows))
    ensures FirstOccurrences(Cleaned(rows), rows)
    ensures forall r :: r in Cleaned(rows) ==> r in rows
  {
    var d := DedupFirst(rows);
    var c := Cleaned(rows);
    DedupFacts(rows);
    FirstOccurrencesOfIndices(d, rows);
    SortAscending(d);
    PermutationSameElements(c, d);
    SameElementsSameDates(c, d);
  }

  // ---------------------------------------------------------------------------
  // Derived columns: `Price` and `Return`
  // ---------------------------------------------------------------------------

  function Closes(s: seq<Row>): seq<real>
  {
    seq(|s|, i requires 0 <= i < |s| => s[i].close)
  }

  /** `pct_change().fillna(0)`: zero on the first row, the fractional change
      from the previous price after it. */
  function Returns(p: seq<real>): seq<real>
    requires NonZero(p)
  {
    seq(|p|, t requires 0 <= t < |p| => if t == 0 then 0.0 else p[t] / p[t - 1] - 1.0)
  }

  /** The returns are the price changes, starting from zero. */
  lemma ReturnsMatchPrices(p: seq<real>)
    requires NonZero(p)
    ensures ReturnsMatch(p, Returns(p))
    ensures p != [] ==> Returns(p)[0] == 0.0
  {
  }

  /** Compounding a return onto the previous price gives back the price. */
  lemma ReturnsRebuildPrices(p: seq<real>)
    requires NonZero(p)
    ensures forall t :: 1 <= t < |p| ==> (1.0 + Returns(p)[t]) * p[t - 1] == p[t]
  {
    forall t | 1 <= t < |p| ensures (1.0 + Returns(p)[t]) * p[t - 1] == p[t] {
      Rebuild(Returns(p)[t], p[t], p[t - 1]);
    }
  }

  lemma Rebuild(rt: real, x: real, y: real)
    requires y != 0.0 && rt == x / y - 1.0
    ensures (1.0 + rt) * y == x
  {
  }

  /** The frame indexed by date with its `Price` and `Return` columns. */
  function ToBars(s: seq<Row>, rets: seq<real>): seq<Bar>
    requires |rets| == |s|
  {
    seq(|s|, i requires 0 <= i < |s| => Bar(s[i].date, s[i].close, rets[i]))
  }

  predicate NonZeroCloses(rows: seq<Row>)
  {
    forall r :: r in rows ==> r.close != 0.0
  }

  lemma CleanedNonZero(rows: seq<Row>)
    requires NonZeroCloses(rows)
    ensures NonZero(Closes(Cleaned(rows)))
  {
    CleanedFacts(rows);
    var c := Cleaned(rows);
    forall t | 0 <= t < |c| ensures c[t].close != 0.0 {
      assert c[t] in c;
    }
  }

  /** The series `load_price` returns for the parsed rows. */
  function CleanBars(rows: seq<Row>): seq<Bar>
    requires NonZeroCloses(rows)
  {
    CleanedNonZero(rows);
    var c := Cleaned(rows);
    ToBars(c, Returns(Closes(c)))
  }

  /** One bar per cleaned row, carrying its date and its close as price;
      the return column is `Returns` of the closes. */
  lemma CleanBarsColumns(rows: seq<Row>)
    requires NonZeroCloses(rows)
    ensures |CleanBars(rows)| == |Cleaned(rows)|
    ensures forall i :: 0 <= i < |CleanBars(rows)| ==>
      CleanBars(rows)[i].date == Cleaned(rows)[i].date && CleanBars(rows)[i].price == Cleaned(rows)[i].close
    ensures NonZero(Closes(Cleaned(rows))) && Prices(CleanBars(rows)) == Closes(Cleaned(rows))
    ensures NonZero(Closes(Cleaned(rows))) && Rets(CleanBars(rows)) == Returns(Closes(Cleaned(rows)))
  {
    CleanedNonZero(rows);
  }

  /** The cleaned series is what the engine expects: strictly ascending dates
      and returns that are the price changes, the first being zero. */
  lemma LoadedFitsEngine(rows: seq<Row>)
    requires NonZeroCloses(rows)
    ensures Ascending(CleanBars(rows))
    ensures ReturnsMatch(Prices(CleanBars(rows)), Rets(CleanBars(rows)))
    ensures CleanBars(rows) != [] ==> CleanBars(rows)[0].ret == 0.0
  {
    CleanedFacts(rows);
    CleanBarsColumns(rows);
    ReturnsMatchPrices(Closes(Cleaned(rows)));
  }

  /** Each bar is the first input row with its date, priced at that row's
      close, and every input date has its bar. */
  lemma LoadedBarsAreFirstRows(rows: seq<Row>)
    requires NonZeroCloses(rows)
    ensures forall i :: 0 <= i < |CleanBars(rows)| ==>
      CleanBars(rows)[i].date in Dates(rows) &&
      CleanBars(rows)[i].price == rows[FirstIndex(rows, CleanBars(rows)[i].date)].close
    ensures forall d :: d in Dates(rows) ==>
      exists i :: 0 <= i < |CleanBars(rows)| && CleanBars(rows)[i].date == d
  {
    CleanedFacts(rows);
    CleanBarsColumns(rows);
    var c := Cleaned(rows);
    var bars := CleanBars(rows);
    forall i | 0 <= i < |bars|
      ensures bars[i].date in Dates(rows) && bars[i].price == rows[FirstIndex(rows, bars[i].date)].close
    {
      assert c[i] in c;
    }
    forall d | d in Dates(rows)
      ensures exists i :: 0 <= i < |bars| && bars[i].date == d
    {
      var i := FirstIndex(c, d);
      assert bars[i].date == d;
    }
  }

  // ---------------------------------------------------------------------------
  // load_price
  // ---------------------------------------------------------------------------

  const DataDir: string := "data"

  datatype LoadError =
    | FileNotFound(path: string)
    | MissingColumn(symbol: string, column: string)

  /** `os.path.join(a, b)` for POSIX paths: an absolute `b` replaces `a`;
      otherwise `b` follows `a`, with a separator between them unless `a` is
      empty or already ends in one. */
  function JoinPath(a: string, b: string): (r: string)
    ensures |b| > 0 && b[0] == '/' ==> r == b
    ensures (|b| == 0 || b[0] != '/') && (|a| == 0 || a[|a| - 1] == '/') ==> r == a + b
    ensures (|b| == 0 || b[0] != '/') && |a| > 0 && a[|a| - 1] != '/' ==> r == a + "/" + b
  {
    if |b| > 0 && b[0] == '/' then b
    else if |a| == 0 || a[|a| - 1] == '/' then a + b
    else a + "/" + b
  }

  /** The file `load_price` opens: `data/<symbol>.csv` for a relative
      symbol, the symbol itself plus `.csv` for an absolute one. */
  lemma DataPath(symbol: string)
    ensures |symbol| > 0 && symbol[0] == '/' ==> JoinPath(DataDir, symbol + ".csv") == symbol + ".csv"
    ensures (|symbol| == 0 || symbol[0] != '/') ==>
      JoinPath(DataDir, symbol + ".csv") == "data/" + symbol + ".csv"
  {
    var b := symbol + ".csv";
    assert |symbol| > 0 ==> b[0] == symbol[0];
    assert |symbol| == 0 ==> b[0] == '.';
  }

  /** `load_price`: `fileExists` stands for `os.path.exists(path)`, `header`
      and `rows` for what `read_csv` parsed. */
  method LoadPrice(symbol: string, fileExists: bool, header: seq<string>, rows: seq<Row>)
    returns (r: Result<seq<Bar>, LoadError>)
    requires fileExists && FirstMissingIndex(NormaliseHeader(header), Required) == |Required| ==>
      NonZeroCloses(rows)
    ensures !fileExists ==> r == Failure(FileNotFound(JoinPath(DataDir, symbol + ".csv")))
    ensures var k := FirstMissingIndex(NormaliseHeader(header), Required);
      fileExists && k < |Required| ==> r == Failure(MissingColumn(symbol, Required[k]))
    ensures var k := FirstMissingIndex(NormaliseHeader(header), Required);
      fileExists && k == |Required| ==> r == Success(CleanBars(rows))
  {
    var path := JoinPath(DataDir, symbol + ".csv");
    if !fileExists {
      return Failure(FileNotFound(path));
    }
    var columns := NormaliseHeader(header);
    var missing := CheckRequired(columns, Required);
    if missing.Some? {
      return Failure(MissingColumn(symbol, missing.value));
    }
    var frame := DedupFirst(rows);
    frame := SortByDate(frame);
    assert frame == Cleaned(rows);
    CleanedNonZero(rows);
    var price := Closes(frame);
    var ret := Returns(price);
    r := Success(ToBars(frame, ret));
    assert r == Success(CleanBars(rows));
  }

  /** A header naming every required column in any case and with any
      surrounding whitespace passes the check. */
  lemma HeaderWithAllColumnsPasses(header: seq<string>, required: seq<string>)
    requires forall j :: 0 <= j < |required| ==>
      exists i :: 0 <= i < |header| && NormaliseName(header[i]) == required[j]
    ensures FirstMissingIndex(NormaliseHeader(header), required) == |required|
  {
    var cols := NormaliseHeader(header);
    forall j | 0 <= j < |required| ensures required[j] in cols {
      var i :| 0 <= i < |header| && NormaliseName(header[i]) == required[j];
      assert cols[i] == required[j];
    }
    MissingIffAbsent(cols, required);
  }

  // ---------------------------------------------------------------------------
  // list_symbols
  // ---------------------------------------------------------------------------

  /** Index of the last `c` in `s`, or -1. */
  function LastIndexOf(s: string, c: char): (k: int)
    ensures -1 <= k < |s|
    ensures k >= 0 ==> s[k] == c
    ensures forall j :: k < j < |s| ==> s[j] != c
  {
    if s == [] then -1
    else if s[|s| - 1] == c then |s| - 1
    else LastIndexOf(s[..|s| - 1], c)
  }

  predicate AllDots(s: string)
  {
    forall i :: 0 <= i < |s| ==> s[i] == '.'
  }

  /** `os.path.splitext(p)[0]` for POSIX paths: cut at the last dot when it
      lies in the last path component and something other than dots precedes
      it within that component. */
  function SplitExtRoot(p: string): string
  {
    var sep := LastIndexOf(p, '/');
    var dot := LastIndexOf(p, '.');
    if dot > sep && !AllDots(p[sep + 1..dot]) then p[..dot] else p
  }

  predicate EndsWithCsv(f: string)
  {
    |f| >= 4 && f[|f| - 4..] == ".csv"
  }

  /** The directory entries ending in `.csv`, in listing order. */
  function CsvFiles(names: seq<string>): seq<string>
  {
    if names == [] then []
    else
      var last := names[|names| - 1];
      CsvFiles(names[..|names| - 1]) + (if EndsWithCsv(last) then [last] else [])
  }

  /** `list_symbols`: `dirExists` stands for `os.path.exists(DATA_DIR)` and
      `names` for `os.listdir(DATA_DIR)`. */
  function ListSymbols(dirExists: bool, names: seq<string>): seq<string>
  {
    if !dirExists then []
    else
      var files := CsvFiles(names);
      seq(|files|, i requires 0 <= i < |files| => SplitExtRoot(files[i]))
  }

  /** Exactly the names ending in `.csv` are kept. */
  lemma {:induction false} CsvFilesExact(names: seq<string>)
    ensures forall f :: f in CsvFiles(names) <==> f in names && EndsWithCsv(f)
  {
    if names != [] {
      var init := names[..|names| - 1];
      CsvFilesExact(init);
      assert names == init + [names[|names| - 1]];
    }
  }

  /** For a directory entry ending in `.csv`, the symbol is the name without
      the suffix, except when all that precedes the suffix is dots (as in
      `.csv` itself), where `splitext` keeps the whole name. */
  lemma CsvSymbol(f: string)
    requires EndsWithCsv(f) && EntryName(f)
    ensures SplitExtRoot(f) == if AllDots(f[..|f| - 4]) then f else f[..|f| - 4]
    ensures !AllDots(f[..|f| - 4]) ==> SplitExtRoot(f) + ".csv" == f
  {
    var dot := LastIndexOf(f, '.');
    assert f[|f| - 4] == '.';
    assert dot == |f| - 4 by {
      assert f[|f| - 3..] == "csv";
    }
    assert LastIndexOf(f, '/') == -1;
    assert f[..|f| - 4] + ".csv" == f;
  }

  /** With no data directory there are no symbols. */
  lemma NoDirectoryNoSymbols(names: seq<string>)
    ensures ListSymbols(false, names) == []
  {
  }

  /** A directory entry name: it holds no path separator. */
  predicate EntryName(f: string)
  {
    forall i :: 0 <= i < |f| ==> f[i] != '/'
  }

  /** Every `.csv` entry whose stem is not all dots contributes its stem. */
  lemma ListSymbolsComplete(names: seq<string>, f: string)
    requires f in names && EntryName(f) && EndsWithCsv(f) && !AllDots(f[..|f| - 4])
    ensures f[..|f| - 4] in ListSymbols(true, names)
  {
    var files := CsvFiles(names);
    CsvFilesExact(names);
    var i :| 0 <= i < |files| && files[i] == f;
    CsvSymbol(f);
    assert ListSymbols(true, names)[i] == f[..|f| - 4];
  }

  /** Every symbol is the stem of a `.csv` entry, or a `.csv` entry whose
      stem is all dots. */
  lemma ListSymbolsSound(names: seq<string>, s: string)
    requires forall f :: f in names ==> EntryName(f)
    requires s in ListSymbols(true, names)
    ensures s + ".csv" in names || (s in names && EndsWithCsv(s) && AllDots(s[..|s| - 4]))
  {
    var files := CsvFiles(names);
    var syms := ListSymbols(true, names);
    CsvFilesExact(names);
    var i :| 0 <= i < |syms| && syms[i] == s;
    var f := files[i];
    assert f in files;
    CsvSymbol(f);
  }
}
