/** The filing client: a company's filing index is read from the EDGAR
    company search, page by page; a ticker is resolved to the company's
    CIK from the first page; the filings table is cleaned and every
    filing gets the URL of its full-text document.

    The network is the function `fetch(url, query)`, which gives the text
    of the page the search answers for that query; the HTML table parser
    is the function `lastTable(page)`, which gives the rows of the last
    table of a page. */
module Edgar {
  import opened Results
  import opened PyStr
  import opened Frames

  const SearchUrl := "http://www.sec.gov/cgi-bin/browse-edgar"
  const ArchiveUrl := "https://www.sec.gov/Archives/edgar/data/"
  const Action := "getcompany"

  /** The iteration ceiling of the pagination loop. */
  const MaxPages: nat := 1000000
  /** Rows per result page, the most the site returns. */
  const PageLimit: nat := 100
  /** The text counted on a page as a proxy for its number of rows. */
  const CheckStr := "Acc-no"
  /** The text that separates a filing's description from its accession number. */
  const AccMarker := "Acc-no:"

  // ---------------------------------------------------------------- query

  /** A value of the request parameter dictionary. */
  datatype Value = Text(s: string) | Number(n: int) | Null

  type Query = map<string, Value>

  /** The search: the text of the page answered for a URL and its parameters. */
  type Fetch = (string, Query) -> string

  function OptText(v: Option<string>): Value
  {
    match v
    case None => Null
    case Some(s) => Text(s)
  }

  /** The parameter dictionary built by the constructor. */
  function InitialQuery(cik: string, owner: string, form: Option<string>, maxDate: Option<string>): (q: Query)
    ensures q.Keys == {"CIK", "action", "owner", "dateb", "type"}
    ensures q["CIK"] == Text(cik) && q["action"] == Text(Action) && q["owner"] == Text(owner)
    ensures q["dateb"] == OptText(maxDate) && q["type"] == OptText(form)
  {
    map["CIK" := Text(cik), "action" := Text(Action), "owner" := Text(owner),
        "dateb" := OptText(maxDate), "type" := OptText(form)]
  }

  /** The parameters sent with the request for page `i`. */
  function QueryAt(base: Query, i: nat): Query
  {
    base["count" := Number(PageLimit)]["start" := Number(i * PageLimit)]
  }

  /** The request for page `i` asks for 100 rows from offset `i * 100`,
      and leaves every other parameter as it was. */
  lemma QueryAtSpec(base: Query, i: nat)
    ensures var q := QueryAt(base, i);
      && q.Keys == base.Keys + {"count", "start"}
      && q["count"] == Number(PageLimit) && q["start"] == Number(i * PageLimit)
      && forall k :: k in base && k != "count" && k != "start" ==> q[k] == base[k]
  {
  }

  /** The parameter dictionary once `n` pages have been requested. */
  function AfterPaging(base: Query, n: nat): Query
  {
    if n == 0 then base["count" := Number(PageLimit)] else QueryAt(base, n - 1)
  }

  /** After the loop the dictionary holds `count` = 100 and the offset of the
      last page requested in `start`; every other key is as it was. */
  lemma AfterPagingSpec(base: Query, n: nat)
    ensures var q := AfterPaging(base, n);
      && "count" in q && q["count"] == Number(PageLimit)
      && (n > 0 ==> q.Keys == base.Keys + {"count", "start"} && q["start"] == Number((n - 1) * PageLimit))
      && (n == 0 ==> q.Keys == base.Keys + {"count"} && ("start" in base ==> q["start"] == base["start"]))
      && forall k :: k in base && k != "count" && k != "start" ==> q[k] == base[k]
  {
  }

  /** Paging leaves every parameter but `count` and `start` as it was. */
  lemma AfterPagingKeeps(base: Query, n: nat, k: string)
    requires k in base && k != "count" && k != "start"
    ensures k in AfterPaging(base, n) && AfterPaging(base, n)[k] == base[k]
  {
  }

  /** Writing the offset of page `i` turns the dictionary into the request
      for page `i`. */
  lemma StartUpdate(base: Query, i: nat)
    ensures AfterPaging(base, i)["start" := Number(i * PageLimit)] == QueryAt(base, i)
  {
  }

  lemma AppendAssoc(a: seq<string>, x: string, b: seq<string>)
    ensures (a + [x]) + b == a + ([x] + b)
  {
  }

  /** A page is full when it shows at least 100 rows: the loop goes on. */
  predicate Full(page: string)
  {
    Count(page, CheckStr) >= PageLimit
  }

  // ---------------------------------------------------------------- pagination

  /** The pages the search loop collects from page `i` on, when it may make
      at most `fuel` requests in all. */
  function PagesFrom(fetch: Fetch, url: string, base: Query, i: nat, fuel: nat): seq<string>
    decreases fuel - i
  {
    if i >= fuel then []
    else
      var page := fetch(url, QueryAt(base, i));
      if !Full(page) then [page]
      else [page] + PagesFrom(fetch, url, base, i + 1, fuel)
  }

  /** All the pages the search loop collects. */
  function Pages(fetch: Fetch, url: string, base: Query, fuel: nat): seq<string>
  {
    PagesFrom(fetch, url, base, 0, fuel)
  }

  /** One step of the loop: page `i` is requested, and the loop goes on
      only when it is full. */
  lemma PagesFromStep(fetch: Fetch, url: string, base: Query, i: nat, fuel: nat)
    requires i < fuel
    ensures var page := fetch(url, QueryAt(base, i));
      PagesFrom(fetch, url, base, i, fuel) ==
        [page] + (if Full(page) then PagesFrom(fetch, url, base, i + 1, fuel) else [])
  {
  }

  /** The loop makes a request unless the ceiling is reached, and never
      more requests than the ceiling allows. */
  lemma {:induction false} PagesFromLength(fetch: Fetch, url: string, base: Query, i: nat, fuel: nat)
    decreases fuel - i
    ensures var r := PagesFrom(fetch, url, base, i, fuel);
      && (r == [] <==> fuel <= i)
      && (r != [] ==> i + |r| <= fuel)
  {
    if i < fuel {
      PagesFromStep(fetch, url, base, i, fuel);
      PagesFromLength(fetch, url, base, i + 1, fuel);
    }
  }

  /** Page `k` of the result is the answer to the request for offset
      `(i + k) * 100`, in that order. */
  lemma {:induction false} PagesFromRequests(fetch: Fetch, url: string, base: Query, i: nat, fuel: nat)
    decreases fuel - i
    ensures var r := PagesFrom(fetch, url, base, i, fuel);
      forall k :: 0 <= k < |r| ==> r[k] == fetch(url, QueryAt(base, i + k))
  {
    if i < fuel {
      PagesFromStep(fetch, url, base, i, fuel);
      PagesFromRequests(fetch, url, base, i + 1, fuel);
      var r := PagesFrom(fetch, url, base, i, fuel);
      var rest := PagesFrom(fetch, url, base, i + 1, fuel);
      assert forall k :: 1 <= k < |r| ==> r[k] == rest[k - 1];
    }
  }

  /** Every page but the last is full, and the last one is short unless
      the ceiling was reached. */
  lemma {:induction false} PagesFromStops(fetch: Fetch, url: string, base: Query, i: nat, fuel: nat)
    decreases fuel - i
    ensures var r := PagesFrom(fetch, url, base, i, fuel);
      && (forall k :: 0 <= k < |r| - 1 ==> Full(r[k]))
      && (r != [] ==> !Full(r[|r| - 1]) || i + |r| == fuel)
  {
    if i < fuel {
      PagesFromStep(fetch, url, base, i, fuel);
      PagesFromStops(fetch, url, base, i + 1, fuel);
      PagesFromLength(fetch, url, base, i + 1, fuel);
      var r := PagesFrom(fetch, url, base, i, fuel);
      var rest := PagesFrom(fetch, url, base, i + 1, fuel);
      assert forall k :: 1 <= k < |r| ==> r[k] == rest[k - 1];
    }
  }

  /** With any fuel at all, the first page is always requested. */
  lemma PagesNonEmpty(fetch: Fetch, url: string, base: Query, fuel: nat)
    requires fuel > 0
    ensures |Pages(fetch, url, base, fuel)| >= 1
  {
  }

  lemma PagesShape(fetch: Fetch, url: string, base: Query, fuel: nat)
    requires fuel > 0
    ensures var r := Pages(fetch, url, base, fuel);
      && 1 <= |r| <= fuel
      && (forall k :: 0 <= k < |r| ==> r[k] == fetch(url, QueryAt(base, k)))
      && (forall k :: 0 <= k < |r| - 1 ==> Full(r[k]))
      && (!Full(r[|r| - 1]) || |r| == fuel)
  {
    PagesFromLength(fetch, url, base, 0, fuel);
    PagesFromRequests(fetch, url, base, 0, fuel);
    PagesFromStops(fetch, url, base, 0, fuel);
  }

  /** Those properties fix the pages: any sequence of answers with that
      shape is exactly what the loop collects. */
  lemma {:induction false} PagesFromUnique(fetch: Fetch, url: string, base: Query, i: nat, fuel: nat, r: seq<string>)
    requires i < fuel && r != [] && i + |r| <= fuel
    requires forall k :: 0 <= k < |r| ==> r[k] == fetch(url, QueryAt(base, i + k))
    requires forall k :: 0 <= k < |r| - 1 ==> Full(r[k])
    requires !Full(r[|r| - 1]) || i + |r| == fuel
    decreases fuel - i
    ensures r == PagesFrom(fetch, url, base, i, fuel)
  {
    if |r| > 1 {
      var rest := r[1..];
      forall k | 0 <= k < |rest| ensures rest[k] == fetch(url, QueryAt(base, i + 1 + k)) {
        assert rest[k] == r[k + 1];
      }
      PagesFromUnique(fetch, url, base, i + 1, fuel, rest);
      assert r == [r[0]] + rest;
    } else if i + 1 == fuel {
      assert PagesFrom(fetch, url, base, i + 1, fuel) == [];
    }
  }

  /** When the first short page is page `n` (counting from 0) and the
      ceiling is not reached, exactly n + 1 requests are made. */
  lemma ExactPageCount(fetch: Fetch, url: string, base: Query, fuel: nat, n: nat)
    requires n < fuel
    requires forall k :: 0 <= k < n ==> Full(fetch(url, QueryAt(base, k)))
    requires !Full(fetch(url, QueryAt(base, n)))
    ensures |Pages(fetch, url, base, fuel)| == n + 1
  {
    var r := seq(n + 1, k requires 0 <= k <= n => fetch(url, QueryAt(base, k)));
    PagesFromUnique(fetch, url, base, 0, fuel, r);
  }

  // ---------------------------------------------------------------- ticker to CIK

  /** `page.split('</head>')[0].split('CIK=')[-1].split('&')[0]`. */
  function ExtractCik(page: string): string
  {
    AfterLast(Split(page, "</head>")[0], "CIK=", "&")
  }

  /** The CIK is read from the head of the page, the text before its first
      `</head>` (all of the page when it has none). */
  lemma ExtractCikHead(page: string)
    ensures var head := Split(page, "</head>")[0];
      && IsPrefix(head, page) && !Contains(head, "</head>")
      && (Contains(page, "</head>") ==> IsPrefix(head + "</head>", page))
      && (!Contains(page, "</head>") ==> head == page)
  {
    SplitHead(page, "</head>");
  }

  /** Within the head it is read from the segment after the last `CIK=`:
      that segment ends the head, follows a `CIK=` and holds none; without
      any `CIK=` it is the whole head. */
  lemma ExtractCikSegment(head: string)
    ensures var pieces := Split(head, "CIK="); var seg := pieces[|pieces| - 1];
      && IsSuffix(seg, head) && !Contains(seg, "CIK=")
      && (Contains(head, "CIK=") ==> IsSuffix("CIK=" + seg, head))
      && (!Contains(head, "CIK=") ==> seg == head)
  {
    SplitLast(head, "CIK=");
  }

  /** The CIK is that segment up to its first `&`, or all of it. */
  lemma ExtractCikCut(page: string)
    ensures var pieces := Split(Split(page, "</head>")[0], "CIK=");
      var seg := pieces[|pieces| - 1]; var r := ExtractCik(page);
      && IsPrefix(r, seg) && !Contains(r, "&")
      && (Contains(seg, "&") ==> IsPrefix(r + "&", seg))
      && (!Contains(seg, "&") ==> r == seg)
  {
    var pieces := Split(Split(page, "</head>")[0], "CIK=");
    SplitHead(pieces[|pieces| - 1], "&");
  }

  /** The CIK never holds a `</head>`. */
  lemma ExtractCikClean(page: string)
    ensures !Contains(ExtractCik(page), "</head>")
  {
    var head := Split(page, "</head>")[0];
    SplitHead(page, "</head>");
    AfterLastInside(head, "CIK=", "&", "</head>");
  }

  // ---------------------------------------------------------------- filings table

  /** One cell of a parsed table row: its column header and its text. */
  datatype Cell = Cell(header: string, text: string)

  /** A row of a page's filings table: its Description cell, which holds the
      accession number, and its other cells in column order. */
  datatype RawRow = RawRow(description: string, cells: seq<Cell>)

  /** A row of the cleaned filings table.  `url` is None until the URL
      column is added. */
  datatype Filing = Filing(description: string, accessionNo: string, cells: seq<Cell>, url: Option<string>)

  /** The exception the constructor raises when a Description does not
      yield an accession number (an IndexError in the source). */
  datatype Error =
    | MarkerMissing   // no "Acc-no:" in the Description
    | TokenMissing    // only whitespace between "Acc-no:" and the next one or the end

  /** `d.split('Acc-no:')[1].split()[0].strip()`. */
  function AccessionNo(d: string): Result<string, Error>
  {
    var pieces := Split(d, AccMarker);
    if |pieces| < 2 then Failure(MarkerMissing)
    else
      var words := Words(pieces[1]);
      if words == [] then Failure(TokenMissing) else Success(Strip(words[0]))
  }

  /** `d.split('Acc-no:')[0]`: the Description up to its first `Acc-no:`,
      with its whitespace kept. */
  function Description(d: string): (r: string)
    ensures IsPrefix(r, d) && !Contains(r, AccMarker)
    ensures !Contains(d, AccMarker) ==> r == d
    ensures Contains(d, AccMarker) ==>
      IsPrefix(r + AccMarker, d) && forall j :: 0 <= j < |r| ==> !OccursAt(d, AccMarker, j)
  {
    SplitHead(d, AccMarker);
    var r := Split(d, AccMarker)[0];
    assert IsPrefix(r, d) by {
      if Contains(d, AccMarker) {
        assert d[..|r|] == d[..|r + AccMarker|][..|r|];
      }
    }
    r
  }

  /** The text between the first `Acc-no:` and the next one (or the end):
      `d.split('Acc-no:')[1]`. */
  function AfterMarker(d: string): (r: string)
    requires Contains(d, AccMarker)
    ensures !Contains(r, AccMarker)
  {
    SplitSeveral(d, AccMarker);
    SplitPieces(d, AccMarker);
    Split(d, AccMarker)[1]
  }

  lemma AfterMarkerShape(d: string)
    requires Contains(d, AccMarker)
    ensures exists u :: d == Description(d) + AccMarker + AfterMarker(d) + u && (u == [] || IsPrefix(AccMarker, u))
  {
    var u := SecondPiece(d, AccMarker);
    assert d == Description(d) + AccMarker + AfterMarker(d) + u;
  }

  /** The accession number lambda fails when there is no marker, or when
      only whitespace follows the first marker before the next one or the end. */
  lemma AccessionNoErrors(d: string)
    ensures AccessionNo(d) == Failure(MarkerMissing) <==> !Contains(d, AccMarker)
    ensures AccessionNo(d) == Failure(TokenMissing) <==> Contains(d, AccMarker) && AllSpace(AfterMarker(d))
  {
    SplitSeveral(d, AccMarker);
    if Contains(d, AccMarker) {
      WordsEmpty(AfterMarker(d));
    }
  }

  /** Otherwise the accession number is the first whitespace-separated word
      after the first `Acc-no:`: non-empty, without whitespace, and preceded
      in the Description by the cleaned description, the marker and nothing
      but whitespace. */
  lemma AccessionNoShape(d: string) returns (ws: string, t: string)
    requires AccessionNo(d).Success?
    ensures var a := AccessionNo(d).value;
      && a != [] && NoSpace(a) && !Contains(a, AccMarker)
      && d == Description(d) + AccMarker + ws + a + t
      && AllSpace(ws)
      && (t == [] || IsSpace(t[0]) || IsPrefix(AccMarker, t))
  {
    SplitSeveral(d, AccMarker);
    var a := Words(AfterMarker(d))[0];
    StripWord(a);
    assert AccessionNo(d).value == a;
    ws, t := WordAfter(d, AccMarker);
  }

  /** The description is exactly the text before the first marker: nothing
      is trimmed, so whitespace before `Acc-no:` stays in it. */
  lemma DescriptionUntrimmed(a: string, b: string)
    requires !Contains(a, AccMarker)
    ensures Description(a + AccMarker + b) == a
  {
    var d := a + AccMarker + b;
    var r := Description(d);
    MarkerAfter(a, b);
    if |r| < |a| {
      PrefixOccurs(r, d);
      MarkerNotBefore(a, b, |r|);
    }
    assert d[..|a|] == a;
  }

  /** The marker that follows `a` is an occurrence. */
  lemma MarkerAfter(a: string, b: string)
    ensures OccursAt(a + AccMarker + b, AccMarker, |a|)
  {
    assert (a + AccMarker + b)[|a|..|a| + |AccMarker|] == AccMarker;
  }

  lemma PrefixOccurs(r: string, d: string)
    requires IsPrefix(r + AccMarker, d)
    ensures OccursAt(d, AccMarker, |r|)
  {
    assert d[|r|..|r| + |AccMarker|] == d[..|r| + |AccMarker|][|r|..];
  }

  /** No marker starts inside `a`: one that ends within `a` would be a
      marker of `a`, and one that reaches past it would have to meet the
      `A` that starts the next marker at a place where the marker has
      none. */
  lemma MarkerNotBefore(a: string, b: string, j: nat)
    requires !Contains(a, AccMarker) && j < |a|
    ensures !OccursAt(a + AccMarker + b, AccMarker, j)
  {
    var d := a + AccMarker + b;
    if j + |AccMarker| <= |a| {
      assert d[j..j + |AccMarker|] == a[j..j + |AccMarker|];
      assert !OccursAt(a, AccMarker, j);
    } else {
      assert d[|a|] == 'A';
      assert j + |AccMarker| <= |d| ==> d[j..j + |AccMarker|][|a| - j] == d[|a|];
    }
  }

  /** The converse of `AccessionNoShape`: a Description made of a text
      without the marker, the marker, whitespace, and an accession number
      followed by whitespace or the end yields exactly that number and
      that text. */
  lemma AccessionNoOf(a: string, ws: string, acc: string, t: string)
    requires !Contains(a, AccMarker) && AllSpace(ws)
    requires acc != [] && NoSpace(acc) && !Contains(acc, AccMarker)
    requires t == [] || IsSpace(t[0])
    ensures AccessionNo(a + AccMarker + ws + acc + t) == Success(acc)
    ensures Description(a + AccMarker + ws + acc + t) == a
  {
    var x := ws + acc + t;
    var d := a + AccMarker + x;
    assert a + AccMarker + ws + acc + t == d;
    FirstMarker(a, x);
    SplitStep(d, AccMarker, |a|);
    assert d[|a| + |AccMarker|..] == x;
    var h := Split(x, AccMarker)[0];
    assert Split(d, AccMarker)[1] == h;
    var n := |ws| + |acc|;
    SplitHead(x, AccMarker);
    if Contains(x, AccMarker) && |h| <= n {
      PrefixOccurs(h, x);
      MarkerNotInWord(ws, acc, t, |h|);
    }
    var t' := WordPiece(x, h, ws + acc, t);
    FirstWordOf(ws, acc, t');
    StripWord(acc);
    DescriptionUntrimmed(a, x);
  }

  /** The first marker of `a + "Acc-no:" + x` is the one after `a`. */
  lemma FirstMarker(a: string, x: string)
    requires !Contains(a, AccMarker)
    ensures Find(a + AccMarker + x, AccMarker) == Some(|a|)
  {
    var d := a + AccMarker + x;
    MarkerAfter(a, x);
    FindSpec(d, AccMarker);
    var v := Find(d, AccMarker).value;
    if v < |a| {
      MarkerNotBefore(a, x, v);
    }
  }

  /** A prefix `h` of `p + t` that is at least as long as `p` is `p`
      followed by a prefix of `t`. */
  lemma WordPiece(x: string, h: string, p: string, t: string) returns (t': string)
    requires x == p + t && IsPrefix(h, x) && (|h| > |p| || h == x)
    ensures h == p + t' && (t' == [] || t' [0] == t[0])
  {
    t' := h[|p|..];
    assert h == x[..|h|];
    assert h[..|p|] == p;
    assert h == h[..|p|] + t';
  }

  /** No character of the marker is whitespace. */
  lemma MarkerNoSpace()
    ensures NoSpace(AccMarker)
  {
  }

  /** No marker starts in the whitespace or the word of `ws + acc + t`, nor
      right after them. */
  lemma MarkerNotInWord(ws: string, acc: string, t: string, j: nat)
    requires AllSpace(ws) && NoSpace(acc) && !Contains(acc, AccMarker)
    requires t == [] || IsSpace(t[0])
    requires j <= |ws| + |acc|
    ensures !OccursAt(ws + acc + t, AccMarker, j)
  {
    var x := ws + acc + t;
    var m := |AccMarker|;
    var n := |ws| + |acc|;
    MarkerNoSpace();
    if j < |ws| {
      assert j + m <= |x| ==> x[j..j + m][0] == ws[j];
    } else if j + m <= n {
      assert x[j..j + m] == acc[j - |ws|..j - |ws| + m];
      assert !OccursAt(acc, AccMarker, j - |ws|);
    } else {
      if j + m <= |x| {
        assert t != [] && x[j..j + m][n - j] == t[0];
        assert !IsSpace(AccMarker[n - j]) && IsSpace(t[0]);
      }
    }
  }

  /** The column renames of the cleanup step. */
  const ColumnMap: map<string, string> :=
    map["File/Film Number" := "FilmNo", "Filed/Effective" := "EffectiveDate", "Filing Date" := "FilingDate"]

  function RenameColumn(header: string): string
  {
    if header in ColumnMap then ColumnMap[header] else header
  }

  /** Dropping the Format column and renaming the others. */
  function CleanCells(cells: seq<Cell>): seq<Cell>
  {
    if cells == [] then []
    else if cells[0].header == "Format" then CleanCells(cells[1..])
    else [Cell(RenameColumn(cells[0].header), cells[0].text)] + CleanCells(cells[1..])
  }

  /** No cell is left under Format or under a header that is renamed. */
  lemma {:induction false} CleanCellsHeaders(cells: seq<Cell>)
    ensures forall c :: c in CleanCells(cells) ==>
      c.header !in {"Format", "File/Film Number", "Filed/Effective", "Filing Date"}
  {
    if cells != [] {
      CleanCellsHeaders(cells[1..]);
    }
  }

  /** Every cell left is a renamed cell of the row that was not under Format. */
  lemma {:induction false} CleanCellsFrom(cells: seq<Cell>)
    ensures forall c :: c in CleanCells(cells) ==>
      exists d :: d in cells && d.header != "Format" && c == Cell(RenameColumn(d.header), d.text)
  {
    if cells != [] {
      CleanCellsFrom(cells[1..]);
      assert forall d :: d in cells[1..] ==> d in cells;
    }
  }

  /** Every cell of the row that was not under Format is kept, renamed. */
  lemma {:induction false} CleanCellsKeeps(cells: seq<Cell>)
    ensures forall d :: d in cells && d.header != "Format" ==> Cell(RenameColumn(d.header), d.text) in CleanCells(cells)
  {
    if cells != [] {
      CleanCellsKeeps(cells[1..]);
      assert forall d :: d in cells ==> d == cells[0] || d in cells[1..];
    }
  }

  /** The accession number of one row. */
  function RowAccession(row: RawRow): Result<string, Error>
  {
    AccessionNo(row.description)
  }

  /** `filings.Description.apply(acc_no)`: the accession number of every
      row, in row order, or the error of the first row that has none. */
  function AccessionColumn(rows: seq<RawRow>): Result<seq<string>, Error>
  {
    Apply(RowAccession, rows)
  }

  /** One row after the cleanup, given its accession number. */
  function CleanRow(raw: RawRow, acc: string): Filing
  {
    Filing(Description(raw.description), acc, CleanCells(raw.cells), None)
  }

  /** The page tables, one per search result page. */
  function PageTables(pages: seq<string>, lastTable: string -> seq<RawRow>): (r: seq<seq<RawRow>>)
    ensures |r| == |pages| && forall p :: 0 <= p < |pages| ==> r[p] == lastTable(pages[p])
  {
    seq(|pages|, p requires 0 <= p < |pages| => lastTable(pages[p]))
  }

  /** `_filing_history`: concatenate the page tables, split the accession
      number off the description, clean the columns, reset the index. */
  function FilingHistory(tables: seq<seq<RawRow>>): Result<Table<Filing>, Error>
  {
    var frame := ConcatRows(tables);
    match AccessionColumn(frame.rows)
    case Failure(e) => Failure(e)
    case Success(accs) =>
      Success(Reindex(Table(frame.index,
        seq(|frame.rows|, i requires 0 <= i < |frame.rows| => CleanRow(frame.rows[i], accs[i])))))
  }

  /** The history succeeds exactly when every row of every page has an
      accession number; otherwise the error is that of some row. */
  lemma FilingHistoryFails(tables: seq<seq<RawRow>>)
    ensures FilingHistory(tables).Success? <==>
      forall p, j :: 0 <= p < |tables| && 0 <= j < |tables[p]| ==> AccessionNo(tables[p][j].description).Success?
    ensures FilingHistory(tables).Failure? ==>
      exists p, j :: 0 <= p < |tables| && 0 <= j < |tables[p]| &&
        AccessionNo(tables[p][j].description) == Failure(FilingHistory(tables).error)
  {
    if FilingHistory(tables).Success? {
      forall p, j | 0 <= p < |tables| && 0 <= j < |tables[p]|
        ensures AccessionNo(tables[p][j].description).Success?
      {
        FilingHistoryRow(tables, p, j);
      }
    } else {
      var p, j := FilingHistoryError(tables);
    }
  }

  /** The row whose error a failing history reports. */
  lemma FilingHistoryError(tables: seq<seq<RawRow>>) returns (p: nat, j: nat)
    requires FilingHistory(tables).Failure?
    ensures p < |tables| && j < |tables[p]|
    ensures AccessionNo(tables[p][j].description) == Failure(FilingHistory(tables).error)
    ensures Before(tables, p) + j <= |Flatten(tables)|
    ensures forall k :: 0 <= k < Before(tables, p) + j ==> AccessionNo(Flatten(tables)[k].description).Success?
  {
    var rows := ConcatRows(tables).rows;
    ConcatRowsFlat(tables);
    var i := ApplyErr(RowAccession, rows);
    p, j := FlattenLocate(tables, i);
  }

  /** Row `j` of page `p` is, cleaned and with its accession number, the
      row of `t` at position `Before(tables, p) + j`. */
  predicate RowPlaced(tables: seq<seq<RawRow>>, t: Table<Filing>, p: nat, j: nat)
    requires p < |tables| && j < |tables[p]|
  {
    && Before(tables, p) + j < |t.rows|
    && AccessionNo(tables[p][j].description).Success?
    && t.rows[Before(tables, p) + j] == CleanRow(tables[p][j], AccessionNo(tables[p][j].description).value)
  }

  /** A history that succeeds has one row per page row, page after page and
      row after row, labelled 0 .. n-1, each the cleaned page row with its
      accession number. */
  lemma FilingHistoryRows(tables: seq<seq<RawRow>>)
    requires FilingHistory(tables).Success?
    ensures var t := FilingHistory(tables).value;
      && |t.rows| == TotalLength(tables)
      && |t.index| == |t.rows| && (forall i :: 0 <= i < |t.index| ==> t.index[i] == i)
      && forall p, j :: 0 <= p < |tables| && 0 <= j < |tables[p]| ==> RowPlaced(tables, t, p, j)
  {
    ConcatRowsFlat(tables);
    var t := FilingHistory(tables).value;
    forall p, j | 0 <= p < |tables| && 0 <= j < |tables[p]|
      ensures RowPlaced(tables, t, p, j)
    {
      FilingHistoryRow(tables, p, j);
    }
  }

  lemma FilingHistoryRow(tables: seq<seq<RawRow>>, p: nat, j: nat)
    requires FilingHistory(tables).Success? && p < |tables| && j < |tables[p]|
    ensures RowPlaced(tables, FilingHistory(tables).value, p, j)
  {
    var rows := ConcatRows(tables).rows;
    ConcatRowsFlat(tables);
    FlattenAt(tables, p, j);
    var k := Before(tables, p) + j;
    assert rows[k] == tables[p][j];
    ApplyOk(RowAccession, rows);
    var accs := AccessionColumn(rows).value;
    assert RowAccession(rows[k]) == Success(accs[k]);
  }

  // ---------------------------------------------------------------- document URLs

  /** `archive_url + cik.lstrip('0') + '/' + acc.replace('-', '') + '/' + acc + '.txt'`. */
  function FilingUrl(archive: string, cik: string, acc: string): string
  {
    archive + LStrip(cik, "0") + "/" + Replace(acc, "-", "") + "/" + acc + ".txt"
  }

  /** The URL is the archive base, the CIK without its leading zeros, the
      accession number without its dashes, then the accession number itself
      with `.txt`. */
  lemma FilingUrlSpec(archive: string, cik: string, acc: string)
    ensures var z := LStrip(cik, "0"); var m := Without(acc, '-');
      && FilingUrl(archive, cik, acc) == archive + z + "/" + m + "/" + acc + ".txt"
      && (z == [] || z[0] != '0')
      && IsSuffix(z, cik) && (forall i :: 0 <= i < |cik| - |z| ==> cik[i] == '0')
      && (forall i :: 0 <= i < |m| ==> m[i] != '-')
  {
    ReplaceByNothing(acc, '-');
  }

  /** The URL starts with the archive base and ends with the accession
      number and `.txt`. */
  lemma FilingUrlEnds(archive: string, cik: string, acc: string)
    ensures IsPrefix(archive, FilingUrl(archive, cik, acc))
    ensures IsSuffix(acc + ".txt", FilingUrl(archive, cik, acc))
  {
    var z, m := LStrip(cik, "0"), Replace(acc, "-", "");
    var head := archive + z + "/" + m + "/";
    assert FilingUrl(archive, cik, acc) == head + (acc + ".txt");
    SuffixAppend(head, acc + ".txt");
    assert IsPrefix(archive, archive + z);
    PrefixAppend(archive, archive + z, "/");
    PrefixAppend(archive, archive + z + "/", m);
    PrefixAppend(archive, archive + z + "/" + m, "/");
    PrefixAppend(archive, head, acc);
    PrefixAppend(archive, head + acc, ".txt");
  }

  /** `_add_filing_urls`: the URL column, built from the archive base and the CIK. */
  function WithUrls(t: Table<Filing>, archive: string, cik: string): (r: Table<Filing>)
    ensures r.index == t.index && |r.rows| == |t.rows|
    ensures forall i :: 0 <= i < |t.rows| ==>
      r.rows[i] == t.rows[i].(url := Some(FilingUrl(archive, cik, t.rows[i].accessionNo)))
  {
    t.(rows := seq(|t.rows|, i requires 0 <= i < |t.rows| =>
      t.rows[i].(url := Some(FilingUrl(archive, cik, t.rows[i].accessionNo)))))
  }

  // ---------------------------------------------------------------- the client

  /** The request parameter dictionary, an object shared by reference. */
  class Params {
    var entries: Query

    constructor (m: Query)
      ensures entries == m
    {
      entries := m;
    }

    /** `params.update({key: v})`. */
    method Update(key: string, v: Value)
      modifies this
      ensures entries == old(entries)[key := v]
    {
      entries := entries[key := v];
    }
  }

  class Company {
    const searchUrl: string
    const archiveUrl: string
    const action: string
    var cik: string
    /** The ticker the company was given by, when it was given by one. */
    var ticker: Option<string>
    const owner: string
    const form: Option<string>
    const maxDate: Option<string>
    const params: Params
    var searchResults: seq<string>
    var filings: Table<Filing>
    /** The exception raised while the filings table was built, if any;
        in the source the constructor does not return then. */
    var raised: Option<Error>

    /** Reads all search result pages, resolves a ticker to its CIK, builds
        the filings table and adds the document URLs. */
    constructor (cik: string, fetch: Fetch, lastTable: string -> seq<RawRow>,
                 owner: string := "exclude", form: Option<string> := None, maxDate: Option<string> := None)
      ensures searchUrl == SearchUrl && archiveUrl == ArchiveUrl && action == Action
      ensures this.owner == owner && this.form == form && this.maxDate == maxDate
      ensures fresh(params)
      ensures searchResults == Pages(fetch, SearchUrl, InitialQuery(cik, owner, form, maxDate), MaxPages)
      ensures 1 <= |searchResults|
      ensures IsAlpha(cik) ==> ticker == Some(cik) && this.cik == ExtractCik(searchResults[0])
      ensures !IsAlpha(cik) ==> ticker == None && this.cik == cik
      ensures params.entries ==
        AfterPaging(InitialQuery(cik, owner, form, maxDate), |searchResults|)["CIK" := Text(this.cik)]
      ensures match FilingHistory(PageTables(searchResults, lastTable))
        case Failure(e) => raised == Some(e) && filings == Table([], [])
        case Success(t) => raised == None && filings == WithUrls(t, ArchiveUrl, this.cik)
    {
      searchUrl := SearchUrl;
      archiveUrl := ArchiveUrl;
      action := Action;
      this.cik := cik;
      this.owner := owner;
      this.form := form;
      this.maxDate := maxDate;
      params := new Params(InitialQuery(cik, owner, form, maxDate));
      ticker := None;
      searchResults := [];
      filings := Table([], []);
      raised := None;
      new;
      ghost var q0 := params.entries;
      ghost var sent;
      searchResults, sent := SearchResultsText(fetch, MaxPages);
      PagesNonEmpty(fetch, SearchUrl, q0, MaxPages);
      AfterPagingKeeps(q0, |searchResults|, "CIK");
      ResolveTicker();
      LoadFilings(lastTable);
    }

    /** Lines 57-61 of the constructor: a CIK made of letters only is a
        ticker; the real CIK is read from the first result page and written
        back into the parameter dictionary. */
    method ResolveTicker()
      requires searchResults != []
      requires "CIK" in params.entries && params.entries["CIK"] == Text(cik)
      modifies this`cik, this`ticker, params
      ensures IsAlpha(old(cik)) ==> ticker == Some(old(cik)) && cik == ExtractCik(searchResults[0])
      ensures !IsAlpha(old(cik)) ==> ticker == old(ticker) && cik == old(cik)
      ensures params.entries == old(params.entries)["CIK" := Text(cik)]
    {
      if IsAlpha(cik) {
        ticker := Some(cik);
        cik := GetCik();
        params.Update("CIK", Text(cik));
      } else {
        assert params.entries == params.entries["CIK" := Text(cik)];
      }
    }

    /** Lines 63-67 of the constructor: the filings table, then its URL
        column; an accession number that cannot be read raises instead. */
    method LoadFilings(lastTable: string -> seq<RawRow>)
      requires filings == Table([], []) && raised == None
      modifies this`filings, this`raised
      ensures match FilingHistory(PageTables(searchResults, lastTable))
        case Failure(e) => raised == Some(e) && filings == Table([], [])
        case Success(t) => raised == None && filings == WithUrls(t, archiveUrl, cik)
    {
      var history := FilingHistory(PageTables(searchResults, lastTable));
      match history {
        case Failure(e) =>
          raised := Some(e);
        case Success(t) =>
          filings := t;
          AddFilingUrls();
      }
    }

    /** `_search_results_text`: request page after page, each with the next
        offset written into the shared parameter dictionary, until a page
        has fewer than 100 rows or `maxPages` requests have been made. */
    method SearchResultsText(fetch: Fetch, maxPages: nat) returns (results: seq<string>, ghost sent: seq<Query>)
      modifies params
      ensures results == Pages(fetch, searchUrl, old(params.entries), maxPages)
      ensures params.entries == AfterPaging(old(params.entries), |results|)
      ensures sent == seq(|results|, (k: nat) => QueryAt(old(params.entries), k))
      ensures forall k :: 0 <= k < |results| ==> results[k] == fetch(searchUrl, sent[k])
    {
      ghost var base := params.entries;
      var p := params;  // the same dictionary: every update is seen by the requests
      p.Update("count", Number(PageLimit));
      results, sent := [], [];
      var i := 0;
      while i < maxPages
        invariant i == |results| == |sent| <= maxPages
        invariant sent == seq(i, (k: nat) => QueryAt(base, k))
        invariant forall k :: 0 <= k < i ==> results[k] == fetch(searchUrl, sent[k])
        invariant results + PagesFrom(fetch, searchUrl, base, i, maxPages) == Pages(fetch, searchUrl, base, maxPages)
        invariant params.entries == AfterPaging(base, i)
      {
        p.Update("start", Number(i * PageLimit));
        StartUpdate(base, i);
        var text := fetch(searchUrl, params.entries);
        PagesFromStep(fetch, searchUrl, base, i, maxPages);
        ghost var before := results;
        results := results + [text];
        sent := sent + [params.entries];
        if !Full(text) {
          assert results == before + PagesFrom(fetch, searchUrl, base, i, maxPages);
          break;
        }
        AppendAssoc(before, text, PagesFrom(fetch, searchUrl, base, i + 1, maxPages));
        i := i + 1;
      }
    }

    /** `_get_cik`: the CIK read from the first result page. */
    function GetCik(): (r: string)
      reads this
      requires searchResults != []
      ensures !Contains(r, "&") && !Contains(r, "</head>")
    {
      ExtractCikCut(searchResults[0]);
      ExtractCikClean(searchResults[0]);
      ExtractCik(searchResults[0])
    }

    /** `_add_filing_urls`. */
    method AddFilingUrls()
      modifies this`filings
      ensures filings == WithUrls(old(filings), archiveUrl, cik)
    {
      filings := WithUrls(filings, archiveUrl, cik);
    }
  }
}
