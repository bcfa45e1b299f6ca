/** The iterative search driver `search_businesses` of
    business_search_complete.py, with its seen-domain tracker. The search
    service is a function from the full query to the results it returns,
    and `urlparse(url).netloc` is a function from URL to host. */
module SearchDriver {
  import opened Text
  import opened Csv
  import opened Extract
  import opened Sanitize

  /** One entry of `search_response["results"]`: `url` and `raw_content`,
      either of which may be missing. */
  datatype SearchResult = SearchResult(url: Option<string>, rawContent: Option<string>)

  /** Every argument of one `tavily.search` call; `call` numbers the calls
      of a run, so that equal arguments may get different answers. */
  datatype Query = Query(term: string, maxResults: nat, includeRawContent: bool, excludeDomains: set<string>, call: nat)

  /** The collaborators of a run: the search term, the search service and
      URL-to-host parsing. */
  datatype Driver = Driver(term: string, search: Query -> seq<SearchResult>, netloc: string -> string)

  const ITERATIONS: nat := 10
  const MAX_RESULTS: nat := 20
  const NO_EMAIL: string := "No email found"
  const NO_PHONE: string := "No phone found"
  const RESULTS_HEADER: Row := ["URL", "Email", "Phone"]

  /** The file the driver appends to: the sanitised term plus ".csv". */
  function ResultFileName(term: string): (name: string)
    ensures EndsWith(name, ".csv")
    ensures forall i :: 0 <= i < |name| - 4 ==> SafeChar(name[i])
  {
    SanitizedChars(term);
    SanitizeFilename(term) + ".csv"
  }

  /** The host a URL cell contributes to the seen set, "" for none: the
      `if url:` and `if parsed.netloc:` guards. */
  function Host(url: Option<string>, netloc: string -> string): string {
    if url.None? || url.value == [] then "" else netloc(url.value)
  }

  /** Hosts of the URL column of some records. */
  function RecordHosts(header: Row, records: seq<Row>, netloc: string -> string): set<string> {
    set r | r in records && Host(Field(header, r, "URL"), netloc) != "" :: Host(Field(header, r, "URL"), netloc)
  }

  /** The seen-domain seed: empty when no result file exists, else the
      hosts of its URL column. */
  function SeedDomains(file: Option<Table>, netloc: string -> string): set<string> {
    if file.None? then {} else RecordHosts(Header(file.value), Records(file.value), netloc)
  }

  /** The loop that seeds `seen_domains` (and `exclude_domains` in
      business_search.py) from an existing result file. */
  method LoadSeenDomains(file: Option<Table>, netloc: string -> string) returns (seen: set<string>)
    ensures seen == SeedDomains(file, netloc)
  {
    seen := {};
    if file.Some? {
      var header := Header(file.value);
      var records := Records(file.value);
      var i := 0;
      while i < |records|
        invariant 0 <= i <= |records|
        invariant seen == RecordHosts(header, records[..i], netloc)
      {
        var url := Field(header, records[i], "URL");
        if url.Some? && url.value != [] {
          var host := netloc(url.value);
          if host != [] {
            seen := seen + {host};
          }
        }
        assert records[..i + 1] == records[..i] + [records[i]];
        i := i + 1;
      }
      assert records[..i] == records;
    }
  }

  /** Hosts of the URLs of some search results. */
  function ResultHosts(results: seq<SearchResult>, netloc: string -> string): set<string> {
    set r | r in results && Host(r.url, netloc) != "" :: Host(r.url, netloc)
  }

  /** The query of iteration `i`, excluding the domains seen so far. */
  function IterationQuery(term: string, seen: set<string>, i: nat): Query {
    Query(term, MAX_RESULTS, true, seen, i)
  }

  /** The seen-domain set after `n` iterations. */
  function SeenAfter(d: Driver, seed: set<string>, n: nat): set<string>
    decreases n, 0
  {
    if n == 0 then seed
    else SeenAfter(d, seed, n - 1) + ResultHosts(Response(d, seed, n - 1), d.netloc)
  }

  /** The answer to the query of iteration `i`. */
  function Response(d: Driver, seed: set<string>, i: nat): seq<SearchResult>
    decreases i, 1
  {
    d.search(IterationQuery(d.term, SeenAfter(d, seed, i), i))
  }

  /** The CSV cell of an optional value: csv.writer writes None as "". */
  function UrlCell(url: Option<string>): string {
    url.GetOr("")
  }

  function EmailCell(email: Option<string>): string {
    email.GetOr(NO_EMAIL)
  }

  function PhoneCell(phone: Option<string>): string {
    phone.GetOr(NO_PHONE)
  }

  function ResultRow(r: SearchResult): Row {
    [UrlCell(r.url), EmailCell(ExtractEmail(r.rawContent)), PhoneCell(ExtractPhone(r.rawContent))]
  }

  function ResultRows(results: seq<SearchResult>): seq<Row> {
    seq(|results|, i requires 0 <= i < |results| => ResultRow(results[i]))
  }

  /** The data rows appended during the first `n` iterations. */
  function RowsAfter(d: Driver, seed: set<string>, n: nat): seq<Row> {
    if n == 0 then [] else RowsAfter(d, seed, n - 1) + ResultRows(Response(d, seed, n - 1))
  }

  /** `search_businesses`: seeds the seen set from the existing file, then
      runs ten searches, each excluding every domain seen so far. `file` is
      the file named `filename`. Returns that name, the queries it sent and
      the final seen set. */
  method SearchBusinesses(d: Driver, file: CsvFile) returns (filename: string, queries: seq<Query>, seen: set<string>)
    requires file.Valid()
    modifies file
    ensures filename == ResultFileName(d.term)
    ensures file.Valid()
    ensures var seed := SeedDomains(old(file.Snapshot()), d.netloc);
      && |queries| == ITERATIONS
      && (forall i :: 0 <= i < ITERATIONS ==> queries[i] == IterationQuery(d.term, SeenAfter(d, seed, i), i))
      && seen == SeenAfter(d, seed, ITERATIONS)
      && file.rows == old(file.rows) + (if old(file.rows) == [] then [RESULTS_HEADER] else []) + RowsAfter(d, seed, ITERATIONS)
  {
    filename := ResultFileName(d.term);
    var seed := LoadSeenDomains(file.Snapshot(), d.netloc);
    queries, seen := RunIterations(d, file, seed);
  }

  /** The ten iterations of `search_businesses` from a given seed. */
  method RunIterations(d: Driver, file: CsvFile, seed: set<string>) returns (queries: seq<Query>, seen: set<string>)
    requires file.Valid()
    modifies file
    ensures file.Valid()
    ensures |queries| == ITERATIONS
    ensures forall i :: 0 <= i < ITERATIONS ==> queries[i] == IterationQuery(d.term, SeenAfter(d, seed, i), i)
    ensures seen == SeenAfter(d, seed, ITERATIONS)
    ensures file.rows == old(file.rows) + (if old(file.rows) == [] then [RESULTS_HEADER] else []) + RowsAfter(d, seed, ITERATIONS)
  {
    ghost var before := file.rows;
    ghost var header: seq<Row> := if before == [] then [RESULTS_HEADER] else [];
    seen := seed;
    queries := [];
    var i := 0;
    while i < ITERATIONS
      invariant 0 <= i <= ITERATIONS
      invariant queries == QueriesUpTo(d, seed, i)
      invariant seen == SeenAfter(d, seed, i)
      invariant file.Valid()
      invariant file.rows == before + (if i > 0 then header else []) + RowsAfter(d, seed, i)
    {
      ghost var rowsBefore := file.rows;
      var query;
      query, seen := Iteration(d, file, seed, i, seen);
      IterationStep(d, seed, i, Response(d, seed, i), before, header, rowsBefore, file.rows);
      queries := queries + [query];
      i := i + 1;
    }
    QueriesUpToSpec(d, seed, ITERATIONS);
  }

  /** The queries of the first `n` iterations. */
  function QueriesUpTo(d: Driver, seed: set<string>, n: nat): seq<Query> {
    if n == 0 then [] else QueriesUpTo(d, seed, n - 1) + [IterationQuery(d.term, SeenAfter(d, seed, n - 1), n - 1)]
  }

  lemma {:induction false} QueriesUpToSpec(d: Driver, seed: set<string>, n: nat)
    ensures |QueriesUpTo(d, seed, n)| == n
    ensures forall i :: 0 <= i < n ==> QueriesUpTo(d, seed, n)[i] == IterationQuery(d.term, SeenAfter(d, seed, i), i)
  {
    if n > 0 {
      QueriesUpToSpec(d, seed, n - 1);
    }
  }

  /** Iteration `i` of the loop: one search excluding the domains seen so
      far, whose results are written out and whose hosts are added. */
  method Iteration(d: Driver, file: CsvFile, seed: set<string>, i: nat, seen: set<string>)
    returns (query: Query, seen': set<string>)
    requires file.Valid() && seen == SeenAfter(d, seed, i)
    modifies file
    ensures file.Valid()
    ensures query == IterationQuery(d.term, SeenAfter(d, seed, i), i)
    ensures seen' == SeenAfter(d, seed, i + 1)
    ensures file.rows == old(file.rows) + (if old(file.rows) == [] then [RESULTS_HEADER] else []) + ResultRows(Response(d, seed, i))
  {
    query := IterationQuery(d.term, seen, i);
    var response := d.search(query);
    seen' := WriteResults(file, response, d.netloc, seen);
  }

  /** How one iteration moves the loop state of RunIterations forward. */
  lemma IterationStep(d: Driver, seed: set<string>, i: nat, response: seq<SearchResult>,
                      before: seq<Row>, header: seq<Row>, rowsBefore: seq<Row>, rowsAfter: seq<Row>)
    requires response == Response(d, seed, i)
    requires header == if before == [] then [RESULTS_HEADER] else []
    requires rowsBefore == before + (if i > 0 then header else []) + RowsAfter(d, seed, i)
    requires rowsAfter == rowsBefore + (if rowsBefore == [] then [RESULTS_HEADER] else []) + ResultRows(response)
    ensures rowsAfter == before + header + RowsAfter(d, seed, i + 1)
  {
    assert RowsAfter(d, seed, i + 1) == RowsAfter(d, seed, i) + ResultRows(response);
    if i == 0 {
      assert RowsAfter(d, seed, 0) == [];
    }
  }

  /** One iteration's `with open(filename, mode="a")` block: a header when
      the file is empty, then one row per result, adding each result's host
      to the seen set. */
  method WriteResults(file: CsvFile, response: seq<SearchResult>, netloc: string -> string, seen: set<string>)
    returns (seen': set<string>)
    requires file.Valid()
    modifies file
    ensures file.Valid()
    ensures seen' == seen + ResultHosts(response, netloc)
    ensures file.rows == old(file.rows) + (if old(file.rows) == [] then [RESULTS_HEADER] else []) + ResultRows(response)
  {
    if file.IsEmpty() {
      file.Append(RESULTS_HEADER);
    }
    ghost var rowsBefore := file.rows;
    seen' := seen;
    var k := 0;
    while k < |response|
      invariant 0 <= k <= |response|
      invariant seen' == seen + ResultHosts(response[..k], netloc)
      invariant file.Valid()
      invariant file.rows == rowsBefore + ResultRows(response[..k])
    {
      var result := response[k];
      var email := ExtractEmail(result.rawContent);
      var phone := ExtractPhone(result.rawContent);
      if result.url.Some? && result.url.value != [] {
        var host := netloc(result.url.value);
        if host != [] {
          seen' := seen' + {host};
        }
      }
      file.Append([UrlCell(result.url), EmailCell(email), PhoneCell(phone)]);
      assert response[..k + 1] == response[..k] + [response[k]];
      assert ResultRows(response[..k + 1]) == ResultRows(response[..k]) + [ResultRow(response[k])];
      k := k + 1;
    }
    assert response[..k] == response;
  }

  /** The seen set only grows: every later exclusion list contains every
      earlier one. */
  lemma {:induction false} SeenGrows(d: Driver, seed: set<string>, i: nat, j: nat)
    requires i <= j
    ensures SeenAfter(d, seed, i) <= SeenAfter(d, seed, j)
    decreases j
  {
    if i < j {
      SeenGrows(d, seed, i, j - 1);
    }
  }

  /** `host` was reported by one of the first `n` responses. */
  ghost predicate ReportedBefore(d: Driver, seed: set<string>, n: nat, host: string) {
    exists i: nat :: i < n && host in ResultHosts(Response(d, seed, i), d.netloc)
  }

  /** The domains seen after `n` iterations are exactly the seeded ones
      and the hosts of the first `n` responses. */
  lemma {:induction false} SeenAfterExact(d: Driver, seed: set<string>, n: nat, host: string)
    ensures host in SeenAfter(d, seed, n) <==> host in seed || ReportedBefore(d, seed, n, host)
  {
    if n > 0 {
      SeenAfterExact(d, seed, n - 1, host);
      var last := ResultHosts(Response(d, seed, n - 1), d.netloc);
      assert SeenAfter(d, seed, n) == SeenAfter(d, seed, n - 1) + last;
      if host in last {
        assert n - 1 < n;
      }
      if ReportedBefore(d, seed, n - 1, host) {
        var i: nat :| i < n - 1 && host in ResultHosts(Response(d, seed, i), d.netloc);
        assert i < n;
      }
      if ReportedBefore(d, seed, n, host) {
        var i: nat :| i < n && host in ResultHosts(Response(d, seed, i), d.netloc);
        if i < n - 1 {
          assert ReportedBefore(d, seed, n - 1, host);
        } else {
          assert host in last;
        }
      }
    }
  }

  /** What the scripts write in the Email column is the placeholder
      exactly when no email was found, and otherwise an email that the
      mergers keep as it stands. */
  lemma EmailCellMergeable(text: Option<string>)
    ensures var cell := EmailCell(ExtractEmail(text));
      && (cell == NO_EMAIL <==> ExtractEmail(text).None?)
      && (cell != NO_EMAIL ==> Strip(cell) == cell && IsValidEmail(cell))
  {
    if ExtractEmail(text).Some? {
      var e := ExtractEmail(text).value;
      ExtractedEmailPassesMerge(text);
      assert IsValidEmail(e);
      SentinelIsNotEmail();
    }
  }

  /** Every result gives one row, in result order, with the three columns
      of the header: its URL ("" when missing), the placeholder exactly
      when no email was found and otherwise an email the mergers keep as
      it stands, and the phone found or the phone placeholder. */
  lemma ResultRowsShape(results: seq<SearchResult>)
    ensures |ResultRows(results)| == |results|
    ensures forall k :: 0 <= k < |ResultRows(results)| ==>
      var row := ResultRows(results)[k];
      |row| == |RESULTS_HEADER| && (row[1] == NO_EMAIL || (Strip(row[1]) == row[1] && IsValidEmail(row[1])))
    ensures forall k :: 0 <= k < |results| ==>
      var row, raw := ResultRows(results)[k], results[k].rawContent;
      && row[0] == results[k].url.GetOr("")
      && (row[1] == NO_EMAIL <==> ExtractEmail(raw).None?)
      && (ExtractPhone(raw).Some? ==> row[2] == ExtractPhone(raw).value)
      && (ExtractPhone(raw).None? ==> row[2] == NO_PHONE)
  {
    forall k | 0 <= k < |results|
      ensures var row := ResultRow(results[k]);
        && (row[1] == NO_EMAIL <==> ExtractEmail(results[k].rawContent).None?)
        && (row[1] == NO_EMAIL || (Strip(row[1]) == row[1] && IsValidEmail(row[1])))
    {
      EmailCellMergeable(results[k].rawContent);
    }
  }

  /** The same for everything appended by the first `n` iterations. */
  lemma {:induction false} RowsAfterShape(d: Driver, seed: set<string>, n: nat)
    ensures forall k :: 0 <= k < |RowsAfter(d, seed, n)| ==>
      var row := RowsAfter(d, seed, n)[k];
      |row| == |RESULTS_HEADER| && (row[1] == NO_EMAIL || (Strip(row[1]) == row[1] && IsValidEmail(row[1])))
  {
    if n > 0 {
      RowsAfterShape(d, seed, n - 1);
      ResultRowsShape(Response(d, seed, n - 1));
    }
  }

  lemma RecordHostsAppend(header: Row, a: seq<Row>, b: seq<Row>, netloc: string -> string)
    ensures RecordHosts(header, a + b, netloc) == RecordHosts(header, a, netloc) + RecordHosts(header, b, netloc)
  {
  }

  lemma ResultsHeaderUrl()
    ensures LastIndex(RESULTS_HEADER, "URL") == Some(0)
  {
    assert RESULTS_HEADER[..2] == ["URL", "Email"];
    assert RESULTS_HEADER[..1] == ["URL"];
  }

  /** Read back through its URL column, the rows written for some results
      give exactly the hosts of those results. */
  lemma ResultRowsHosts(results: seq<SearchResult>, netloc: string -> string)
    ensures RecordHosts(RESULTS_HEADER, ResultRows(results), netloc) == ResultHosts(results, netloc)
  {
    ResultsHeaderUrl();
    var rows := ResultRows(results);
    forall h | h in RecordHosts(RESULTS_HEADER, rows, netloc) ensures h in ResultHosts(results, netloc) {
      var row :| row in rows && Host(Field(RESULTS_HEADER, row, "URL"), netloc) != "" && Host(Field(RESULTS_HEADER, row, "URL"), netloc) == h;
      var i :| 0 <= i < |rows| && rows[i] == row;
      assert Field(RESULTS_HEADER, row, "URL") == Some(UrlCell(results[i].url));
      assert results[i] in results;
    }
    forall h | h in ResultHosts(results, netloc) ensures h in RecordHosts(RESULTS_HEADER, rows, netloc) {
      var r :| r in results && Host(r.url, netloc) != "" && Host(r.url, netloc) == h;
      var i :| 0 <= i < |results| && results[i] == r;
      assert Field(RESULTS_HEADER, rows[i], "URL") == Some(UrlCell(r.url));
      assert rows[i] in rows;
    }
  }

  /** The hosts in the URL column of everything appended by the first `n`
      iterations, with the seed, make up the seen set. */
  lemma {:induction false} RowsAfterHosts(d: Driver, seed: set<string>, n: nat)
    ensures seed + RecordHosts(RESULTS_HEADER, RowsAfter(d, seed, n), d.netloc) == SeenAfter(d, seed, n)
  {
    if n > 0 {
      RowsAfterHosts(d, seed, n - 1);
      HostsStep(seed, RowsAfter(d, seed, n - 1), Response(d, seed, n - 1), d.netloc, SeenAfter(d, seed, n - 1));
    }
  }

  /** One iteration of RowsAfterHosts, apart from the driver's recursion. */
  lemma HostsStep(seed: set<string>, earlier: seq<Row>, response: seq<SearchResult>, netloc: string -> string, seen: set<string>)
    requires seed + RecordHosts(RESULTS_HEADER, earlier, netloc) == seen
    ensures seed + RecordHosts(RESULTS_HEADER, earlier + ResultRows(response), netloc) == seen + ResultHosts(response, netloc)
  {
    RecordHostsAppend(RESULTS_HEADER, earlier, ResultRows(response), netloc);
    ResultRowsHosts(response, netloc);
  }

  /** The rows appended by the driver are never blank, so a reader sees
      all of them. */
  lemma RowsAfterNonBlank(d: Driver, seed: set<string>, n: nat)
    ensures NonBlank(RowsAfter(d, seed, n)) == RowsAfter(d, seed, n)
  {
    RowsAfterShape(d, seed, n);
  }

  /** The seed loaded from a table that starts with the driver's header. */
  lemma SeedOfDriverTable(rows0: Table, added: seq<Row>, netloc: string -> string)
    requires rows0 != [] && Header(rows0) == RESULTS_HEADER && NonBlank(added) == added
    ensures SeedDomains(Some(rows0 + [] + added), netloc) ==
      SeedDomains(Some(rows0), netloc) + RecordHosts(RESULTS_HEADER, added, netloc)
  {
    var table := rows0 + [] + added;
    AppendedTable(rows0, added);
    RecordHostsAppend(RESULTS_HEADER, Records(rows0), added, netloc);
    calc {
      SeedDomains(Some(table), netloc);
      RecordHosts(Header(table), Records(table), netloc);
      RecordHosts(RESULTS_HEADER, Records(rows0) + added, netloc);
    }
  }

  /** Appending non-blank rows to a non-empty table keeps its header and
      extends its records by exactly those rows. */
  lemma AppendedTable(rows0: Table, added: seq<Row>)
    requires rows0 != [] && NonBlank(added) == added
    ensures Header(rows0 + [] + added) == Header(rows0)
    ensures Records(rows0 + [] + added) == Records(rows0) + added
  {
    var table := rows0 + [] + added;
    assert Header(table) == Header(rows0) by {
      assert table[0] == rows0[0];
    }
    assert table[1..] == rows0[1..] + added;
    assert Records(table) == NonBlank(rows0[1..] + added);
    assert NonBlank(rows0[1..] + added) == NonBlank(rows0[1..]) + added by {
      NonBlankAppend(rows0[1..], added);
    }
  }

  /** A run's final seen set is the seed the next run loads from the same
      file, when the file was absent or empty or was written by the driver
      (its header is URL,Email,Phone). */
  lemma NextRunSeed(d: Driver, before: Option<Table>, n: nat)
    requires before.None? || before.value == [] || Header(before.value) == RESULTS_HEADER
    ensures var seed := SeedDomains(before, d.netloc);
      var rows0 := before.GetOr([]);
      SeedDomains(Some(rows0 + (if rows0 == [] then [RESULTS_HEADER] else []) + RowsAfter(d, seed, n)), d.netloc)
        == SeenAfter(d, seed, n)
  {
    var seed := SeedDomains(before, d.netloc);
    var rows0 := before.GetOr([]);
    RowsAfterNonBlank(d, seed, n);
    RowsAfterHosts(d, seed, n);
    if rows0 == [] {
      assert seed == {};
      SeedOfNewFile(RowsAfter(d, seed, n), d.netloc);
    } else {
      assert before == Some(rows0);
      SeedOfDriverTable(rows0, RowsAfter(d, seed, n), d.netloc);
    }
  }

  /** The seed loaded from a file the driver created. */
  lemma SeedOfNewFile(added: seq<Row>, netloc: string -> string)
    requires NonBlank(added) == added
    ensures SeedDomains(Some([] + [RESULTS_HEADER] + added), netloc) == RecordHosts(RESULTS_HEADER, added, netloc)
  {
    assert ([] + [RESULTS_HEADER] + added)[1..] == added;
  }
}
