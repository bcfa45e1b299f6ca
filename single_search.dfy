/** The script business_search.py: one search for a fixed term that
    excludes every domain already listed in results.csv, and one appended
    row (URL, Email) per result. The search service and URL-to-host parsing
    are parameters, as in SearchDriver. */
module SingleSearch {
  import opened Text
  import opened Csv
  import opened Extract
  import opened SearchDriver

  const QUERY_TERM: string := "breast cancer new york city contact email"
  const QUERY_MAX_RESULTS: nat := 3
  const OUTPUT_HEADER: Row := ["URL", "Email"]

  function EmailRow(r: SearchResult): Row {
    [UrlCell(r.url), EmailCell(ExtractEmail(r.rawContent))]
  }

  function EmailRows(results: seq<SearchResult>): seq<Row> {
    seq(|results|, i requires 0 <= i < |results| => EmailRow(results[i]))
  }

  /** The whole script: seeds the exclusion set from results.csv, sends the
      one query, and appends the rows. Returns the query it sent. */
  method RunScript(file: CsvFile, search: Query -> seq<SearchResult>, netloc: string -> string) returns (query: Query)
    requires file.Valid()
    modifies file
    ensures query == Query(QUERY_TERM, QUERY_MAX_RESULTS, true, SeedDomains(old(file.Snapshot()), netloc), 0)
    ensures file.Valid()
    ensures file.rows == old(file.rows) + (if old(file.rows) == [] then [OUTPUT_HEADER] else []) + EmailRows(search(query))
  {
    var excludeDomains := LoadSeenDomains(file.Snapshot(), netloc);
    query := Query(QUERY_TERM, QUERY_MAX_RESULTS, true, excludeDomains, 0);
    var response := search(query);
    AppendEmailRows(file, response);
  }

  /** The `with open("results.csv", mode="a")` block: a header when the file
      is empty, then one row per result, in order. */
  method AppendEmailRows(file: CsvFile, response: seq<SearchResult>)
    requires file.Valid()
    modifies file
    ensures file.Valid()
    ensures file.rows == old(file.rows) + (if old(file.rows) == [] then [OUTPUT_HEADER] else []) + EmailRows(response)
  {
    if file.IsEmpty() {
      file.Append(OUTPUT_HEADER);
    }
    ghost var rowsBefore := file.rows;
    var k := 0;
    while k < |response|
      invariant 0 <= k <= |response|
      invariant file.Valid()
      invariant file.rows == rowsBefore + EmailRows(response[..k])
    {
      var result := response[k];
      var email := ExtractEmail(result.rawContent);
      file.Append([UrlCell(result.url), EmailCell(email)]);
      assert EmailRows(response[..k + 1]) == EmailRows(response[..k]) + [EmailRow(response[k])];
      k := k + 1;
    }
    assert response[..k] == response;
  }

  /** Each result gives one two-column row, in result order, whose URL cell
      is the result's URL ("" when missing) and whose Email cell is the
      placeholder or an email found in the result's text. */
  lemma EmailRowsShape(results: seq<SearchResult>)
    ensures |EmailRows(results)| == |results|
    ensures forall k :: 0 <= k < |results| ==>
      var row := EmailRows(results)[k];
      && |row| == |OUTPUT_HEADER|
      && row[0] == results[k].url.GetOr("")
      && (row[1] == NO_EMAIL <==> ExtractEmail(results[k].rawContent).None?)
      && (row[1] != NO_EMAIL ==> IsValidEmail(row[1]) && Strip(row[1]) == row[1])
  {
    forall k | 0 <= k < |results|
      ensures var row := EmailRows(results)[k];
        && (row[1] == NO_EMAIL <==> ExtractEmail(results[k].rawContent).None?)
        && (row[1] != NO_EMAIL ==> IsValidEmail(row[1]) && Strip(row[1]) == row[1])
    {
      EmailCellMergeable(results[k].rawContent);
    }
  }
}
