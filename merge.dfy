/** The merge step shared by `merge_and_clean_results` of
    business_search_complete.py and the script merge_clean_stakeholders.py:
    every `.csv` input is read row by row, a row is kept only when its
    stripped Email cell is a valid email, and only the first row of each
    email (compared lower-cased) survives, tagged with its file's name. The
    folder listing is the sequence of (file name, rows) pairs, in listing
    order. */
module Merge {
  import opened Text
  import opened Csv
  import opened Extract
  import SearchDriver

  /** One input row as the merge loop reads it: its stripped URL, Email and
      Phone cells and the name of its file. */
  datatype Candidate = Candidate(source: string, url: string, email: string, phone: string)

  /** One row of the cleaned output. */
  datatype Contact = Contact(url: string, email: string, phone: string, sourceFile: string)

  /** The cell as the source reads it, `row.get(name, "").strip()`: a
      column the file lacks gives "", but csv.DictReader fills the missing
      cells of a short row with None, on which `.strip()` raises; the
      result None stands for that exception. */
  function CellAsWritten(header: Row, row: Row, name: string): (r: Option<string>)
    ensures LastIndex(header, name).None? ==> r == Some("")
    ensures r.None? <==> LastIndex(header, name).Some? && LastIndex(header, name).value >= |row|
  {
    match LastIndex(header, name)
    case None => Some("")
    case Some(j) => if j < |row| then Some(Strip(row[j])) else None
  }

  /** A row shorter than the header stops the merge. */
  lemma ShortRowRaises()
    ensures CellAsWritten(["URL", "Email"], ["https://example.com"], "Email").None?
  {
    assert ["URL", "Email"][..1] == ["URL"];
  }

  /** The cell as the merge model reads it: a missing value of any kind is
      read as "", and the result is stripped. */
  function Cell(header: Row, row: Row, name: string): (r: string)
    ensures Trimmed(r)
  {
    StripEdges(Field(header, row, name).GetOr(""));
    Strip(Field(header, row, name).GetOr(""))
  }

  /** Cell agrees with the source wherever the source does not raise, and
      reads a short row's missing value as "", so that such a row is
      skipped for lack of an email instead of stopping the merge. */
  lemma CellCorrectsShortRows(header: Row, row: Row, name: string)
    ensures CellAsWritten(header, row, name).Some? ==> Cell(header, row, name) == CellAsWritten(header, row, name).value
    ensures CellAsWritten(header, row, name).None? ==> Cell(header, row, name) == ""
  {
  }

  function CandidateOf(name: string, header: Row, row: Row): Candidate {
    Candidate(name, Cell(header, row, "URL"), Cell(header, row, "Email"), Cell(header, row, "Phone"))
  }

  /** The rows of one file, in order. */
  function FileCandidates(name: string, t: Table): seq<Candidate> {
    var records := Records(t);
    seq(|records|, i requires 0 <= i < |records| => CandidateOf(name, Header(t), records[i]))
  }

  /** The rows of every input whose name ends in ".csv", file after file. */
  function Candidates(inputs: seq<(string, Table)>): seq<Candidate>
    decreases |inputs|
  {
    if inputs == [] then []
    else
      var (name, t) := inputs[|inputs| - 1];
      Candidates(inputs[..|inputs| - 1]) + (if EndsWith(name, ".csv") then FileCandidates(name, t) else [])
  }

  /** The guard `if not email or not email_regex.match(email): continue`. */
  predicate Keeps(c: Candidate) {
    c.email != "" && IsValidEmail(c.email)
  }

  /** Emails are compared lower-cased. */
  function Key(c: Candidate): string {
    Lower(c.email)
  }

  /** The output row of a kept candidate; the driver's phone placeholder
      becomes an empty cell. */
  function ToContact(c: Candidate): Contact {
    Contact(c.url, c.email, if c.phone == SearchDriver.NO_PHONE then "" else c.phone, c.source)
  }

  /** The lower-cased valid emails among some candidates. */
  function ValidKeys(cs: seq<Candidate>): set<string> {
    set c | c in cs && Keeps(c) :: Key(c)
  }

  /** The cleaned rows for some candidates: each is kept when it is valid
      and no earlier valid candidate has the same lower-cased email. */
  function Cleaned(cs: seq<Candidate>): seq<Contact>
    decreases |cs|
  {
    if cs == [] then []
    else
      var init, c := cs[..|cs| - 1], cs[|cs| - 1];
      Cleaned(init) + (if Keeps(c) && Key(c) !in ValidKeys(init) then [ToContact(c)] else [])
  }

  /** Appending one candidate moves Cleaned and ValidKeys forward by one
      step of the loop. */
  lemma CleanedSnoc(cs: seq<Candidate>, c: Candidate)
    ensures Cleaned(cs + [c]) == Cleaned(cs) + (if Keeps(c) && Key(c) !in ValidKeys(cs) then [ToContact(c)] else [])
    ensures ValidKeys(cs + [c]) == ValidKeys(cs) + (if Keeps(c) then {Key(c)} else {})
  {
    assert (cs + [c])[..|cs|] == cs;
  }

  /** ValidKeys of a non-empty sequence, from that of its prefix. */
  lemma ValidKeysStep(cs: seq<Candidate>)
    requires cs != []
    ensures ValidKeys(cs) == ValidKeys(cs[..|cs| - 1]) + (if Keeps(cs[|cs| - 1]) then {Key(cs[|cs| - 1])} else {})
  {
    CleanedSnoc(cs[..|cs| - 1], cs[|cs| - 1]);
    assert cs[..|cs| - 1] + [cs[|cs| - 1]] == cs;
  }

  /** The nested loop over files and rows, with `seen_emails` and
      `cleaned_rows`. */
  method CleanContacts(inputs: seq<(string, Table)>) returns (contacts: seq<Contact>)
    ensures contacts == Cleaned(Candidates(inputs))
  {
    var seenEmails: set<string> := {};
    contacts := [];
    var f := 0;
    while f < |inputs|
      invariant 0 <= f <= |inputs|
      invariant seenEmails == ValidKeys(Candidates(inputs[..f]))
      invariant contacts == Cleaned(Candidates(inputs[..f]))
    {
      var (name, table) := inputs[f];
      ghost var done := Candidates(inputs[..f]);
      CandidatesStep(inputs, f);
      if EndsWith(name, ".csv") {
        seenEmails, contacts := CleanFile(name, table, seenEmails, contacts, done);
        assert Candidates(inputs[..f + 1]) == done + FileCandidates(name, table);
      } else {
        assert Candidates(inputs[..f + 1]) == done;
      }
      f := f + 1;
    }
    assert inputs[..f] == inputs;
  }

  /** Candidates of one more input. */
  lemma CandidatesStep(inputs: seq<(string, Table)>, f: nat)
    requires f < |inputs|
    ensures EndsWith(inputs[f].0, ".csv") ==>
      Candidates(inputs[..f + 1]) == Candidates(inputs[..f]) + FileCandidates(inputs[f].0, inputs[f].1)
    ensures !EndsWith(inputs[f].0, ".csv") ==> Candidates(inputs[..f + 1]) == Candidates(inputs[..f])
  {
    assert inputs[..f + 1][..f] == inputs[..f];
  }

  /** The inner loop over the rows of one `.csv` file, continuing from the
      state left by the candidates `done` read before it. */
  method CleanFile(name: string, table: Table, seenEmails: set<string>, contacts: seq<Contact>, ghost done: seq<Candidate>)
    returns (seenEmails': set<string>, contacts': seq<Contact>)
    requires seenEmails == ValidKeys(done) && contacts == Cleaned(done)
    ensures seenEmails' == ValidKeys(done + FileCandidates(name, table))
    ensures contacts' == Cleaned(done + FileCandidates(name, table))
  {
    ghost var rows := FileCandidates(name, table);
    var header := Header(table);
    var records := Records(table);
    seenEmails', contacts' := seenEmails, contacts;
    assert done + rows[..0] == done;
    var r := 0;
    while r < |records|
      invariant 0 <= r <= |records|
      invariant seenEmails' == ValidKeys(done + rows[..r])
      invariant contacts' == Cleaned(done + rows[..r])
    {
      var row := CandidateOf(name, header, records[r]);
      seenEmails', contacts' := CleanRow(row, seenEmails', contacts', done + rows[..r]);
      PrefixStep(done, rows, r);
      r := r + 1;
    }
    assert rows[..r] == rows;
  }

  /** The body of the row loop: the stripped cells are read into `row`,
      which is skipped when its email is missing or invalid or already
      seen, and otherwise recorded. */
  method CleanRow(row: Candidate, seenEmails: set<string>, contacts: seq<Contact>, ghost prefix: seq<Candidate>)
    returns (seenEmails': set<string>, contacts': seq<Contact>)
    requires seenEmails == ValidKeys(prefix) && contacts == Cleaned(prefix)
    ensures seenEmails' == ValidKeys(prefix + [row])
    ensures contacts' == Cleaned(prefix + [row])
  {
    seenEmails', contacts' := seenEmails, contacts;
    CleanedSnoc(prefix, row);
    if row.email != "" && IsValidEmail(row.email) {
      var emailLower := Lower(row.email);
      if emailLower !in seenEmails {
        seenEmails' := seenEmails + {emailLower};
        contacts' := contacts + [Contact(row.url, row.email, if row.phone == SearchDriver.NO_PHONE then "" else row.phone, row.source)];
      }
    }
  }

  lemma PrefixStep<T>(done: seq<T>, rows: seq<T>, r: nat)
    requires r < |rows|
    ensures done + rows[..r + 1] == (done + rows[..r]) + [rows[r]]
  {
    assert rows[..r + 1] == rows[..r] + [rows[r]];
  }

  /** Every output email is non-empty and matches the validation pattern,
      so the driver's "No email found" rows never survive. */
  lemma {:induction false} CleanedValid(cs: seq<Candidate>)
    ensures forall k :: 0 <= k < |Cleaned(cs)| ==> Cleaned(cs)[k].email != "" && IsValidEmail(Cleaned(cs)[k].email)
    decreases |cs|
  {
    if cs != [] {
      CleanedValid(cs[..|cs| - 1]);
    }
  }

  /** The lower-cased emails of some contacts. */
  function ContactKeys(contacts: seq<Contact>): set<string> {
    set k | 0 <= k < |contacts| :: Lower(contacts[k].email)
  }

  /** No two output rows share an email up to ASCII case. */
  predicate DistinctKeys(contacts: seq<Contact>) {
    forall j, k :: 0 <= j < k < |contacts| ==> Lower(contacts[j].email) != Lower(contacts[k].email)
  }

  lemma ContactKeysSnoc(contacts: seq<Contact>, x: Contact)
    ensures ContactKeys(contacts + [x]) == ContactKeys(contacts) + {Lower(x.email)}
  {
    var after := contacts + [x];
    forall key | key in ContactKeys(after) ensures key in ContactKeys(contacts) + {Lower(x.email)} {
      var k :| 0 <= k < |after| && Lower(after[k].email) == key;
      if k < |contacts| {
        assert Lower(contacts[k].email) == key;
      }
    }
    forall key | key in ContactKeys(contacts) ensures key in ContactKeys(after) {
      var k :| 0 <= k < |contacts| && Lower(contacts[k].email) == key;
      assert Lower(after[k].email) == key;
    }
    assert Lower(after[|contacts|].email) == Lower(x.email);
  }

  lemma DistinctSnoc(contacts: seq<Contact>, x: Contact)
    requires DistinctKeys(contacts) && Lower(x.email) !in ContactKeys(contacts)
    ensures DistinctKeys(contacts + [x])
  {
    var after := contacts + [x];
    forall j, k | 0 <= j < k < |after| ensures Lower(after[j].email) != Lower(after[k].email) {
      if k == |contacts| {
        assert Lower(contacts[j].email) in ContactKeys(contacts);
      }
    }
  }

  /** The output holds one row per distinct lower-cased valid email: its
      emails are pairwise distinct up to case, they are exactly the valid
      keys of the input, and so there are as many rows as keys. */
  lemma {:induction false} CleanedKeys(cs: seq<Candidate>)
    ensures DistinctKeys(Cleaned(cs))
    ensures ContactKeys(Cleaned(cs)) == ValidKeys(cs)
    ensures |Cleaned(cs)| == |ValidKeys(cs)|
    decreases |cs|
  {
    if cs != [] {
      var init, c := cs[..|cs| - 1], cs[|cs| - 1];
      CleanedKeys(init);
      ValidKeysStep(cs);
      if Keeps(c) && Key(c) !in ValidKeys(init) {
        assert Cleaned(cs) == Cleaned(init) + [ToContact(c)];
        ContactKeysSnoc(Cleaned(init), ToContact(c));
        DistinctSnoc(Cleaned(init), ToContact(c));
      } else {
        assert Cleaned(cs) == Cleaned(init);
        assert ValidKeys(cs) == ValidKeys(init);
      }
    }
  }

  /** The row at index `i` is the first valid row with its email. */
  predicate IsFirst(cs: seq<Candidate>, i: nat)
    requires i < |cs|
  {
    Keeps(cs[i]) && forall j :: 0 <= j < i ==> !Keeps(cs[j]) || Key(cs[j]) != Key(cs[i])
  }

  /** Whether a row is first depends only on the rows before it. */
  lemma PrefixFirst(cs: seq<Candidate>, n: nat, i: nat)
    requires i < n <= |cs|
    ensures IsFirst(cs[..n], i) <==> IsFirst(cs, i)
  {
    assert forall j :: 0 <= j <= i ==> cs[..n][j] == cs[j];
  }

  lemma PrefixFirsts(cs: seq<Candidate>, n: nat)
    requires n <= |cs|
    ensures forall i :: 0 <= i < n ==> (IsFirst(cs[..n], i) <==> IsFirst(cs, i))
  {
    forall i | 0 <= i < n ensures IsFirst(cs[..n], i) <==> IsFirst(cs, i) {
      PrefixFirst(cs, n, i);
    }
  }

  /** The positions of the first valid row of every email, in increasing
      order. */
  function Origins(cs: seq<Candidate>): (o: seq<nat>)
    ensures forall k :: 0 <= k < |o| ==> o[k] < |cs| && IsFirst(cs, o[k])
    ensures forall i :: 0 <= i < |cs| && IsFirst(cs, i) ==> i in o
    ensures forall j, k :: 0 <= j < k < |o| ==> o[j] < o[k]
    decreases |cs|
  {
    if cs == [] then []
    else
      var n := |cs| - 1;
      var prev := Origins(cs[..n]);
      PrefixFirsts(cs, n);
      prev + (if IsFirst(cs, n) then [n] else [])
  }

  /** A candidate's email was already kept exactly when an earlier valid
      candidate has the same key. */
  lemma KeyInValidKeys(cs: seq<Candidate>)
    requires cs != []
    ensures Key(cs[|cs| - 1]) in ValidKeys(cs[..|cs| - 1]) <==>
      exists j :: 0 <= j < |cs| - 1 && Keeps(cs[j]) && Key(cs[j]) == Key(cs[|cs| - 1])
  {
    var init := cs[..|cs| - 1];
    if Key(cs[|cs| - 1]) in ValidKeys(init) {
      var x :| x in init && Keeps(x) && Key(x) == Key(cs[|cs| - 1]);
      var j :| 0 <= j < |init| && init[j] == x;
      assert cs[j] == x;
    }
    if exists j :: 0 <= j < |cs| - 1 && Keeps(cs[j]) && Key(cs[j]) == Key(cs[|cs| - 1]) {
      var j :| 0 <= j < |cs| - 1 && Keeps(cs[j]) && Key(cs[j]) == Key(cs[|cs| - 1]);
      assert init[j] == cs[j];
    }
  }

  /** The first occurrence wins, and the output follows the input order:
      output row k is the row at the k-th first-occurrence position. */
  lemma {:induction false} CleanedFirstOccurrences(cs: seq<Candidate>)
    ensures |Cleaned(cs)| == |Origins(cs)|
    ensures forall k :: 0 <= k < |Cleaned(cs)| ==> Cleaned(cs)[k] == ToContact(cs[Origins(cs)[k]])
    decreases |cs|
  {
    if cs != [] {
      var n := |cs| - 1;
      var init := cs[..n];
      CleanedFirstOccurrences(init);
      var kept := Keeps(cs[n]) && Key(cs[n]) !in ValidKeys(init);
      assert kept <==> IsFirst(cs, n) by {
        KeyInValidKeys(cs);
      }
      var before, origins := Cleaned(init), Origins(init);
      var after, origins' := Cleaned(cs), Origins(cs);
      assert after == before + (if kept then [ToContact(cs[n])] else []);
      assert origins' == origins + (if kept then [n] else []);
      forall k | 0 <= k < |after| ensures after[k] == ToContact(cs[origins'[k]]) {
        if k < |before| {
          assert after[k] == before[k] && origins'[k] == origins[k];
          assert origins[k] < n;
          assert init[origins[k]] == cs[origins[k]];
        }
      }
    }
  }

  /** A candidate's cells are stripped. */
  predicate Stripped(c: Candidate) {
    Trimmed(c.url) && Trimmed(c.email) && Trimmed(c.phone)
  }

  /** An output row's cells are stripped and its phone is never the
      driver's placeholder. */
  predicate CleanCells(x: Contact) {
    && Trimmed(x.url) && Trimmed(x.email) && Trimmed(x.phone)
    && x.phone != SearchDriver.NO_PHONE
  }

  /** `c` is one of the rows read from an input whose name ends in ".csv",
      and carries that input's name. */
  ghost predicate ReadFrom(inputs: seq<(string, Table)>, c: Candidate) {
    exists f :: 0 <= f < |inputs| && EndsWith(inputs[f].0, ".csv") && c.source == inputs[f].0 &&
      c in FileCandidates(inputs[f].0, inputs[f].1)
  }

  /** Every row of one file carries the file's name. */
  lemma FileCandidatesSource(name: string, t: Table)
    ensures forall k :: 0 <= k < |FileCandidates(name, t)| ==> FileCandidates(name, t)[k].source == name
  {
  }

  /** Only inputs whose names end in ".csv" are read, and every candidate
      is a row of such an input, tagged with that input's name. */
  lemma {:induction false} CandidatesFromCsv(inputs: seq<(string, Table)>)
    ensures forall k :: 0 <= k < |Candidates(inputs)| ==> ReadFrom(inputs, Candidates(inputs)[k])
    decreases |inputs|
  {
    if inputs != [] {
      var n := |inputs| - 1;
      var init := inputs[..n];
      CandidatesFromCsv(init);
      var (name, t) := inputs[n];
      FileCandidatesSource(name, t);
      var prev := Candidates(init);
      var last: seq<Candidate> := if EndsWith(name, ".csv") then FileCandidates(name, t) else [];
      var all := Candidates(inputs);
      assert all == prev + last;
      forall k | 0 <= k < |all| ensures ReadFrom(inputs, all[k]) {
        if k < |prev| {
          assert all[k] == prev[k];
          var f :| 0 <= f < n && EndsWith(init[f].0, ".csv") && prev[k].source == init[f].0 &&
            prev[k] in FileCandidates(init[f].0, init[f].1);
          assert inputs[f] == init[f];
        } else {
          assert all[k] == last[k - |prev|];
          assert last[k - |prev|] in last;
        }
      }
    }
  }

  lemma FileCandidatesStripped(name: string, t: Table)
    ensures forall k :: 0 <= k < |FileCandidates(name, t)| ==> Stripped(FileCandidates(name, t)[k])
  {
  }

  /** Every candidate's cells are stripped. */
  lemma {:induction false} CandidatesStripped(inputs: seq<(string, Table)>)
    ensures forall k :: 0 <= k < |Candidates(inputs)| ==> Stripped(Candidates(inputs)[k])
    decreases |inputs|
  {
    if inputs != [] {
      var n := |inputs| - 1;
      CandidatesStripped(inputs[..n]);
      FileCandidatesStripped(inputs[n].0, inputs[n].1);
      var prev := Candidates(inputs[..n]);
      var last: seq<Candidate> := if EndsWith(inputs[n].0, ".csv") then FileCandidates(inputs[n].0, inputs[n].1) else [];
      var all := Candidates(inputs);
      assert all == prev + last;
      forall k | 0 <= k < |all| ensures Stripped(all[k]) {
        if k < |prev| {
          assert all[k] == prev[k];
        } else {
          assert all[k] == last[k - |prev|];
        }
      }
    }
  }

  /** Stripped candidates give output rows with clean cells. */
  lemma {:induction false} CleanedCells(cs: seq<Candidate>)
    requires forall k :: 0 <= k < |cs| ==> Stripped(cs[k])
    ensures forall k :: 0 <= k < |Cleaned(cs)| ==> CleanCells(Cleaned(cs)[k])
    decreases |cs|
  {
    if cs != [] {
      var n := |cs| - 1;
      CleanedCells(cs[..n]);
      assert Stripped(cs[n]);
    }
  }

  /** What every cleaned output satisfies: valid emails, distinct up to
      case, and clean cells. */
  predicate WellFormed(contacts: seq<Contact>) {
    && DistinctKeys(contacts)
    && (forall k :: 0 <= k < |contacts| ==> contacts[k].email != "" && IsValidEmail(contacts[k].email))
    && (forall k :: 0 <= k < |contacts| ==> CleanCells(contacts[k]))
  }

  lemma MergeWellFormed(inputs: seq<(string, Table)>)
    ensures WellFormed(Cleaned(Candidates(inputs)))
  {
    var cs := Candidates(inputs);
    CleanedValid(cs);
    CleanedKeys(cs);
    CandidatesStripped(inputs);
    CleanedCells(cs);
  }

  /** Candidates that are all valid with distinct keys are all kept. */
  lemma {:induction false} CleanedAllKept(cs: seq<Candidate>)
    requires forall k :: 0 <= k < |cs| ==> Keeps(cs[k])
    requires forall j, k :: 0 <= j < k < |cs| ==> Key(cs[j]) != Key(cs[k])
    ensures |Cleaned(cs)| == |cs|
    ensures forall k :: 0 <= k < |cs| ==> Cleaned(cs)[k] == ToContact(cs[k])
    decreases |cs|
  {
    if cs != [] {
      var n := |cs| - 1;
      var init, c := cs[..n], cs[n];
      assert cs == init + [c];
      CleanedAllKept(init);
      assert Key(c) !in ValidKeys(init) by {
        KeyInValidKeys(cs);
      }
      CleanedSnoc(init, c);
    }
  }

  const RESULTS_OUTPUT_NAME: string := "merged_cleaned_results.csv"
  const RESULTS_OUTPUT_HEADER: Row := ["URL", "Email", "Phone", "SourceFile"]
  const STAKEHOLDERS_OUTPUT_NAME: string := "merged_cleaned_stakeholders.csv"
  const STAKEHOLDERS_OUTPUT_HEADER: Row := ["URL", "Email", "SourceFile"]

  /** The rows `merge_and_clean_results` writes after its header. */
  function ResultsRows(contacts: seq<Contact>): seq<Row> {
    seq(|contacts|, k requires 0 <= k < |contacts| =>
      [contacts[k].url, contacts[k].email, contacts[k].phone, contacts[k].sourceFile])
  }

  function ResultsTable(contacts: seq<Contact>): Table {
    [RESULTS_OUTPUT_HEADER] + ResultsRows(contacts)
  }

  /** The rows merge_clean_stakeholders.py writes: no Phone column. */
  function StakeholdersRows(contacts: seq<Contact>): seq<Row> {
    seq(|contacts|, k requires 0 <= k < |contacts| =>
      [contacts[k].url, contacts[k].email, contacts[k].sourceFile])
  }

  function StakeholdersTable(contacts: seq<Contact>): Table {
    [STAKEHOLDERS_OUTPUT_HEADER] + StakeholdersRows(contacts)
  }

  /** `merge_and_clean_results`: the cleaned rows, rewritten into the
      output file. Returns the output file's name. */
  method MergeAndCleanResults(inputs: seq<(string, Table)>, outFile: CsvFile) returns (outputName: string)
    modifies outFile
    ensures outputName == RESULTS_OUTPUT_NAME
    ensures outFile.Valid() && outFile.rows == ResultsTable(Cleaned(Candidates(inputs)))
  {
    var contacts := CleanContacts(inputs);
    outFile.Overwrite(ResultsTable(contacts));
    outputName := RESULTS_OUTPUT_NAME;
  }

  /** merge_clean_stakeholders.py: the same loop, written without phones. */
  method MergeCleanStakeholders(inputs: seq<(string, Table)>, outFile: CsvFile) returns (outputName: string)
    modifies outFile
    ensures outputName == STAKEHOLDERS_OUTPUT_NAME
    ensures outFile.Valid() && outFile.rows == StakeholdersTable(Cleaned(Candidates(inputs)))
  {
    var contacts := CleanContacts(inputs);
    outFile.Overwrite(StakeholdersTable(contacts));
    outputName := STAKEHOLDERS_OUTPUT_NAME;
  }

  /** The results file has a header and one row per distinct lower-cased
      valid email of the inputs. */
  lemma ResultsRowCount(inputs: seq<(string, Table)>)
    ensures |ResultsTable(Cleaned(Candidates(inputs)))| == 1 + |ValidKeys(Candidates(inputs))|
    ensures |StakeholdersTable(Cleaned(Candidates(inputs)))| == 1 + |ValidKeys(Candidates(inputs))|
  {
    CleanedKeys(Candidates(inputs));
  }

  /** A single `.csv` input contributes exactly its own rows. */
  lemma SingleInput(name: string, t: Table)
    requires EndsWith(name, ".csv")
    ensures Candidates([(name, t)]) == FileCandidates(name, t)
  {
    assert [(name, t)][..0] == [];
  }

  lemma ResultsHeaderLookups()
    ensures LastIndex(RESULTS_OUTPUT_HEADER, "URL") == Some(0)
    ensures LastIndex(RESULTS_OUTPUT_HEADER, "Email") == Some(1)
    ensures LastIndex(RESULTS_OUTPUT_HEADER, "Phone") == Some(2)
  {
    var h := RESULTS_OUTPUT_HEADER;
    assert h[..3] == ["URL", "Email", "Phone"];
    assert h[..2] == ["URL", "Email"];
    assert h[..1] == ["URL"];
  }

  lemma StakeholdersHeaderLookups()
    ensures LastIndex(STAKEHOLDERS_OUTPUT_HEADER, "URL") == Some(0)
    ensures LastIndex(STAKEHOLDERS_OUTPUT_HEADER, "Email") == Some(1)
    ensures LastIndex(STAKEHOLDERS_OUTPUT_HEADER, "Phone") == None
  {
    var h := STAKEHOLDERS_OUTPUT_HEADER;
    assert h[..2] == ["URL", "Email"];
    assert h[..1] == ["URL"];
  }

  /** A cell whose column is found and whose value is stripped reads back
      as that value. */
  lemma CellAt(header: Row, row: Row, name: string, j: nat)
    requires LastIndex(header, name) == Some(j) && j < |row| && Trimmed(row[j])
    ensures Cell(header, row, name) == row[j]
  {
    StripUnchanged(row[j]);
  }

  /** The cells of one contact row written with stripped values read back
      as those values. */
  lemma ReadResultsRow(name: string, x: Contact)
    requires Trimmed(x.url) && Trimmed(x.email) && Trimmed(x.phone)
    ensures CandidateOf(name, RESULTS_OUTPUT_HEADER, [x.url, x.email, x.phone, x.sourceFile]) ==
      Candidate(name, x.url, x.email, x.phone)
  {
    var row := [x.url, x.email, x.phone, x.sourceFile];
    ResultsHeaderLookups();
    CellAt(RESULTS_OUTPUT_HEADER, row, "URL", 0);
    CellAt(RESULTS_OUTPUT_HEADER, row, "Email", 1);
    CellAt(RESULTS_OUTPUT_HEADER, row, "Phone", 2);
  }

  lemma ReadStakeholdersRow(name: string, x: Contact)
    requires Trimmed(x.url) && Trimmed(x.email)
    ensures CandidateOf(name, STAKEHOLDERS_OUTPUT_HEADER, [x.url, x.email, x.sourceFile]) ==
      Candidate(name, x.url, x.email, "")
  {
    var row := [x.url, x.email, x.sourceFile];
    StakeholdersHeaderLookups();
    CellAt(STAKEHOLDERS_OUTPUT_HEADER, row, "URL", 0);
    CellAt(STAKEHOLDERS_OUTPUT_HEADER, row, "Email", 1);
    assert Cell(STAKEHOLDERS_OUTPUT_HEADER, row, "Phone") == Strip("");
  }

  /** The candidates of a file with no blank rows, one per row. */
  lemma FileCandidatesOf(name: string, header: Row, rows: seq<Row>)
    requires forall k :: 0 <= k < |rows| ==> rows[k] != []
    ensures |FileCandidates(name, [header] + rows)| == |rows|
    ensures forall k :: 0 <= k < |rows| ==> FileCandidates(name, [header] + rows)[k] == CandidateOf(name, header, rows[k])
  {
    assert ([header] + rows)[1..] == rows;
  }

  /** Reading back a results file yields its contacts, with the file's
      own name as the source. */
  lemma ReadResultsTable(name: string, contacts: seq<Contact>)
    requires EndsWith(name, ".csv") && forall k :: 0 <= k < |contacts| ==> CleanCells(contacts[k])
    ensures |Candidates([(name, ResultsTable(contacts))])| == |contacts|
    ensures forall k :: 0 <= k < |contacts| ==>
      Candidates([(name, ResultsTable(contacts))])[k] == Candidate(name, contacts[k].url, contacts[k].email, contacts[k].phone)
  {
    var rows := ResultsRows(contacts);
    SingleInput(name, ResultsTable(contacts));
    FileCandidatesOf(name, RESULTS_OUTPUT_HEADER, rows);
    forall k | 0 <= k < |contacts|
      ensures CandidateOf(name, RESULTS_OUTPUT_HEADER, rows[k]) == Candidate(name, contacts[k].url, contacts[k].email, contacts[k].phone)
    {
      ReadResultsRow(name, contacts[k]);
    }
  }

  /** Reading back a stakeholders file yields its contacts without
      phones, with the file's own name as the source. */
  lemma ReadStakeholdersTable(name: string, contacts: seq<Contact>)
    requires EndsWith(name, ".csv") && forall k :: 0 <= k < |contacts| ==> CleanCells(contacts[k])
    ensures |Candidates([(name, StakeholdersTable(contacts))])| == |contacts|
    ensures forall k :: 0 <= k < |contacts| ==>
      Candidates([(name, StakeholdersTable(contacts))])[k] == Candidate(name, contacts[k].url, contacts[k].email, "")
  {
    var rows := StakeholdersRows(contacts);
    SingleInput(name, StakeholdersTable(contacts));
    FileCandidatesOf(name, STAKEHOLDERS_OUTPUT_HEADER, rows);
    forall k | 0 <= k < |contacts|
      ensures CandidateOf(name, STAKEHOLDERS_OUTPUT_HEADER, rows[k]) == Candidate(name, contacts[k].url, contacts[k].email, "")
    {
      ReadStakeholdersRow(name, contacts[k]);
    }
  }

  /** Re-reading contacts that are well formed keeps every one of them. */
  lemma RereadKept(out: seq<Contact>, cs: seq<Candidate>)
    requires WellFormed(out) && |cs| == |out|
    requires forall k :: 0 <= k < |cs| ==> cs[k].email == out[k].email
    ensures |Cleaned(cs)| == |cs|
    ensures forall k :: 0 <= k < |cs| ==> Cleaned(cs)[k] == ToContact(cs[k])
  {
    forall k | 0 <= k < |cs| ensures Keeps(cs[k]) && Key(cs[k]) == Lower(out[k].email) {
    }
    CleanedAllKept(cs);
  }

  /** Merging a results file again, as the only input, keeps every row in
      order and unchanged but for the source name. */
  lemma RemergeResults(inputs: seq<(string, Table)>, name: string)
    requires EndsWith(name, ".csv")
    ensures var out := Cleaned(Candidates(inputs));
      var again := Cleaned(Candidates([(name, ResultsTable(out))]));
      |again| == |out| && forall k :: 0 <= k < |out| ==> again[k] == out[k].(sourceFile := name)
  {
    var out := Cleaned(Candidates(inputs));
    MergeWellFormed(inputs);
    ReadResultsTable(name, out);
    var cs := Candidates([(name, ResultsTable(out))]);
    RereadKept(out, cs);
    forall k | 0 <= k < |out| ensures Cleaned(cs)[k] == out[k].(sourceFile := name) {
      assert out[k].phone != SearchDriver.NO_PHONE;
    }
  }

  /** Merging a stakeholders file again, as the only input, keeps every row
      in order with the same URL and email. */
  lemma RemergeStakeholders(inputs: seq<(string, Table)>, name: string)
    requires EndsWith(name, ".csv")
    ensures var out := Cleaned(Candidates(inputs));
      var again := Cleaned(Candidates([(name, StakeholdersTable(out))]));
      && |again| == |out|
      && forall k :: 0 <= k < |out| ==> again[k] == Contact(out[k].url, out[k].email, "", name)
  {
    var out := Cleaned(Candidates(inputs));
    MergeWellFormed(inputs);
    ReadStakeholdersTable(name, out);
    RereadKept(out, Candidates([(name, StakeholdersTable(out))]));
  }
}
