/** What `shortenUrls` of App.js does to the form rows and the registry, as
    functions of the rows and records it starts from: which rows are
    validated, which are accepted, the records built for them and the rows
    that remain. */
module Batch {
  import JsText
  import ShortCode
  import opened Records
  import opened Entries
  import opened Indices

  /** The values the source draws per created record from its clock and
      random source: `id` (`Date.now() + Math.random()`), the code
      `generateShortCode()` would give, and the creation instant. The k-th
      accepted row uses the k-th draw. */
  datatype Draw = Draw(id: int, generatedCode: string, creationDate: int)

  const ShortUrlBase: string := "http://localhost:3000/"

  datatype ShortenOutcome = NoValidUrl | Shortened(count: nat)

  /** The record built for one accepted row: its own code if it has one,
      else the generated one, which nothing checks for collisions. */
  function MakeRecord(url: PendingEntry, draw: Draw): ShortenedUrl {
    var code := if url.customShortCode != "" then url.customShortCode else draw.generatedCode;
    ShortenedUrl(draw.id, url.originalUrl, code, ShortUrlBase + code, draw.creationDate,
      draw.creationDate + url.validityMinutes * MillisPerMinute, url.validityMinutes, 0, [])
  }

  /** Row `i` after the validation pass: a non-blank row carries its new
      errors, a blank row keeps whatever errors it had. */
  function RevalidatedRow(pending: seq<PendingEntry>, records: seq<ShortenedUrl>, urlOk: string -> bool, i: nat): PendingEntry
    requires i < |pending|
  {
    if IsBlank(pending[i].originalUrl) then pending[i]
    else pending[i].(errors := ExpectedErrors(pending[i], i, records, pending, urlOk))
  }

  /** The first `n` rows after the validation pass. */
  function RevalidatedPrefix(pending: seq<PendingEntry>, records: seq<ShortenedUrl>, urlOk: string -> bool, n: nat): (rows: seq<PendingEntry>)
    requires n <= |pending|
    ensures |rows| == n
  {
    if n == 0 then [] else RevalidatedPrefix(pending, records, urlOk, n - 1) + [RevalidatedRow(pending, records, urlOk, n - 1)]
  }

  /** The rows after the validation pass. */
  function Revalidated(pending: seq<PendingEntry>, records: seq<ShortenedUrl>, urlOk: string -> bool): (rows: seq<PendingEntry>)
    ensures |rows| == |pending|
  {
    RevalidatedPrefix(pending, records, urlOk, |pending|)
  }

  /** `RevalidatedRow` as a function of the position; positions past the
      last row do not occur. */
  function RevalidatedRows(pending: seq<PendingEntry>, records: seq<ShortenedUrl>, urlOk: string -> bool): nat -> PendingEntry {
    (i: nat) => if i < |pending| then RevalidatedRow(pending, records, urlOk, i) else BlankEntry(i)
  }

  /** The prefix is the table of `RevalidatedRows`. */
  lemma {:induction false} RevalidatedPrefixTable(pending: seq<PendingEntry>, records: seq<ShortenedUrl>, urlOk: string -> bool, n: nat)
    requires n <= |pending|
    ensures RevalidatedPrefix(pending, records, urlOk, n) == Table(RevalidatedRows(pending, records, urlOk), n)
  {
    if n > 0 {
      var f := RevalidatedRows(pending, records, urlOk);
      RevalidatedPrefixTable(pending, records, urlOk, n - 1);
      assert f(n - 1) == RevalidatedRow(pending, records, urlOk, n - 1);
      TableSnoc(f, n - 1);
    }
  }

  /** Every row of the pass, by `RevalidatedRow`. */
  lemma RevalidatedAt(pending: seq<PendingEntry>, records: seq<ShortenedUrl>, urlOk: string -> bool, i: nat)
    requires i < |pending|
    ensures Revalidated(pending, records, urlOk)[i] == RevalidatedRow(pending, records, urlOk, i)
  {
    RevalidatedPrefixTable(pending, records, urlOk, |pending|);
    TableAt(RevalidatedRows(pending, records, urlOk), |pending|, i);
  }

  /** A row that comes out of the validation pass with a URL and no errors:
      the rows `shortenUrls` pushes onto `validUrls`. */
  predicate RowAccepted(row: PendingEntry) {
    !IsBlank(row.originalUrl) && row.errors == map[]
  }

  /** Which rows are accepted. */
  function RowFlags(rows: seq<PendingEntry>): (flags: seq<bool>)
    ensures |flags| == |rows|
  {
    seq(|rows|, i requires 0 <= i < |rows| => RowAccepted(rows[i]))
  }

  /** One more row adds one more flag. */
  lemma RowFlagsSnoc(rows: seq<PendingEntry>, row: PendingEntry)
    ensures RowFlags(rows + [row]) == RowFlags(rows) + [RowAccepted(row)]
  {
  }

  /** The accepted rows, in order: the `index` fields of `validUrls`. */
  function Accepted(pending: seq<PendingEntry>, records: seq<ShortenedUrl>, urlOk: string -> bool): seq<nat> {
    TrueIndices(RowFlags(Revalidated(pending, records, urlOk)))
  }

  /** One record per accepted row, in the order of the rows. */
  function NewRecords(pending: seq<PendingEntry>, acc: seq<nat>, draws: seq<Draw>): seq<ShortenedUrl>
    requires forall k :: 0 <= k < |acc| ==> acc[k] < |pending|
    requires |draws| >= |acc|
  {
    seq(|acc|, k requires 0 <= k < |acc| => MakeRecord(pending[acc[k]], draws[k]))
  }

  /** The rows with the accepted ones reset to blank rows. */
  function ClearRows(rows: seq<PendingEntry>, acc: seq<nat>): seq<PendingEntry> {
    seq(|rows|, i requires 0 <= i < |rows| => if i in acc then BlankEntry(i) else rows[i])
  }

  /** A row is accepted exactly when its URL is not blank and it passes every check. */
  lemma AcceptedMeaning(pending: seq<PendingEntry>, records: seq<ShortenedUrl>, urlOk: string -> bool, i: nat)
    requires i < |pending|
    ensures i in Accepted(pending, records, urlOk) <==> PassesChecks(pending[i], i, records, pending, urlOk)
  {
    NoErrorsIffPasses(pending[i], i, records, pending, urlOk);
    RevalidatedAt(pending, records, urlOk, i);
    assert RowFlags(Revalidated(pending, records, urlOk))[i] == RowAccepted(RevalidatedRow(pending, records, urlOk, i));
  }

  /** The form after a batch, row by row: accepted rows are reset, blank
      rows are left exactly as they were, and every other row keeps what the
      user typed and shows at least one error. */
  lemma RowsAfterShorten(pending: seq<PendingEntry>, records: seq<ShortenedUrl>, urlOk: string -> bool, i: nat)
    requires i < |pending|
    ensures var acc := Accepted(pending, records, urlOk);
      var after := ClearRows(Revalidated(pending, records, urlOk), acc);
      && |after| == |pending|
      && (i in acc ==> after[i] == BlankEntry(i))
      && (IsBlank(pending[i].originalUrl) ==> i !in acc && after[i] == pending[i])
      && (i !in acc && !IsBlank(pending[i].originalUrl) ==>
            after[i].(errors := pending[i].errors) == pending[i] && after[i].errors != map[])
  {
    var acc := Accepted(pending, records, urlOk);
    AcceptedMeaning(pending, records, urlOk, i);
    RevalidatedAt(pending, records, urlOk, i);
    NoErrorsIffPasses(pending[i], i, records, pending, urlOk);
  }

  /** Every record of the batch comes from a row that passed every check: a
      URL `isValidUrl` accepts, a validity of 1 to 10080 minutes, so an expiry
      one minute to one week after creation, and, when the row named its own
      code, a well-formed code that no saved record and no other row holds. */
  lemma NewRecordsValid(pending: seq<PendingEntry>, records: seq<ShortenedUrl>, urlOk: string -> bool,
                        draws: seq<Draw>, k: nat)
    requires |draws| >= |pending|
    requires k < |Accepted(pending, records, urlOk)|
    ensures var acc := Accepted(pending, records, urlOk);
      var r := NewRecords(pending, acc, draws)[k];
      && r.id == draws[k].id && r.creationDate == draws[k].creationDate
      && r.originalUrl == pending[acc[k]].originalUrl && urlOk(r.originalUrl)
      && r.validityMinutes == pending[acc[k]].validityMinutes
      && r.expiryDate == r.creationDate + r.validityMinutes * MillisPerMinute
      && r.creationDate + MinValidity * MillisPerMinute <= r.expiryDate <= r.creationDate + MaxValidity * MillisPerMinute
      && r.shortUrl == ShortUrlBase + r.shortCode
      && r.clicks == 0 && r.clickData == []
      && (pending[acc[k]].customShortCode != "" ==>
            && r.shortCode == pending[acc[k]].customShortCode
            && ShortCode.IsValidShortCode(r.shortCode)
            && forall j :: 0 <= j < |records| ==> records[j].shortCode != r.shortCode)
      && (pending[acc[k]].customShortCode == "" ==> r.shortCode == draws[k].generatedCode)
  {
    var acc := Accepted(pending, records, urlOk);
    AcceptedMeaning(pending, records, urlOk, acc[k]);
  }

  /** No two records of one batch share a code that their rows asked for. */
  lemma CustomCodesDistinct(pending: seq<PendingEntry>, records: seq<ShortenedUrl>, urlOk: string -> bool,
                            draws: seq<Draw>, k: nat, l: nat)
    requires |draws| >= |pending|
    requires k < l < |Accepted(pending, records, urlOk)|
    requires pending[Accepted(pending, records, urlOk)[k]].customShortCode != ""
    ensures var acc := Accepted(pending, records, urlOk);
      pending[acc[l]].customShortCode != "" ==>
        NewRecords(pending, acc, draws)[k].shortCode != NewRecords(pending, acc, draws)[l].shortCode
  {
    var acc := Accepted(pending, records, urlOk);
    AcceptedMeaning(pending, records, urlOk, acc[k]);
    assert acc[k] < acc[l];
  }

  /** Two rows asking for the same code: neither is accepted. */
  lemma SameCustomCodeNeitherAccepted(pending: seq<PendingEntry>, records: seq<ShortenedUrl>, urlOk: string -> bool,
                                      i: nat, j: nat)
    requires i < |pending| && j < |pending| && i != j
    requires pending[i].customShortCode != "" && pending[i].customShortCode == pending[j].customShortCode
    ensures i !in Accepted(pending, records, urlOk) && j !in Accepted(pending, records, urlOk)
  {
    AcceptedMeaning(pending, records, urlOk, i);
    AcceptedMeaning(pending, records, urlOk, j);
    assert CodeInUse(pending[i].customShortCode, i, records, pending);
    assert CodeInUse(pending[j].customShortCode, j, records, pending);
  }

  /** New records start with no clicks, so the counter agrees with the list. */
  lemma NewRecordsClicksConsistent(pending: seq<PendingEntry>, acc: seq<nat>, draws: seq<Draw>, records: seq<ShortenedUrl>)
    requires forall k :: 0 <= k < |acc| ==> acc[k] < |pending|
    requires |draws| >= |acc|
    requires ClicksConsistent(records)
    ensures ClicksConsistent(records + NewRecords(pending, acc, draws))
  {
    var all := records + NewRecords(pending, acc, draws);
    forall i | 0 <= i < |all| ensures all[i].clicks == |all[i].clickData| {
      if i >= |records| {
        assert all[i] == NewRecords(pending, acc, draws)[i - |records|];
      }
    }
  }

  /** A generated code is not checked against the registry: a single-row
      batch whose row passes every check and names no code of its own adds a
      record with the code of a saved record whenever the generator draws
      that code. */
  lemma GeneratedCodeCanCollide(records: seq<ShortenedUrl>, row: PendingEntry, urlOk: string -> bool,
                                draw: Draw, j: nat)
    requires j < |records|
    requires |row.originalUrl| > 0 && !JsText.IsWhiteSpace(row.originalUrl[0]) && urlOk(row.originalUrl)
    requires MinValidity <= row.validityMinutes <= MaxValidity && row.customShortCode == ""
    requires draw.generatedCode == records[j].shortCode
    ensures Accepted([row], records, urlOk) == [0]
    ensures NewRecords([row], [0], [draw])[0].shortCode == records[j].shortCode
  {
    JsText.TrimEmptyIffBlank(row.originalUrl);
    AcceptedMeaning([row], records, urlOk, 0);
    var acc := Accepted([row], records, urlOk);
    assert |acc| <= 1 && 0 in acc;
  }
}
