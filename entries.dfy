/** The rows of the shortening form in App.js (`urls` state): what the user
    typed, and the per-field error messages `validateUrl` attaches. This
    module holds the meaning of `validateUrl` as a function of the entry, its
    position, the saved records and all rows, and the one-field edit of
    `updateUrl`. */
module Entries {
  import JsText
  import ShortCode
  import opened Records

  datatype Field = OriginalUrl | ValidityMinutes | CustomShortCode

  /** The messages `validateUrl` can attach, one constructor per string
      literal of the source; `Text` gives the literal. */
  datatype Message = UrlRequired | InvalidUrl | ValidityOutOfRange | BadShortCode | ShortCodeInUse

  /** The text of each message; none is empty, so each is truthy. */
  function Text(m: Message): (s: string)
    ensures |s| > 0
  {
    match m
    case UrlRequired => "URL is required"
    case InvalidUrl => "Please enter a valid URL"
    case ValidityOutOfRange => "Validity must be between 1 and 10080 minutes"
    case BadShortCode => "Short code must be 3-10 alphanumeric characters"
    case ShortCodeInUse => "This short code is already in use"
  }

  /** The `errors` object: field name to message. */
  type Errors = map<Field, Message>

  datatype PendingEntry = PendingEntry(
    id: int,
    originalUrl: string,
    validityMinutes: int,
    customShortCode: string,
    errors: Errors)

  const DefaultValidity: int := 30
  const MinValidity: int := 1
  const MaxValidity: int := 10080

  /** The empty row the form starts with and that a shortened row is reset to. */
  function BlankEntry(index: nat): PendingEntry {
    PendingEntry(index, "", DefaultValidity, "", map[])
  }

  /** `!url.trim()`. */
  predicate IsBlank(url: string) {
    JsText.Trim(url) == []
  }

  /** The duplicate test of `validateUrl`: a saved record already has the
      code, or a row at another position asks for it. */
  predicate CodeInUse(code: string, index: nat, records: seq<ShortenedUrl>, pending: seq<PendingEntry>) {
    || (exists i :: 0 <= i < |records| && records[i].shortCode == code)
    || (exists j :: 0 <= j < |pending| && j != index && pending[j].customShortCode == code)
  }

  /** The outcomes of the tests `validateUrl` runs on one row. */
  datatype Checks = Checks(blank: bool, urlAccepted: bool, validity: int, code: string,
                           codeInUse: bool, codeWellFormed: bool)

  function ChecksOf(url: PendingEntry, index: nat, records: seq<ShortenedUrl>,
                    pending: seq<PendingEntry>, urlOk: string -> bool): Checks
  {
    Checks(IsBlank(url.originalUrl), urlOk(url.originalUrl), url.validityMinutes, url.customShortCode,
           CodeInUse(url.customShortCode, index, records, pending), ShortCode.IsValidShortCode(url.customShortCode))
  }

  /** The message `validateUrl` leaves on field `f`, if any. For the short code
      the duplicate test runs after the format test and overwrites it. */
  function FieldMessage(f: Field, c: Checks): Option<Message> {
    match f
    case OriginalUrl =>
      if c.blank then Some(UrlRequired)
      else if !c.urlAccepted then Some(InvalidUrl)
      else None
    case ValidityMinutes =>
      if c.validity < MinValidity || c.validity > MaxValidity then Some(ValidityOutOfRange)
      else None
    case CustomShortCode =>
      if c.code == "" then None
      else if c.codeInUse then Some(ShortCodeInUse)
      else if !c.codeWellFormed then Some(BadShortCode)
      else None
  }

  /** The error object with a message on every field that has one. */
  function ErrorsOf(c: Checks): Errors {
    map f | f in {OriginalUrl, ValidityMinutes, CustomShortCode} && FieldMessage(f, c).Some? :: FieldMessage(f, c).value
  }

  /** What `validateUrl(url, index)` returns. `urlOk` stands for the
      component's `isValidUrl`. */
  function ExpectedErrors(url: PendingEntry, index: nat, records: seq<ShortenedUrl>,
                          pending: seq<PendingEntry>, urlOk: string -> bool): Errors
  {
    ErrorsOf(ChecksOf(url, index, records, pending, urlOk))
  }

  /** The error object holds a field exactly when that field has a message,
      and then holds that message. */
  lemma ErrorsOfFields(c: Checks)
    ensures OriginalUrl in ErrorsOf(c) <==> FieldMessage(OriginalUrl, c).Some?
    ensures ValidityMinutes in ErrorsOf(c) <==> FieldMessage(ValidityMinutes, c).Some?
    ensures CustomShortCode in ErrorsOf(c) <==> FieldMessage(CustomShortCode, c).Some?
    ensures forall f :: f in ErrorsOf(c) ==> ErrorsOf(c)[f] == FieldMessage(f, c).value
  {
  }

  /** An error map with the expected message on each of the three fields,
      and nothing where no message is expected, is the expected map. */
  lemma FieldByFieldErrors(e: Errors, c: Checks)
    requires OriginalUrl in e <==> FieldMessage(OriginalUrl, c).Some?
    requires ValidityMinutes in e <==> FieldMessage(ValidityMinutes, c).Some?
    requires CustomShortCode in e <==> FieldMessage(CustomShortCode, c).Some?
    requires OriginalUrl in e ==> e[OriginalUrl] == FieldMessage(OriginalUrl, c).value
    requires ValidityMinutes in e ==> e[ValidityMinutes] == FieldMessage(ValidityMinutes, c).value
    requires CustomShortCode in e ==> e[CustomShortCode] == FieldMessage(CustomShortCode, c).value
    ensures e == ErrorsOf(c)
  {
    ErrorsOfFields(c);
    forall f ensures f in e <==> f in ErrorsOf(c) {
      assert f.OriginalUrl? || f.ValidityMinutes? || f.CustomShortCode?;
    }
  }

  /** The entry that passes every check: non-blank, accepted by `isValidUrl`,
      a validity of 1 to 10080 minutes, and either no custom code or a
      well-formed one that nobody else holds or asks for. */
  predicate PassesChecks(url: PendingEntry, index: nat, records: seq<ShortenedUrl>,
                         pending: seq<PendingEntry>, urlOk: string -> bool)
  {
    && !IsBlank(url.originalUrl)
    && urlOk(url.originalUrl)
    && MinValidity <= url.validityMinutes <= MaxValidity
    && (url.customShortCode == "" ||
        (ShortCode.IsValidShortCode(url.customShortCode) && !CodeInUse(url.customShortCode, index, records, pending)))
  }

  /** No error at all exactly when every check passes. */
  lemma NoErrorsIffPasses(url: PendingEntry, index: nat, records: seq<ShortenedUrl>,
                          pending: seq<PendingEntry>, urlOk: string -> bool)
    ensures ExpectedErrors(url, index, records, pending, urlOk) == map[] <==>
      PassesChecks(url, index, records, pending, urlOk)
  {
    var c := ChecksOf(url, index, records, pending, urlOk);
    ErrorsOfFields(c);
    if ErrorsOf(c) != map[] {
      var f :| f in ErrorsOf(c);
      assert f.OriginalUrl? || f.ValidityMinutes? || f.CustomShortCode?;
    }
  }

  /** The field checks are independent: each field's message depends on that
      field's check alone, so several errors can appear together. */
  lemma ErrorsFieldByField(url: PendingEntry, index: nat, records: seq<ShortenedUrl>,
                           pending: seq<PendingEntry>, urlOk: string -> bool)
    ensures var e := ExpectedErrors(url, index, records, pending, urlOk);
      && (IsBlank(url.originalUrl) ==> e[OriginalUrl] == UrlRequired)
      && (!IsBlank(url.originalUrl) && !urlOk(url.originalUrl) ==> e[OriginalUrl] == InvalidUrl)
      && (OriginalUrl in e <==> IsBlank(url.originalUrl) || !urlOk(url.originalUrl))
      && (ValidityMinutes in e <==> url.validityMinutes < MinValidity || url.validityMinutes > MaxValidity)
      && (ValidityMinutes in e ==> e[ValidityMinutes] == ValidityOutOfRange)
      && (CustomShortCode in e <==>
            && url.customShortCode != ""
            && (CodeInUse(url.customShortCode, index, records, pending) || !ShortCode.IsValidShortCode(url.customShortCode)))
      && (&& url.customShortCode != ""
          && !CodeInUse(url.customShortCode, index, records, pending)
          && !ShortCode.IsValidShortCode(url.customShortCode)
          ==> e[CustomShortCode] == BadShortCode)
  {
    ErrorsOfFields(ChecksOf(url, index, records, pending, urlOk));
  }

  /** A taken code is reported as taken, even when it is also malformed. */
  lemma InUseOverridesFormat(url: PendingEntry, index: nat, records: seq<ShortenedUrl>,
                             pending: seq<PendingEntry>, urlOk: string -> bool)
    requires url.customShortCode != "" && CodeInUse(url.customShortCode, index, records, pending)
    ensures ExpectedErrors(url, index, records, pending, urlOk)[CustomShortCode] == ShortCodeInUse
  {
    ErrorsOfFields(ChecksOf(url, index, records, pending, urlOk));
  }

  /** Two rows asking for the same custom code are both rejected with the
      duplicate message, whatever the rest of the batch holds. */
  lemma CollidingRowsBothRejected(records: seq<ShortenedUrl>, pending: seq<PendingEntry>,
                                  i: nat, j: nat, urlOk: string -> bool)
    requires i < |pending| && j < |pending| && i != j
    requires pending[i].customShortCode != "" && pending[i].customShortCode == pending[j].customShortCode
    ensures ExpectedErrors(pending[i], i, records, pending, urlOk)[CustomShortCode] == ShortCodeInUse
    ensures ExpectedErrors(pending[j], j, records, pending, urlOk)[CustomShortCode] == ShortCodeInUse
  {
    assert CodeInUse(pending[i].customShortCode, i, records, pending);
    assert CodeInUse(pending[j].customShortCode, j, records, pending);
    ErrorsOfFields(ChecksOf(pending[i], i, records, pending, urlOk));
    ErrorsOfFields(ChecksOf(pending[j], j, records, pending, urlOk));
  }

  /** 0 and 10081 minutes are refused, 1 and 10080 accepted. */
  lemma ValidityBoundaries(url: PendingEntry, index: nat, records: seq<ShortenedUrl>,
                           pending: seq<PendingEntry>, urlOk: string -> bool)
    ensures url.validityMinutes in {0, 10081} ==> ValidityMinutes in ExpectedErrors(url, index, records, pending, urlOk)
    ensures url.validityMinutes in {1, 10080} ==> ValidityMinutes !in ExpectedErrors(url, index, records, pending, urlOk)
  {
    ErrorsOfFields(ChecksOf(url, index, records, pending, urlOk));
  }

  /** The change one input of a form row makes (`updateUrl`'s `field`/`value` pair). */
  datatype Edit =
    | SetOriginalUrl(url: string)
    | SetValidityMinutes(minutes: int)
    | SetCustomShortCode(code: string)

  function EditedField(e: Edit): Field {
    match e
    case SetOriginalUrl(_) => OriginalUrl
    case SetValidityMinutes(_) => ValidityMinutes
    case SetCustomShortCode(_) => CustomShortCode
  }

  /** `updateUrl` on one row: set the field, then drop that field's message
      if it is a non-empty (truthy) one. */
  function ApplyEdit(entry: PendingEntry, e: Edit): PendingEntry {
    var updated := match e
      case SetOriginalUrl(u) => entry.(originalUrl := u)
      case SetValidityMinutes(m) => entry.(validityMinutes := m)
      case SetCustomShortCode(c) => entry.(customShortCode := c);
    var f := EditedField(e);
    if f in updated.errors && Text(updated.errors[f]) != "" then updated.(errors := updated.errors - {f})
    else updated
  }

  /** An edit changes the one field it names and clears that field's message;
      the other fields and the other messages stay as they were. */
  lemma ApplyEditEffect(entry: PendingEntry, e: Edit)
    ensures var r := ApplyEdit(entry, e);
      && r.id == entry.id
      && r.originalUrl == (if e.SetOriginalUrl? then e.url else entry.originalUrl)
      && r.validityMinutes == (if e.SetValidityMinutes? then e.minutes else entry.validityMinutes)
      && r.customShortCode == (if e.SetCustomShortCode? then e.code else entry.customShortCode)
      && EditedField(e) !in r.errors
      && forall g :: g != EditedField(e) ==>
           (g in r.errors <==> g in entry.errors) && (g in r.errors ==> r.errors[g] == entry.errors[g])
  {
  }
}
