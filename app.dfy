/** The App component of App.js as an object: the form rows (`urls`) and the
    registry of shortened URLs (`shortenedUrls`) are its fields, and the
    handlers that call `setUrls`/`setShortenedUrls` are its methods. Each
    method is proved against the functions of Entries, Batch and Records. */
module AppState {
  import ShortCode
  import opened Records
  import opened Entries
  import opened Batch
  import opened Indices

  class App {
    var urls: seq<PendingEntry>
    var shortenedUrls: seq<ShortenedUrl>

    /** The registry read back from storage, and the single blank row the
        initialisation effect installs. */
    constructor (saved: seq<ShortenedUrl>)
      ensures urls == [BlankEntry(0)] && shortenedUrls == saved
    {
      urls := [BlankEntry(0)];
      shortenedUrls := saved;
    }

    /** `validateUrl`: the checks in source order, the duplicate test last so
        that its message replaces a format message. */
    method ValidateUrl(url: PendingEntry, index: nat, urlOk: string -> bool) returns (errors: Errors)
      ensures errors == ExpectedErrors(url, index, shortenedUrls, urls, urlOk)
    {
      ghost var c := ChecksOf(url, index, shortenedUrls, urls, urlOk);
      errors := map[];
      if IsBlank(url.originalUrl) {
        errors := errors[OriginalUrl := UrlRequired];
      } else if !urlOk(url.originalUrl) {
        errors := errors[OriginalUrl := InvalidUrl];
      }
      if url.validityMinutes < MinValidity || url.validityMinutes > MaxValidity {
        errors := errors[ValidityMinutes := ValidityOutOfRange];
      }
      if url.customShortCode != "" && !ShortCode.IsValidShortCode(url.customShortCode) {
        errors := errors[CustomShortCode := BadShortCode];
      }
      if url.customShortCode != "" {
        var isDuplicate := CodeInUse(url.customShortCode, index, shortenedUrls, urls);
        if isDuplicate {
          errors := errors[CustomShortCode := ShortCodeInUse];
        }
      }
      FieldByFieldErrors(errors, c);
    }

    /** `updateUrl`: one row gets the edit, nothing else changes. */
    method UpdateUrl(index: nat, edit: Edit)
      requires index < |urls|
      modifies this
      ensures urls == old(urls)[index := ApplyEdit(old(urls)[index], edit)]
      ensures shortenedUrls == old(shortenedUrls)
    {
      urls := urls[index := ApplyEdit(urls[index], edit)];
    }

    /** The `forEach` of `shortenUrls`: every non-blank row gets the errors
        `validateUrl` finds, and the rows that get none are collected. */
    method ValidateAll(urlOk: string -> bool) returns (updatedUrls: seq<PendingEntry>, validUrls: seq<nat>)
      ensures updatedUrls == Revalidated(urls, shortenedUrls, urlOk)
      ensures validUrls == Accepted(urls, shortenedUrls, urlOk)
    {
      validUrls := [];
      updatedUrls := urls;
      var i := 0;
      while i < |urls|
        invariant 0 <= i <= |urls|
        invariant updatedUrls == RevalidatedPrefix(urls, shortenedUrls, urlOk, i) + urls[i..]
        invariant validUrls == TrueIndices(RowFlags(RevalidatedPrefix(urls, shortenedUrls, urlOk, i)))
      {
        var row, accepted := RevalidateRow(i, urlOk);
        ghost var done := RevalidatedPrefix(urls, shortenedUrls, urlOk, i);
        ReplaceNext(done, urls, i, row);
        updatedUrls := updatedUrls[i := row];
        RowFlagsSnoc(done, row);
        TrueIndicesSnoc(RowFlags(done), accepted);
        if accepted {
          validUrls := validUrls + [i];
        }
        i := i + 1;
      }
    }

    /** The callback of the `forEach` on row `i`: a non-blank row is
        validated and gets its errors; it is collected when there are none. */
    method RevalidateRow(i: nat, urlOk: string -> bool) returns (row: PendingEntry, accepted: bool)
      requires i < |urls|
      ensures row == RevalidatedRow(urls, shortenedUrls, urlOk, i)
      ensures accepted == RowAccepted(row)
    {
      var url := urls[i];
      row, accepted := url, false;
      if !IsBlank(url.originalUrl) {
        var errors := ValidateUrl(url, i, urlOk);
        row := url.(errors := errors);
        accepted := errors == map[];
      }
    }

    /** The `map` of `shortenUrls`: one record per collected row, the k-th
        using `draws[k]`. */
    method BuildRecords(validUrls: seq<nat>, draws: seq<Draw>) returns (newShortenedUrls: seq<ShortenedUrl>)
      requires forall k :: 0 <= k < |validUrls| ==> validUrls[k] < |urls|
      requires |draws| >= |validUrls|
      ensures newShortenedUrls == NewRecords(urls, validUrls, draws)
    {
      newShortenedUrls := [];
      var k := 0;
      while k < |validUrls|
        invariant 0 <= k <= |validUrls|
        invariant newShortenedUrls == NewRecords(urls, validUrls, draws)[..k]
      {
        var url := urls[validUrls[k]];
        var shortCode := if url.customShortCode != "" then url.customShortCode else draws[k].generatedCode;
        var creationDate := draws[k].creationDate;
        var expiryDate := creationDate + url.validityMinutes * MillisPerMinute;
        var shortenedUrl := ShortenedUrl(draws[k].id, url.originalUrl, shortCode, ShortUrlBase + shortCode,
          creationDate, expiryDate, url.validityMinutes, 0, []);
        newShortenedUrls := newShortenedUrls + [shortenedUrl];
        k := k + 1;
      }
    }

    /** `shortenUrls`: validate every non-blank row, and when some row is
        accepted, append one record per accepted row and reset those rows. */
    method ShortenUrls(urlOk: string -> bool, draws: seq<Draw>) returns (outcome: ShortenOutcome)
      requires |draws| >= |urls|
      modifies this
      ensures var acc := Accepted(old(urls), old(shortenedUrls), urlOk);
        && (outcome == NoValidUrl <==> acc == [])
        && (outcome.Shortened? ==> outcome.count == |acc|)
        && shortenedUrls == old(shortenedUrls) + NewRecords(old(urls), acc, draws)
        && urls == ClearRows(Revalidated(old(urls), old(shortenedUrls), urlOk), acc)
      ensures outcome == NoValidUrl ==>
        shortenedUrls == old(shortenedUrls) && urls == Revalidated(old(urls), old(shortenedUrls), urlOk)
      ensures ClicksConsistent(old(shortenedUrls)) ==> ClicksConsistent(shortenedUrls)
    {
      var updatedUrls, validUrls := ValidateAll(urlOk);
      if validUrls == [] {
        urls := updatedUrls;
        assert ClearRows(updatedUrls, validUrls) == updatedUrls;
        return NoValidUrl;
      }
      var newShortenedUrls := BuildRecords(validUrls, draws);
      NewRecordsClicksConsistentIf(urls, validUrls, draws, shortenedUrls);
      shortenedUrls := shortenedUrls + newShortenedUrls;
      updatedUrls := ClearAccepted(updatedUrls, validUrls);
      urls := updatedUrls;
      outcome := Shortened(|newShortenedUrls|);
    }

    /** `handleRedirect`: look the code up, refuse a missing or expired
        record, and otherwise record the click on every record with the code. */
    method HandleRedirect(shortCode: string, now: int, click: ClickEvent) returns (outcome: RedirectOutcome)
      modifies this
      ensures outcome == RedirectResult(old(shortenedUrls), shortCode, now)
      ensures shortenedUrls ==
        if outcome.Redirected? then RecordClick(old(shortenedUrls), shortCode, click) else old(shortenedUrls)
      ensures urls == old(urls)
      ensures ClicksConsistent(old(shortenedUrls)) ==> ClicksConsistent(shortenedUrls)
    {
      var found := FindByCode(shortenedUrls, shortCode);
      if found.None? {
        return NotFound;
      }
      var urlData := shortenedUrls[found.value];
      if now > urlData.expiryDate {
        return Expired;
      }
      RecordClickEffect(shortenedUrls, shortCode, click);
      shortenedUrls := RecordClick(shortenedUrls, shortCode, click);
      outcome := Redirected(urlData.originalUrl);
    }

    /** One run of the minute timer: drop the records whose expiry is not
        after `now`, and report how many went. */
    method PruneExpired(now: int) returns (removed: nat)
      modifies this
      ensures shortenedUrls == Prune(old(shortenedUrls), now)
      ensures removed == |old(shortenedUrls)| - |shortenedUrls|
      ensures forall k :: 0 <= k < |shortenedUrls| ==> shortenedUrls[k].expiryDate > now
      ensures urls == old(urls)
      ensures ClicksConsistent(old(shortenedUrls)) ==> ClicksConsistent(shortenedUrls)
    {
      var active := Prune(shortenedUrls, now);
      removed := |shortenedUrls| - |active|;
      if ClicksConsistent(shortenedUrls) {
        PruneKeepsClicksConsistent(shortenedUrls, now);
      }
      shortenedUrls := active;
    }
  }

  /** New records keep a consistent registry consistent. */
  lemma NewRecordsClicksConsistentIf(pending: seq<PendingEntry>, acc: seq<nat>, draws: seq<Draw>, records: seq<ShortenedUrl>)
    requires forall k :: 0 <= k < |acc| ==> acc[k] < |pending|
    requires |draws| >= |acc|
    ensures ClicksConsistent(records) ==> ClicksConsistent(records + NewRecords(pending, acc, draws))
  {
    if ClicksConsistent(records) {
      NewRecordsClicksConsistent(pending, acc, draws, records);
    }
  }

  /** The last `forEach` of `shortenUrls`: each collected row is reset to a
      blank row with its position as `id`. */
  method ClearAccepted(rows: seq<PendingEntry>, validUrls: seq<nat>) returns (updatedUrls: seq<PendingEntry>)
    requires forall k :: 0 <= k < |validUrls| ==> validUrls[k] < |rows|
    ensures updatedUrls == ClearRows(rows, validUrls)
  {
    updatedUrls := rows;
    var k := 0;
    while k < |validUrls|
      invariant 0 <= k <= |validUrls| && |updatedUrls| == |rows|
      invariant forall j :: 0 <= j < |rows| ==>
        updatedUrls[j] == if j in validUrls[..k] then BlankEntry(j) else rows[j]
    {
      var index := validUrls[k];
      assert validUrls[..k + 1] == validUrls[..k] + [index];
      updatedUrls := updatedUrls[index := BlankEntry(index)];
      k := k + 1;
    }
    assert validUrls[..k] == validUrls;
  }

  /** Replacing the first element after a prefix of length `i` moves it
      into the prefix. */
  lemma ReplaceNext<T>(done: seq<T>, s: seq<T>, i: nat, x: T)
    requires |done| == i < |s|
    ensures (done + s[i..])[i := x] == (done + [x]) + s[i + 1..]
  {
  }
}
