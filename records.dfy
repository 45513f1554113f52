/** The shortened-URL records of the App component (App.js) and the pure
    operations on the list of them: the lookup and the `map` of
    `handleRedirect`, and the `filter` of the periodic clean-up. Times are
    integer milliseconds; the record stores them where the source stores ISO
    strings of the same instants. */
module Records {
  import opened Indices

  datatype Option<T> = None | Some(value: T)

  /** Milliseconds in a minute: instants are `Date` milliseconds. */
  const MillisPerMinute: int := 60000

  /** The traffic sources and locations `getMockClickData` draws from. */
  datatype Source = Direct | Social | Email | Search
  datatype Location = NewYork | London | Tokyo | Sydney

  datatype ClickEvent = ClickEvent(timestamp: int, source: Source, location: Location)

  datatype ShortenedUrl = ShortenedUrl(
    id: int,
    originalUrl: string,
    shortCode: string,
    shortUrl: string,
    creationDate: int,
    expiryDate: int,
    validityMinutes: int,
    clicks: int,
    clickData: seq<ClickEvent>)

  /** The click counter agrees with the recorded clicks. */
  predicate ClicksConsistent(rs: seq<ShortenedUrl>) {
    forall i :: 0 <= i < |rs| ==> rs[i].clicks == |rs[i].clickData|
  }

  /** `shortenedUrls.find(url => url.shortCode === shortCode)`, as an index. */
  function FindByCode(rs: seq<ShortenedUrl>, code: string): (r: Option<nat>)
    ensures r.None? <==> forall i :: 0 <= i < |rs| ==> rs[i].shortCode != code
    ensures r.Some? ==> r.value < |rs| && rs[r.value].shortCode == code
    ensures r.Some? ==> forall j :: 0 <= j < r.value ==> rs[j].shortCode != code
  {
    if rs == [] then None
    else if rs[0].shortCode == code then Some(0)
    else match FindByCode(rs[1..], code)
      case None => None
      case Some(i) => Some(i + 1)
  }

  /** One more click on `r`. */
  function Clicked(r: ShortenedUrl, click: ClickEvent): ShortenedUrl {
    r.(clicks := r.clicks + 1, clickData := r.clickData + [click])
  }

  /** The `map` of `handleRedirect`: every record with the code gets the click. */
  function RecordClick(rs: seq<ShortenedUrl>, code: string, click: ClickEvent): (r: seq<ShortenedUrl>) {
    seq(|rs|, i requires 0 <= i < |rs| => if rs[i].shortCode == code then Clicked(rs[i], click) else rs[i])
  }

  datatype RedirectOutcome = NotFound | Expired | Redirected(target: string)

  /** The decision `handleRedirect` takes before touching the registry: the
      first record with the code decides, and it is expired when `now` is
      strictly after its expiry. */
  function RedirectResult(rs: seq<ShortenedUrl>, code: string, now: int): RedirectOutcome {
    match FindByCode(rs, code)
    case None => NotFound
    case Some(i) => if now > rs[i].expiryDate then Expired else Redirected(rs[i].originalUrl)
  }

  /** The three outcomes of `handleRedirect`, both ways. */
  lemma RedirectResultMeaning(rs: seq<ShortenedUrl>, code: string, now: int)
    ensures RedirectResult(rs, code, now) == NotFound <==> forall i :: 0 <= i < |rs| ==> rs[i].shortCode != code
    ensures RedirectResult(rs, code, now).Redirected? <==>
      exists i :: 0 <= i < |rs| && rs[i].shortCode == code && now <= rs[i].expiryDate &&
        forall j :: 0 <= j < i ==> rs[j].shortCode != code
    ensures RedirectResult(rs, code, now).Redirected? ==>
      exists i :: 0 <= i < |rs| && rs[i].shortCode == code && now <= rs[i].expiryDate &&
        (forall j :: 0 <= j < i ==> rs[j].shortCode != code) &&
        RedirectResult(rs, code, now).target == rs[i].originalUrl
  {
  }

  /** What a click may change: records keep their place and every field but
      the click counter and the click list, which only grow at the end. */
  predicate OnlyClicksGrow(before: seq<ShortenedUrl>, after: seq<ShortenedUrl>) {
    && |after| == |before|
    && forall i :: 0 <= i < |before| ==>
      && after[i].(clicks := 0, clickData := []) == before[i].(clicks := 0, clickData := [])
      && after[i].clicks >= before[i].clicks
      && |after[i].clickData| >= |before[i].clickData|
      && after[i].clickData[..|before[i].clickData|] == before[i].clickData
  }

  /** A recorded click changes only click data, exactly on the records that
      carry the code, each gaining the click as its newest entry, and keeps
      the counter in step with the list. */
  lemma RecordClickEffect(rs: seq<ShortenedUrl>, code: string, click: ClickEvent)
    ensures OnlyClicksGrow(rs, RecordClick(rs, code, click))
    ensures forall i :: 0 <= i < |rs| ==>
      var r := RecordClick(rs, code, click)[i];
      if rs[i].shortCode == code
      then r.clicks == rs[i].clicks + 1 && r.clickData == rs[i].clickData + [click]
      else r == rs[i]
    ensures ClicksConsistent(rs) ==> ClicksConsistent(RecordClick(rs, code, click))
  {
    var after := RecordClick(rs, code, click);
    forall i | 0 <= i < |rs|
      ensures after[i].clickData[..|rs[i].clickData|] == rs[i].clickData
    {
      if rs[i].shortCode == code {
        assert after[i].clickData == rs[i].clickData + [click];
      }
    }
  }

  /** The number of records carrying `code`. */
  function CountCode(rs: seq<ShortenedUrl>, code: string): nat {
    if rs == [] then 0 else (if rs[0].shortCode == code then 1 else 0) + CountCode(rs[1..], code)
  }

  /** All clicks of all records. */
  function TotalClicks(rs: seq<ShortenedUrl>): int {
    if rs == [] then 0 else rs[0].clicks + TotalClicks(rs[1..])
  }

  /** A click adds one to the registry's total once per record carrying the code. */
  lemma {:induction false} RecordClickTotal(rs: seq<ShortenedUrl>, code: string, click: ClickEvent)
    ensures TotalClicks(RecordClick(rs, code, click)) == TotalClicks(rs) + CountCode(rs, code)
  {
    if rs != [] {
      RecordClickTotal(rs[1..], code, click);
      assert RecordClick(rs, code, click)[1..] == RecordClick(rs[1..], code, click);
    }
  }

  /** The clean-up `filter`: keep the records whose expiry is after `now`. */
  function Prune(rs: seq<ShortenedUrl>, now: int): (r: seq<ShortenedUrl>)
    ensures |r| <= |rs|
    ensures forall k :: 0 <= k < |r| ==> r[k].expiryDate > now
  {
    if rs == [] then []
    else
      var last := rs[|rs| - 1];
      Prune(rs[..|rs| - 1], now) + if last.expiryDate > now then [last] else []
  }

  /** Which records are still live after `now`. */
  function LiveFlags(rs: seq<ShortenedUrl>, now: int): seq<bool> {
    seq(|rs|, i requires 0 <= i < |rs| => rs[i].expiryDate > now)
  }

  /** The positions, in increasing order, of the records that are live after `now`. */
  function LiveIndices(rs: seq<ShortenedUrl>, now: int): seq<nat> {
    TrueIndices(LiveFlags(rs, now))
  }

  /** Pruning keeps exactly the live records, in their original order and
      unchanged: its k-th record is the record at the k-th live position. */
  lemma {:induction false} PruneKeepsLive(rs: seq<ShortenedUrl>, now: int)
    ensures |Prune(rs, now)| == |LiveIndices(rs, now)|
    ensures forall k :: 0 <= k < |Prune(rs, now)| ==> Prune(rs, now)[k] == rs[LiveIndices(rs, now)[k]]
  {
    if rs != [] {
      var n := |rs| - 1;
      PruneKeepsLive(rs[..n], now);
      assert LiveFlags(rs, now) == LiveFlags(rs[..n], now) + [rs[n].expiryDate > now];
      TrueIndicesSnoc(LiveFlags(rs[..n], now), rs[n].expiryDate > now);
      var p', ks' := Prune(rs[..n], now), LiveIndices(rs[..n], now);
      forall k | 0 <= k < |p'| ensures p'[k] == rs[ks'[k]] {
        assert rs[..n][ks'[k]] == rs[ks'[k]];
      }
    }
  }

  /** The records pruning removes are exactly those whose expiry is not after `now`. */
  lemma PruneRemovesExpired(rs: seq<ShortenedUrl>, now: int, i: nat)
    requires i < |rs|
    ensures rs[i].expiryDate > now <==> i in LiveIndices(rs, now)
  {
  }

  /** Pruning twice at the same instant removes nothing more. */
  lemma {:induction false} PruneIdempotent(rs: seq<ShortenedUrl>, now: int)
    ensures Prune(Prune(rs, now), now) == Prune(rs, now)
  {
    if rs != [] {
      var n := |rs| - 1;
      var front := Prune(rs[..n], now);
      PruneIdempotent(rs[..n], now);
      if rs[n].expiryDate > now {
        var p := front + [rs[n]];
        assert p[..|p| - 1] == front;
        assert Prune(rs, now) == p;
        assert Prune(p, now) == Prune(front, now) + [rs[n]];
      } else {
        assert Prune(rs, now) == front + [];
        assert front + [] == front;
      }
    }
  }

  /** Pruning keeps the counters in step with the click lists. */
  lemma PruneKeepsClicksConsistent(rs: seq<ShortenedUrl>, now: int)
    requires ClicksConsistent(rs)
    ensures ClicksConsistent(Prune(rs, now))
  {
    PruneKeepsLive(rs, now);
  }

  /** At the instant of expiry a click is still accepted, yet the clean-up
      running at that same instant removes the record. */
  lemma ExpiryInstant(rs: seq<ShortenedUrl>, i: nat)
    requires i < |rs| && forall j :: 0 <= j < i ==> rs[j].shortCode != rs[i].shortCode
    ensures RedirectResult(rs, rs[i].shortCode, rs[i].expiryDate) == Redirected(rs[i].originalUrl)
    ensures i !in LiveIndices(rs, rs[i].expiryDate)
    ensures rs[i] !in Prune(rs, rs[i].expiryDate)
  {
    var code, now := rs[i].shortCode, rs[i].expiryDate;
    var f := FindByCode(rs, code);
    assert f.Some?;
    assert f.value == i;
  }
}
