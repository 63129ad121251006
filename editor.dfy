/**
 * The attribute state machine of the block's editor (`edit` in src/index.js).
 * The host keeps the attributes; every handler hands it a partial record that it
 * merges in. Here each handler is a function from the attributes it sees to the
 * attributes after the merge, written with Dafny's datatype update, and each
 * network call is a request value that a later response event resolves.
 */
module Editor {
  import opened Wrappers
  import opened Comics
  import opened JsNumbers

  /** UPDATE_INTERVAL, in milliseconds. The gate below never consults it. */
  const UpdateInterval: int := 60000

  /** The persisted block attributes. */
  datatype Attributes = Attributes(
    comic: Option<Comic>,
    isCurrentComicSelected: bool,
    selectedComicNumber: JsNumber,
    lastComicNumber: JsNumber,
    lastUpdate: JsNumber)

  /** A new block: only `isCurrentComicSelected` has a default. */
  const Defaults: Attributes := Attributes(None, true, Undefined, Undefined, Undefined)

  /** What `fetchComic` asks the API for. */
  datatype Target = Latest | Numbered(id: JsNumber)

  /**
   * A fetch in flight. `Refresh` is the latest-comic fetch of `checkForUpdates`; it
   * carries the time and the attribute values its continuation closed over.
   * `Load` is the fetch of the displayed comic.
   */
  datatype Request =
    | Refresh(checkUpdateTime: int, wasCurrentComicSelected: bool,
              wasSelectedComicNumber: JsNumber, wasLastComicNumber: JsNumber)
    | Load(target: Target)

  /** `fetchComic(comicNumber)`: the default parameter applies only to `undefined`. */
  function FetchTarget(comicNumber: JsNumber): (t: Target)
    ensures t.Latest? <==> comicNumber.Undefined?
    ensures t.Numbered? ==> t.id == comicNumber
  {
    if comicNumber.Undefined? then Latest else Numbered(comicNumber)
  }

  // ---------------------------------------------------------------------------
  // Refresh gate and refresh result

  /** The early-return condition of `checkForUpdates`, evaluated with JavaScript semantics. */
  predicate RefreshSkipped(a: Attributes, now: int) {
    a.lastUpdate != Undefined || Less(Minus(a.lastUpdate, Num(now)), Num(UpdateInterval))
  }

  /**
   * `checkForUpdates`: the latest-comic request it issues, if any. A refresh is due
   * exactly when `lastUpdate` is undefined, whatever the clock says.
   */
  function CheckForUpdates(a: Attributes, now: int): (req: Option<Request>)
    ensures req.Some? <==> a.lastUpdate.Undefined?
    ensures req.Some? ==> req.value == Refresh(now, a.isCurrentComicSelected, a.selectedComicNumber, a.lastComicNumber)
  {
    if RefreshSkipped(a, now) then None
    else Some(Refresh(now, a.isCurrentComicSelected, a.selectedComicNumber, a.lastComicNumber))
  }

  /**
   * NOT the block's behaviour: the periodic gate that UPDATE_INTERVAL and the comment
   * above `checkForUpdates` suggest (refresh when never refreshed or when the interval
   * has elapsed since the last refresh).
   */
  predicate IntendedRefreshDue(a: Attributes, now: int) {
    a.lastUpdate.Undefined? || (a.lastUpdate.Num? && now - a.lastUpdate.n >= UpdateInterval)
  }

  /** Every refresh the block issues is one the intended gate would issue too. */
  lemma RefreshOnlyWhenIntended(a: Attributes, now: int)
    ensures CheckForUpdates(a, now).Some? ==> IntendedRefreshDue(a, now)
  {
  }

  /** The converse fails: an hour after a refresh the block still does not refresh. */
  lemma ElapsedIntervalTriggersNoRefresh()
    ensures var a := Defaults.(lastComicNumber := Num(2955), lastUpdate := Num(0));
            IntendedRefreshDue(a, 3600000) && CheckForUpdates(a, 3600000).None?
  {
  }

  /** The selection ternary of the refresh continuation, on the values it closed over. */
  function SelectionAfterRefresh(req: Request, newNum: int): (s: JsNumber)
    requires req.Refresh?
    ensures (req.wasCurrentComicSelected || req.wasSelectedComicNumber.Undefined?
             || (req.wasSelectedComicNumber.Num? && req.wasLastComicNumber.Num?
                 && req.wasSelectedComicNumber.n > req.wasLastComicNumber.n))
            ==> s == Num(newNum)
    ensures !(req.wasCurrentComicSelected || req.wasSelectedComicNumber.Undefined?
              || (req.wasSelectedComicNumber.Num? && req.wasLastComicNumber.Num?
                  && req.wasSelectedComicNumber.n > req.wasLastComicNumber.n))
            ==> s == req.wasSelectedComicNumber
  {
    if req.wasCurrentComicSelected
       || req.wasSelectedComicNumber == Undefined
       || Greater(req.wasSelectedComicNumber, req.wasLastComicNumber)
    then Num(newNum)
    else req.wasSelectedComicNumber
  }

  /**
   * The refresh continuation once the latest comic has arrived. There is no guard
   * against a smaller latest number and no check that the request is still current.
   */
  function OnRefreshResult(a: Attributes, req: Request, newComic: Comic): (b: Attributes)
    requires req.Refresh?
    ensures b.lastComicNumber == Num(newComic.num)
    ensures b.lastUpdate == Num(req.checkUpdateTime)
    ensures b.selectedComicNumber == SelectionAfterRefresh(req, newComic.num)
    ensures b.comic == a.comic && b.isCurrentComicSelected == a.isCurrentComicSelected
  {
    a.(lastComicNumber := Num(newComic.num),
       selectedComicNumber := SelectionAfterRefresh(req, newComic.num),
       lastUpdate := Num(req.checkUpdateTime))
  }

  /** The latest number is adopted even when it is smaller than the known one. */
  lemma RefreshAdoptsSmallerLatest()
    ensures var a := Defaults.(lastComicNumber := Num(800));
            var req := CheckForUpdates(a, 0).value;
            OnRefreshResult(a, req, Comic(799, "T", "u", "a")).lastComicNumber == Num(799)
  {
  }

  // ---------------------------------------------------------------------------
  // Reload check and fetch result

  /** `comic === undefined || comic.num !== selectedComicNumber`. */
  predicate ReloadNeeded(a: Attributes) {
    a.comic.None? || !StrictEquals(Num(a.comic.value.num), a.selectedComicNumber)
  }

  /** The fetch of the displayed comic issued by the reload check, if any. */
  function ReloadCheck(a: Attributes): (req: Option<Request>)
    ensures req.Some? <==> (a.comic.None? || a.selectedComicNumber != Num(a.comic.value.num))
    ensures req.Some? ==> req.value == Load(FetchTarget(a.selectedComicNumber))
    ensures a.selectedComicNumber.NaN? ==> req.Some?
  {
    if ReloadNeeded(a) then Some(Load(FetchTarget(a.selectedComicNumber))) else None
  }

  /**
   * The reload continuation: store the fetched comic and select its number. After it
   * the reload check issues nothing.
   */
  function OnFetchResult(a: Attributes, newComic: Comic): (b: Attributes)
    ensures b.comic == Some(newComic) && b.selectedComicNumber == Num(newComic.num)
    ensures b.isCurrentComicSelected == a.isCurrentComicSelected
    ensures b.lastComicNumber == a.lastComicNumber && b.lastUpdate == a.lastUpdate
    ensures ReloadCheck(b).None?
  {
    a.(comic := Some(newComic), selectedComicNumber := Num(newComic.num))
  }

  /** A response for an outdated target is stored anyway and overrides the user's choice. */
  lemma StaleFetchResultIsAdopted()
    ensures var a := Defaults.(isCurrentComicSelected := false, selectedComicNumber := Num(20),
                               lastComicNumber := Num(2955));
            var b := OnFetchResult(a, Comic(10, "T", "u", "a"));
            b.comic.value.num == 10 && b.selectedComicNumber == Num(10)
  {
  }

  // ---------------------------------------------------------------------------
  // User edits

  /**
   * The "edge cases" branch of `onComicNumberChange`: below 1 gives 1, above the last
   * known number gives that number, anything else (NaN included) passes unchanged.
   */
  function ClampComicNumber(n: JsNumber, last: JsNumber): (r: JsNumber)
    ensures n.Num? ==> r.Num?
    ensures n.Num? && !last.Num? ==> r.n >= 1
    ensures n.Num? && n.n < 1 ==> r == Num(1)
    ensures n.Num? && last.Num? && n.n >= 1 && n.n > last.n ==> r == last
    ensures n.Num? && last.Num? && last.n >= 1 ==> 1 <= r.n <= last.n
    ensures n.Num? && n.n >= 1 && (last.Num? ==> n.n <= last.n) ==> r == n
    ensures !n.Num? ==> r == n
  {
    if Less(n, Num(1)) then Num(1)
    else if Greater(n, last) then last
    else n
  }

  /** `onComicNumberChange` on the already parsed value. */
  function OnComicNumberChange(a: Attributes, parsed: JsNumber): (b: Attributes)
    ensures b.selectedComicNumber == ClampComicNumber(parsed, a.lastComicNumber)
    ensures b.lastUpdate == Undefined
    ensures b.comic == a.comic && b.isCurrentComicSelected == a.isCurrentComicSelected
    ensures b.lastComicNumber == a.lastComicNumber
  {
    a.(selectedComicNumber := ClampComicNumber(parsed, a.lastComicNumber), lastUpdate := Undefined)
  }

  /** The toggle's `onChange`. */
  function OnToggleLatest(a: Attributes, value: bool): (b: Attributes)
    ensures b.isCurrentComicSelected == value && b.lastUpdate == Undefined
    ensures b.comic == a.comic && b.selectedComicNumber == a.selectedComicNumber
    ensures b.lastComicNumber == a.lastComicNumber
  {
    a.(isCurrentComicSelected := value, lastUpdate := Undefined)
  }

  // ---------------------------------------------------------------------------
  // One render pass

  /** What a render shows: the loading text, or the settings panel beside the comic. */
  datatype View = Loading | Panel(comic: Comic)

  datatype RenderResult = RenderResult(requests: seq<Request>, view: View)

  function Issued(req: Option<Request>): seq<Request> {
    if req.Some? then [req.value] else []
  }

  /**
   * One call of `edit`: `checkForUpdates`, then the reload check, which returns the
   * loading text when it fires.
   */
  function Edit(a: Attributes, now: int): (out: RenderResult)
    ensures Refresh(now, a.isCurrentComicSelected, a.selectedComicNumber, a.lastComicNumber) in out.requests
            <==> a.lastUpdate.Undefined?
    ensures Load(FetchTarget(a.selectedComicNumber)) in out.requests <==> ReloadNeeded(a)
    ensures forall r :: r in out.requests ==>
              r == Refresh(now, a.isCurrentComicSelected, a.selectedComicNumber, a.lastComicNumber)
              || r == Load(FetchTarget(a.selectedComicNumber))
    ensures |out.requests| == (if a.lastUpdate.Undefined? then 1 else 0) + (if ReloadNeeded(a) then 1 else 0)
    ensures a.lastUpdate.Undefined? ==> out.requests[0].Refresh?
    ensures out.view.Loading? <==> ReloadNeeded(a)
    ensures out.view.Panel? ==> a.comic == Some(out.view.comic)
  {
    var refresh := CheckForUpdates(a, now);
    var reload := ReloadCheck(a);
    RenderResult(Issued(refresh) + Issued(reload),
                 if reload.Some? then Loading else Panel(a.comic.value))
  }

  /**
   * Reload idempotence: once a fetched comic is stored, rendering again (with no other
   * change) issues no fetch of the displayed comic and shows that comic.
   */
  lemma RenderAfterFetchIssuesNoLoad(a: Attributes, c: Comic, now: int)
    ensures var out := Edit(OnFetchResult(a, c), now);
            out.view == Panel(c) && forall r :: r in out.requests ==> r.Refresh?
  {
  }

  /** A number change or a toggle reopens the refresh gate for the next render. */
  lemma UserEditsReopenGate(a: Attributes, parsed: JsNumber, value: bool, now: int)
    ensures CheckForUpdates(OnComicNumberChange(a, parsed), now).Some?
    ensures CheckForUpdates(OnToggleLatest(a, value), now).Some?
  {
  }

  /** A toggle does not by itself change whether the displayed comic is reloaded. */
  lemma ToggleKeepsReloadDecision(a: Attributes, value: bool)
    ensures ReloadCheck(OnToggleLatest(a, value)) == ReloadCheck(a)
  {
  }

  /**
   * Switching to "show latest": the next render refreshes, and once that refresh
   * lands the selection is the latest number, so the comic is reloaded unless it is
   * already the latest one.
   */
  lemma ToggleOnFollowsLatest(a: Attributes, now: int, latest: Comic)
    ensures var b := OnToggleLatest(a, true);
            var req := CheckForUpdates(b, now);
            req.Some?
            && OnRefreshResult(b, req.value, latest).selectedComicNumber == Num(latest.num)
            && (ReloadCheck(OnRefreshResult(b, req.value, latest)).Some?
                <==> (a.comic.None? || a.comic.value.num != latest.num))
  {
  }
}
