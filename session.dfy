/**
 * The editor over time: the host's attributes together with the fetches still in
 * flight, driven by renders, responses arriving in any order, and user edits.
 * Every `.then` continuation of src/index.js is the `Arrive` event of its request.
 */
module Session {
  import opened Wrappers
  import opened Comics
  import opened JsNumbers
  import opened Editor

  /** What `parseInt` can give: an integer or NaN, never `undefined`. */
  type ParsedInt = x: JsNumber | !x.Undefined? witness NaN

  /** A fetch outcome: the decoded comic, or a rejected promise (not ok, or no network). */
  datatype Response = Ok(comic: Comic) | Failed

  datatype Event =
    | Render(now: int)
    | Arrive(index: nat, response: Response)
    | ComicNumberChange(parsed: ParsedInt)
    | ToggleLatest(value: bool)

  /** `attributes` as the host holds them; `pending` are the fetches not yet resolved. */
  datatype EditorState = EditorState(attributes: Attributes, pending: seq<Request>)

  const Initial: EditorState := EditorState(Defaults, [])

  /** The continuation of `req` on `response`; a rejected fetch changes nothing. */
  function OnResponse(a: Attributes, req: Request, response: Response): Attributes {
    match response
    case Failed => a
    case Ok(c) => if req.Refresh? then OnRefreshResult(a, req, c) else OnFetchResult(a, c)
  }

  /**
   * One event. A render adds what it issues to the requests in flight (there is no
   * de-duplication); the arrival of request `index` resolves and removes it (an index
   * naming no request in flight is an event that cannot happen and changes nothing).
   */
  function Step(s: EditorState, e: Event): EditorState {
    match e
    case Render(now) => EditorState(s.attributes, s.pending + Edit(s.attributes, now).requests)
    case Arrive(i, response) =>
      if i < |s.pending| then
        EditorState(OnResponse(s.attributes, s.pending[i], response), s.pending[..i] + s.pending[i + 1..])
      else s
    case ComicNumberChange(parsed) => EditorState(OnComicNumberChange(s.attributes, parsed), s.pending)
    case ToggleLatest(value) => EditorState(OnToggleLatest(s.attributes, value), s.pending)
  }

  function Run(s: EditorState, events: seq<Event>): EditorState
    decreases |events|
  {
    if events == [] then s else Run(Step(s, events[0]), events[1..])
  }

  /**
   * What every reachable state satisfies: `lastUpdate` and `lastComicNumber` never hold
   * NaN, a closed refresh gate means the latest number is known, and a stored comic
   * means a selected number exists.
   */
  ghost predicate Valid(a: Attributes) {
    !a.lastUpdate.NaN? && !a.lastComicNumber.NaN?
    && (a.lastUpdate.Num? ==> a.lastComicNumber.Num?)
    && (a.comic.Some? ==> !a.selectedComicNumber.Undefined?)
  }

  lemma StepPreservesValid(s: EditorState, e: Event)
    requires Valid(s.attributes)
    ensures Valid(Step(s, e).attributes)
    ensures s.attributes.lastComicNumber.Num? ==> Step(s, e).attributes.lastComicNumber.Num?
  {
  }

  /** Every trace keeps `Valid`, and a known latest number is never forgotten. */
  lemma {:induction false} RunPreservesValid(s: EditorState, events: seq<Event>)
    requires Valid(s.attributes)
    ensures Valid(Run(s, events).attributes)
    ensures s.attributes.lastComicNumber.Num? ==> Run(s, events).attributes.lastComicNumber.Num?
    decreases |events|
  {
    if events != [] {
      StepPreservesValid(s, events[0]);
      RunPreservesValid(Step(s, events[0]), events[1..]);
    }
  }

  /** In every reachable state with the refresh gate closed, the clamp has both bounds. */
  lemma {:induction false} ReachableClosedGateBoundsNumberChange(events: seq<Event>, k: int)
    requires Run(Initial, events).attributes.lastUpdate.Num?
    ensures var a := Run(Initial, events).attributes;
            a.lastComicNumber.Num?
            && (a.lastComicNumber.n >= 1 ==>
                  1 <= OnComicNumberChange(a, Num(k)).selectedComicNumber.n <= a.lastComicNumber.n)
  {
    RunPreservesValid(Initial, events);
  }

  predicate NoToggle(events: seq<Event>) {
    forall i :: 0 <= i < |events| ==> !events[i].ToggleLatest?
  }

  /** "Show latest" changes only through the toggle. */
  lemma {:induction false} ModeChangesOnlyByToggle(s: EditorState, events: seq<Event>)
    requires NoToggle(events)
    ensures Run(s, events).attributes.isCurrentComicSelected == s.attributes.isCurrentComicSelected
    decreases |events|
  {
    if events != [] {
      assert !events[0].ToggleLatest?;
      assert NoToggle(events[1..]) by {
        forall i | 0 <= i < |events[1..]| ensures !events[1..][i].ToggleLatest? {
          assert events[1..][i] == events[i + 1];
        }
      }
      ModeChangesOnlyByToggle(Step(s, events[0]), events[1..]);
    }
  }

  predicate NoUserEdit(events: seq<Event>) {
    forall i :: 0 <= i < |events| ==> events[i].Render? || events[i].Arrive?
  }

  /** One render or response with `lastUpdate` set keeps it set and adds no refresh request. */
  lemma StepAddsNoRefresh(s: EditorState, e: Event)
    requires s.attributes.lastUpdate.Num?
    requires e.Render? || e.Arrive?
    ensures Step(s, e).attributes.lastUpdate.Num?
    ensures forall r: Request :: r.Refresh? ==> multiset(Step(s, e).pending)[r] <= multiset(s.pending)[r]
  {
    match e
    case Render(now) =>
      assert Edit(s.attributes, now).requests == Issued(ReloadCheck(s.attributes));
    case Arrive(i, response) =>
      if i < |s.pending| {
        assert s.pending == s.pending[..i] + [s.pending[i]] + s.pending[i + 1..];
      }
  }

  /**
   * Once `lastUpdate` is set, renders and responses alone never issue another refresh,
   * however much time passes: each refresh request is in flight afterwards at most as
   * many times as it was before.
   */
  lemma {:induction false} GateStaysClosedWithoutUserEdits(s: EditorState, events: seq<Event>)
    requires s.attributes.lastUpdate.Num?
    requires NoUserEdit(events)
    ensures Run(s, events).attributes.lastUpdate.Num?
    ensures forall r: Request :: r.Refresh? ==> multiset(Run(s, events).pending)[r] <= multiset(s.pending)[r]
    decreases |events|
  {
    if events != [] {
      var t := Step(s, events[0]);
      StepAddsNoRefresh(s, events[0]);
      assert NoUserEdit(events[1..]) by {
        forall i | 0 <= i < |events[1..]| ensures events[1..][i].Render? || events[1..][i].Arrive? {
          assert events[1..][i] == events[i + 1];
        }
      }
      GateStaysClosedWithoutUserEdits(t, events[1..]);
    }
  }

  /** Two renders before any response issue the same two fetches twice. */
  lemma RendersDoNotDeduplicate()
    ensures Run(Initial, [Render(0), Render(1)]).pending
            == [Refresh(0, true, Undefined, Undefined), Load(Latest),
                Refresh(1, true, Undefined, Undefined), Load(Latest)]
  {
  }

  /**
   * A new block: the first render asks for the latest comic twice (refresh and load);
   * once both answer with comic 2955 it is displayed, selected and known as the latest.
   */
  lemma NewBlockShowsLatest(now: int)
    ensures var c := Comic(2955, "T", "u", "a");
            var s := Step(Step(Step(Initial, Render(now)), Arrive(1, Ok(c))), Arrive(0, Ok(c)));
            s.pending == []
            && s.attributes == Attributes(Some(c), true, Num(2955), Num(2955), Num(now))
            && Edit(s.attributes, now + 1) == RenderResult([], Panel(c))
  {
  }

  /** A pinned comic is fetched by its number and the known latest number is untouched. */
  lemma PinnedComicLoads()
    ensures var a := Defaults.(isCurrentComicSelected := false, selectedComicNumber := Num(10),
                               lastComicNumber := Num(2955), lastUpdate := Num(0));
            var c := Comic(10, "T", "u", "a");
            var s := Step(Step(EditorState(a, []), Render(5)), Arrive(0, Ok(c)));
            Edit(a, 5).requests == [Load(Numbered(Num(10)))]
            && s.attributes.comic == Some(c) && s.attributes.lastComicNumber == Num(2955)
  {
  }

  // The states of the stale-response trace below, one per stretch of events.
  const StaleLatest: Comic := Comic(2955, "T", "u", "a")
  const StaleTen: Comic := Comic(10, "T10", "u10", "a10")
  const StaleShown: EditorState :=
    EditorState(Attributes(Some(StaleLatest), true, Num(2955), Num(2955), Num(0)), [])
  const StaleToggled: EditorState :=
    EditorState(Attributes(Some(StaleLatest), false, Num(2955), Num(2955), Undefined),
                [Refresh(2, false, Num(2955), Num(2955))])
  const StalePicked: EditorState :=
    EditorState(Attributes(Some(StaleLatest), false, Num(10), Num(2955), Undefined),
                [Refresh(2, false, Num(2955), Num(2955)), Refresh(3, false, Num(10), Num(2955)),
                 Load(Numbered(Num(10)))])
  const StaleRestored: EditorState :=
    EditorState(Attributes(Some(StaleLatest), false, Num(2955), Num(2955), Num(2)),
                [Refresh(3, false, Num(10), Num(2955)), Load(Numbered(Num(10)))])
  const StaleRepicked: EditorState :=
    EditorState(Attributes(Some(StaleLatest), false, Num(20), Num(2955), Undefined),
                [Refresh(3, false, Num(10), Num(2955)), Load(Numbered(Num(10))),
                 Refresh(5, false, Num(20), Num(2955)), Load(Numbered(Num(20)))])

  lemma StaleTraceShown()
    ensures Step(Step(Step(Step(Initial, Render(0)), Arrive(1, Ok(StaleLatest))), Arrive(0, Ok(StaleLatest))), Render(1))
            == StaleShown
  {
    var r0 := Refresh(0, true, Undefined, Undefined);
    assert Step(Initial, Render(0)) == EditorState(Defaults, [r0, Load(Latest)]);
    assert Step(EditorState(Defaults, [r0, Load(Latest)]), Arrive(1, Ok(StaleLatest)))
           == EditorState(Attributes(Some(StaleLatest), true, Num(2955), Undefined, Undefined), [r0]);
  }

  lemma StaleTraceToggled()
    ensures Step(Step(StaleShown, ToggleLatest(false)), Render(2)) == StaleToggled
  {
  }

  lemma StaleTracePicked()
    ensures Step(Step(StaleToggled, ComicNumberChange(Num(10))), Render(3)) == StalePicked
  {
  }

  lemma StaleTraceRestored()
    ensures Step(Step(StalePicked, Arrive(0, Ok(StaleLatest))), Render(4)) == StaleRestored
  {
    assert StalePicked.pending == [StalePicked.pending[0]] + StalePicked.pending[1..];
  }

  lemma StaleTraceRepicked()
    ensures Step(Step(StaleRestored, ComicNumberChange(Num(20))), Render(5)) == StaleRepicked
  {
  }

  /**
   * No stale-response rejection, on a trace the editor can produce (every user edit
   * follows a render that showed the settings panel). The block shows 2955; the user
   * turns "show latest" off and picks 10; before comic 10 arrives, the refresh issued
   * at the toggle lands and puts the selection back to the 2955 it captured, so the
   * panel shows again; the user picks 20; then comic 10 lands and is stored, and the
   * selection jumps back to 10.
   */
  lemma StaleResponseOverridesNewChoice()
    ensures Step(Step(Step(Step(Initial, Render(0)), Arrive(1, Ok(StaleLatest))), Arrive(0, Ok(StaleLatest))), Render(1))
            == StaleShown
    ensures Edit(StaleShown.attributes, 1).view.Panel?
    ensures Step(Step(StaleShown, ToggleLatest(false)), Render(2)) == StaleToggled
    ensures Edit(StaleToggled.attributes, 2).view.Panel?
    ensures Step(Step(StaleToggled, ComicNumberChange(Num(10))), Render(3)) == StalePicked
    ensures Edit(StalePicked.attributes, 3).view.Loading?
    ensures Step(Step(StalePicked, Arrive(0, Ok(StaleLatest))), Render(4)) == StaleRestored
    ensures Edit(StaleRestored.attributes, 4).view.Panel?
    ensures Step(Step(StaleRestored, ComicNumberChange(Num(20))), Render(5)) == StaleRepicked
    ensures StaleRepicked.attributes.selectedComicNumber == Num(20)
            && StaleRepicked.pending[1] == Load(Numbered(Num(10)))
    ensures var last := Step(StaleRepicked, Arrive(1, Ok(StaleTen))).attributes;
            last.comic == Some(StaleTen) && last.selectedComicNumber == Num(10)
  {
    StaleTraceShown();
    StaleTraceToggled();
    StaleTracePicked();
    StaleTraceRestored();
    StaleTraceRepicked();
  }

  /**
   * Once a reachable state holds a comic, the reload check never asks for the latest
   * comic again: it always fetches by the selected number.
   */
  lemma {:induction false} ReachableComicNeverReloadsLatest(events: seq<Event>)
    ensures var a := Run(Initial, events).attributes;
            a.comic.Some? && ReloadCheck(a).Some? ==> ReloadCheck(a).value.target.Numbered?
  {
    RunPreservesValid(Initial, events);
  }

  /** A rejected fetch of either kind changes no attribute; it only leaves the requests in flight. */
  lemma FailedResponseChangesNothing(s: EditorState, i: nat)
    requires i < |s.pending|
    ensures Step(s, Arrive(i, Failed)).attributes == s.attributes
    ensures |Step(s, Arrive(i, Failed)).pending| == |s.pending| - 1
  {
  }
}
