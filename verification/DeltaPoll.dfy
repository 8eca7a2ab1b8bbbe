/** The delta poll protocol: pages, downloads, handoff, cursor (`poll_account_once`, `download_candidates`). */
module DeltaPoll {
  import opened Reducer
  import Storage
  import Records
  import Lifecycle
  import B = Batch
  import opened Wrappers

  type Url = string

  /** A Graph delta page. Nothing is assumed about which links it carries. */
  datatype Page = Page(value: Option<seq<RawItem>>, next: Option<Url>, delta: Option<Url>)

  /** Why a candidate is given up. */
  datatype Reason = MissingSize | NoDownloadUrl | StillUnreachable

  /** The externally visible steps of a poll. `budget` is what was left of the download budget when the page
      arrived; `None` means unlimited. A quarantined file has been downloaded but is neither kept nor handed off. */
  datatype Step =
    | Fetched(url: Url, page: Page, budget: Option<nat>)
    | Ghosted(candidate: Candidate, reason: Reason)
    | Quarantined(candidate: Candidate)
    | Downloaded(candidate: Candidate)
    | HandedOff(batch: seq<Candidate>, outcomes: seq<B.Outcome>)
    | Saved(link: Url)

  /** Each candidate of a batch has an ingest outcome of its own. */
  ghost predicate Answers(batch: seq<Candidate>, outcomes: seq<B.Outcome>) {
    |outcomes| == |batch| && forall i :: 0 <= i < |batch| ==> outcomes[i].key.onedriveId == batch[i].itemId
  }

  /** Everything that has happened, last step outermost. A crash leaves some `past`. */
  datatype History = Nothing | Then(past: History, step: Step)

  function Length(t: History): nat {
    match t case Nothing => 0 case Then(p, _) => Length(p) + 1
  }

  ghost predicate Prefix(h: History, t: History) {
    h == t || (t.Then? && Prefix(h, t.past))
  }

  function Items(page: Page): seq<RawItem> {
    if page.value.Some? then page.value.value else []
  }

  /** The page's candidates that fall inside the budget. The rest of the page is never looked at again. */
  function InBudget(e: Step): seq<Candidate>
    requires e.Fetched?
  {
    var all := Backward(Items(e.page), {});
    if e.budget.Some? && e.budget.value < |all| then all[..e.budget.value] else all
  }

  /** The whole page falls inside the budget. */
  predicate FitsBudget(e: Step)
    requires e.Fetched?
  {
    e.budget.None? || |Backward(Items(e.page), {})| <= e.budget.value
  }

  /** Where the next run starts: the last saved cursor, or the initial URL when there is none. */
  function Resume(initial: Url, t: History): Url {
    match t
    case Nothing => initial
    case Then(p, e) => if e.Saved? then (if e.link == "" then initial else e.link) else Resume(initial, p)
  }

  predicate Settles(e: Step, c: Candidate) {
    ((e.Ghosted? || e.Quarantined?) && e.candidate == c) || (e.HandedOff? && c in e.batch)
  }

  /** After its first n steps, the history hands the candidate off or gives it a ghost reason. */
  predicate SettledAfter(n: nat, t: History, c: Candidate) {
    t.Then? && ((Length(t.past) >= n && Settles(t.step, c)) || SettledAfter(n, t.past, c))
  }

  ghost predicate Carries(p: Page, link: Url) {
    p.next == Some(link) || p.delta == Some(link)
  }

  /** The page fetched last, unless nothing was fetched yet. */
  function Current(t: History): Option<Step> {
    match t case Nothing => None case Then(p, e) => if e.Fetched? then Some(e) else Current(p)
  }

  /** The candidate is one of those the current page offers within the budget. */
  predicate Offered(t: History, c: Candidate) {
    Current(t).Some? && Current(t).value.Fetched? && c in InBudget(Current(t).value)
  }

  /** The candidate was downloaded since the last fetch. */
  predicate DownloadedNow(t: History, c: Candidate) {
    t.Then? && !t.step.Fetched? && (t.step == Downloaded(c) || DownloadedNow(t.past, c))
  }

  /** Every in-budget candidate of the page that ends `h` was settled afterwards. */
  ghost predicate Done(t: History, h: History) {
    Prefix(h, t) && h.Then? && h.step.Fetched? && forall c :: c in InBudget(h.step) ==> SettledAfter(Length(h), t, c)
  }

  ghost predicate Finished(t: History, h: History, link: Url) {
    Done(t, h) && Carries(h.step.page, link)
  }

  /** What may follow a history: fetches start at the persisted cursor, a saved link belongs to a finished page,
      only what the current page offers is touched, and only what was downloaded from it is handed off. */
  ghost predicate Allowed(initial: Url, t: History, e: Step) {
    match e
    case Fetched(url, _, _) => url == Resume(initial, t)
    case Saved(link) => exists h :: Finished(t, h, link)
    case Ghosted(c, _) => Offered(t, c)
    case Quarantined(c) => Offered(t, c)
    case Downloaded(c) => Offered(t, c)
    case HandedOff(batch, outcomes) => Answers(batch, outcomes) && forall c :: c in batch ==> DownloadedNow(t, c)
  }

  /** Every step was allowed when it was taken; so the same holds of every prefix. */
  ghost predicate Consistent(initial: Url, t: History) {
    t.Then? ==> Consistent(initial, t.past) && Allowed(initial, t.past, t.step)
  }

  /** A crash keeps a prefix, and a prefix of a consistent history is consistent. */
  lemma {:induction false} PrefixConsistent(initial: Url, h: History, t: History)
    requires Consistent(initial, t) && Prefix(h, t)
    ensures Consistent(initial, h)
    decreases t
  {
    if h == t {
    } else {
      PrefixConsistent(initial, h, t.past);
    }
  }

  lemma {:induction false} PrefixShrinks(h: History, t: History)
    requires Prefix(h, t)
    ensures Length(h) <= Length(t)
    decreases t
  {
    if h == t {
    } else {
      PrefixShrinks(h, t.past);
    }
  }

  lemma {:induction false} PrefixTransitive(g: History, h: History, t: History)
    requires Prefix(g, h) && Prefix(h, t)
    ensures Prefix(g, t)
    decreases t
  {
    if h == t {
    } else {
      PrefixTransitive(g, h, t.past);
    }
  }

  lemma {:induction false} SettledMonotone(n: nat, h: History, t: History, c: Candidate)
    requires Prefix(h, t) && SettledAfter(n, h, c)
    ensures SettledAfter(n, t, c)
    decreases t
  {
    if h == t {
    } else {
      SettledMonotone(n, h, t.past, c);
    }
  }

  lemma FinishedMonotone(h: History, t: History, u: History, link: Url)
    requires Finished(t, h, link) && Prefix(t, u)
    ensures Finished(u, h, link)
  {
    PrefixTransitive(h, t, u);
    forall c | c in InBudget(h.step) ensures SettledAfter(Length(h), u, c) {
      SettledMonotone(Length(h), t, u, c);
    }
  }

  /** A chain of finished pages that leads from the initial URL to `url`, each page reached by the link before it. */
  ghost predicate Chain(initial: Url, t: History, pages: seq<History>, url: Url)
    decreases |pages|
  {
    if pages == [] then url == initial
    else
      var h := pages[|pages| - 1];
      Finished(t, h, url) && Chain(initial, h.past, pages[..|pages| - 1], h.step.url)
  }

  lemma {:induction false} ChainMonotone(initial: Url, t: History, u: History, pages: seq<History>, url: Url)
    requires Chain(initial, t, pages, url) && Prefix(t, u)
    ensures Chain(initial, u, pages, url)
  {
    if pages != [] {
      FinishedMonotone(pages[|pages| - 1], t, u, url);
    }
  }

  /** At-least-once delivery: whatever the history, the persisted cursor is the initial URL or sits at the end of
      a chain of finished pages, each finished before the next one was fetched. */
  lemma {:induction false} CursorEndsFinishedChain(initial: Url, t: History) returns (pages: seq<History>)
    requires Consistent(initial, t)
    ensures Chain(initial, t, pages, Resume(initial, t))
    decreases Length(t)
  {
    if t.Nothing? || (t.step.Saved? && t.step.link == "") {
      pages := [];
    } else if t.step.Saved? {
      var h :| Finished(t.past, h, t.step.link);
      PrefixConsistent(initial, h, t.past);
      PrefixShrinks(h, t.past);
      var before := CursorEndsFinishedChain(initial, h.past);
      FinishedMonotone(h, t.past, t, t.step.link);
      pages := before + [h];
      assert pages[..|pages| - 1] == before;
    } else {
      pages := CursorEndsFinishedChain(initial, t.past);
      ChainMonotone(initial, t.past, t, pages, Resume(initial, t.past));
    }
  }

  /** Read off the chain: no in-budget candidate of a page before the cursor was lost. */
  lemma {:induction false} ChainLosesNothing(initial: Url, t: History, pages: seq<History>, url: Url, k: nat,
                                             c: Candidate)
    requires Chain(initial, t, pages, url) && k < |pages|
    ensures Prefix(pages[k], t) && pages[k].Then? && pages[k].step.Fetched?
    ensures c in InBudget(pages[k].step) ==> SettledAfter(Length(pages[k]), t, c)
    ensures FitsBudget(pages[k].step) && c in Backward(Items(pages[k].step.page), {}) ==>
      SettledAfter(Length(pages[k]), t, c)
    decreases |pages|
  {
    if k == |pages| - 1 {
    } else {
      var h := pages[|pages| - 1];
      ChainLosesNothing(initial, h.past, pages[..|pages| - 1], h.step.url, k, c);
      assert Prefix(h.past, h);
      PrefixTransitive(h.past, h, t);
      PrefixTransitive(pages[k], h.past, t);
      if c in InBudget(pages[k].step) {
        SettledMonotone(Length(pages[k]), h.past, t, c);
      }
    }
  }

  /** The step gives the candidate up with a reason, or hands it off and brings its ingest outcome. */
  ghost predicate Accounts(e: Step, c: Candidate) {
    ((e.Ghosted? || e.Quarantined?) && e.candidate == c) ||
    (e.HandedOff? && Answers(e.batch, e.outcomes) && exists i :: 0 <= i < |e.batch| && e.batch[i] == c)
  }

  ghost predicate AccountedAfter(n: nat, t: History, c: Candidate) {
    t.Then? && ((Length(t.past) >= n && Accounts(t.step, c)) || AccountedAfter(n, t.past, c))
  }

  lemma {:induction false} SettledIsAccounted(initial: Url, n: nat, t: History, c: Candidate)
    requires Consistent(initial, t) && SettledAfter(n, t, c)
    ensures AccountedAfter(n, t, c)
  {
    if Length(t.past) >= n && Settles(t.step, c) {
      assert Accounts(t.step, c);
    } else {
      SettledIsAccounted(initial, n, t.past, c);
    }
  }

  /** Poll and ingest together: every in-budget candidate of a page before the cursor was given up with a reason or has
      an ingest outcome. */
  lemma ChainIsAccounted(initial: Url, t: History, pages: seq<History>, url: Url, k: nat, c: Candidate)
    requires Consistent(initial, t) && Chain(initial, t, pages, url) && k < |pages|
    ensures pages[k].Then? && pages[k].step.Fetched?
    ensures c in InBudget(pages[k].step) ==> AccountedAfter(Length(pages[k]), t, c)
  {
    ChainLosesNothing(initial, t, pages, url, k, c);
    if c in InBudget(pages[k].step) {
      SettledIsAccounted(initial, Length(pages[k]), t, c);
    }
  }

  /** Whatever was hashed for an outcome is on record. */
  ghost predicate Delivered(t: History, hashes: set<Storage.Sha>) {
    t.Then? ==>
      && Delivered(t.past, hashes)
      && (t.step.HandedOff? ==> forall i :: 0 <= i < |t.step.outcomes| ==> B.OnRecord(t.step.outcomes[i], hashes))
  }

  lemma {:induction false} DeliveredMore(t: History, hashes: set<Storage.Sha>, more: set<Storage.Sha>)
    requires Delivered(t, hashes) && hashes <= more
    ensures Delivered(t, more)
  {
    if t.Nothing? {
    } else {
      DeliveredMore(t.past, hashes, more);
    }
  }

  lemma {:induction false} DownloadedIsOffered(initial: Url, t: History, c: Candidate)
    requires Consistent(initial, t) && DownloadedNow(t, c)
    ensures Offered(t, c)
  {
    if t.step == Downloaded(c) {
    } else {
      DownloadedIsOffered(initial, t.past, c);
    }
  }

  lemma {:induction false} SettledNeedsLength(n: nat, t: History, c: Candidate)
    requires SettledAfter(n, t, c)
    ensures Length(t) > n
  {
    if !(Length(t.past) >= n && Settles(t.step, c)) {
      SettledNeedsLength(n, t.past, c);
    }
  }

  ghost predicate NoFetchSince(h: History, t: History) {
    h == t || (t.Then? && !t.step.Fetched? && NoFetchSince(h, t.past))
  }

  lemma {:induction false} CurrentSince(h: History, t: History)
    requires NoFetchSince(h, t) && h.Then? && h.step.Fetched?
    ensures Current(t) == Some(h.step)
    decreases t
  {
    if h == t {
    } else {
      CurrentSince(h, t.past);
    }
  }

  /** Until the next fetch, nothing is settled but what the page offers within the budget. */
  lemma {:induction false} OnlyOfferedSettles(initial: Url, h: History, t: History, c: Candidate)
    requires Consistent(initial, t) && Prefix(h, t) && h.Then? && h.step.Fetched? && NoFetchSince(h, t)
    requires SettledAfter(Length(h), t, c)
    ensures c in InBudget(h.step)
    decreases t
  {
    if h == t {
      SettledNeedsLength(Length(h), t, c);
    } else {
      CurrentSince(h, t.past);
      if Settles(t.step, c) {
        if t.step.HandedOff? {
          DownloadedIsOffered(initial, t.past, c);
        }
      } else {
        OnlyOfferedSettles(initial, h, t.past, c);
      }
    }
  }

  /** The budget cut, exactly: when the protocol is done with a page and before it fetches the next one, all of the
      page's candidates are settled if and only if the page fits the budget it was fetched with. */
  lemma WholePageSettled(initial: Url, h: History, t: History)
    requires Consistent(initial, t) && Done(t, h) && NoFetchSince(h, t)
    ensures (forall c :: c in Backward(Items(h.step.page), {}) ==> SettledAfter(Length(h), t, c)) <==>
      FitsBudget(h.step)
  {
    var all := Backward(Items(h.step.page), {});
    if FitsBudget(h.step) {
      assert InBudget(h.step) == all;
    } else {
      var n := h.step.budget.value;
      BackwardIds(Items(h.step.page), {});
      if SettledAfter(Length(h), t, all[n]) {
        OnlyOfferedSettles(initial, h, t, all[n]);
      }
      assert all[n] in all;
    }
  }

  // ---- the steps of one run ----

  function Downloads(t: History): nat {
    match t case Nothing => 0 case Then(p, e) => Downloads(p) + (if e.Downloaded? then 1 else 0)
  }

  /** Every completed download, kept or not. */
  function Transfers(t: History): nat {
    match t case Nothing => 0 case Then(p, e) => Transfers(p) + (if e.Downloaded? || e.Quarantined? then 1 else 0)
  }

  /** Those since the last fetch. */
  function SinceFetch(t: History): nat {
    match t
    case Nothing => 0
    case Then(p, e) => if e.Fetched? then 0 else SinceFetch(p) + (if e.Downloaded? || e.Quarantined? then 1 else 0)
  }

  function Fetches(t: History): nat {
    match t case Nothing => 0 case Then(p, e) => Fetches(p) + (if e.Fetched? then 1 else 0)
  }

  function Urls(t: History): set<Url> {
    match t case Nothing => {} case Then(p, e) => Urls(p) + (if e.Fetched? then {e.url} else {})
  }

  function Append(base: History, run: History): History {
    match run case Nothing => base case Then(p, e) => Then(Append(base, p), e)
  }

  function Left(max: int, used: nat): nat {
    if max > used then max - used else 0
  }

  datatype IntegrityMode = Strict | Tolerant | Other

  datatype Config = Config(maxDownloads: int, maxDeltaPages: int, mode: IntegrityMode, loopResyncThreshold: int)

  function Budget(cfg: Config, used: nat): Option<nat> {
    if cfg.maxDownloads > 0 then Some(Left(cfg.maxDownloads, used)) else None
  }

  /** Room for one more download from the current page: the budget counts kept files over the run, the limit of a page
      counts its candidates. */
  ghost predicate PageRoom(cfg: Config, run: History) {
    Fetches(run) > 0 && (cfg.maxDownloads > 0 ==> SinceFetch(run) < cfg.maxDownloads)
  }

  /** What one run may add to its own steps. */
  ghost predicate Fits(cfg: Config, run: History, e: Step) {
    match e
    case Fetched(url, _, budget) =>
      url !in Urls(run) && Fetches(run) < cfg.maxDeltaPages && budget == Budget(cfg, Downloads(run))
    case Downloaded(_) => PageRoom(cfg, run) && (cfg.maxDownloads > 0 ==> Downloads(run) < cfg.maxDownloads)
    case Quarantined(c) => PageRoom(cfg, run) && cfg.mode.Tolerant? && c.size.None?
    case _ => true
  }

  ghost predicate WithinLimits(cfg: Config, run: History) {
    run.Then? ==> WithinLimits(cfg, run.past) && Fits(cfg, run.past, run.step)
  }

  lemma Fewer(max: nat, n: nat)
    ensures n > 0 ==> max * n == max * (n - 1) + max
  {
  }

  lemma {:induction false} PageBounds(cfg: Config, run: History)
    requires WithinLimits(cfg, run) && cfg.maxDownloads > 0
    ensures SinceFetch(run) <= cfg.maxDownloads && (Fetches(run) == 0 ==> Transfers(run) == 0)
    ensures Fetches(run) > 0 ==> Transfers(run) <= cfg.maxDownloads * (Fetches(run) - 1) + SinceFetch(run)
  {
    if run.Nothing? {
    } else {
      PageBounds(cfg, run.past);
      Fewer(cfg.maxDownloads, Fetches(run.past));
    }
  }

  /** What the limits add up to over a whole run: as many different URLs as fetches, both kinds of cap for kept files,
      and a cap per page for all downloads. */
  lemma {:induction false} RunBounds(cfg: Config, run: History)
    requires WithinLimits(cfg, run)
    ensures |Urls(run)| == Fetches(run) <= Left(cfg.maxDeltaPages, 0)
    ensures cfg.maxDownloads > 0 ==> Downloads(run) <= cfg.maxDownloads
    ensures cfg.maxDownloads > 0 ==> Transfers(run) <= cfg.maxDownloads * Fetches(run)
    ensures !cfg.mode.Tolerant? ==> Transfers(run) == Downloads(run)
  {
    if run.Nothing? {
    } else {
      RunBounds(cfg, run.past);
      if cfg.maxDownloads > 0 {
        PageBounds(cfg, run);
        Fewer(cfg.maxDownloads, Fetches(run));
      }
    }
  }

  /** Every candidate the run was shown has a size. */
  ghost predicate SizesKnown(run: History) {
    run.Then? ==>
      && SizesKnown(run.past)
      && (run.step.Fetched? ==> forall c :: c in Backward(Items(run.step.page), {}) ==> c.size.Some?)
  }

  lemma {:induction false} CurrentOfRun(base: History, run: History)
    requires Fetches(run) > 0
    ensures Current(Append(base, run)) == Current(run) && Current(run).Some? && Current(run).value.Fetched?
    ensures SizesKnown(run) ==> forall c :: c in InBudget(Current(run).value) ==> c.size.Some?
  {
    if run.step.Fetched? {
    } else {
      CurrentOfRun(base, run.past);
    }
  }

  /** When all sizes are known every download is kept, so the cap holds for all of them. */
  lemma {:induction false} SizedIsKept(initial: Url, cfg: Config, base: History, run: History)
    requires Consistent(initial, Append(base, run)) && WithinLimits(cfg, run) && SizesKnown(run)
    ensures Transfers(run) == Downloads(run)
  {
    if run.Nothing? {
    } else {
      SizedIsKept(initial, cfg, base, run.past);
      if run.step.Quarantined? {
        CurrentOfRun(base, run.past);
        assert false;
      }
    }
  }

  datatype FetchResult = Got(page: Page) | ResyncRequired | FetchFailed

  datatype ResolveResult = Fresh | NoUrl | ResolveFailed

  datatype DownloadResult = Complete | Unreachable | DownloadFailed

  /** The outside world answers as a function of everything that has happened. */
  datatype World = World(
    fetch: (History, Url) -> FetchResult,
    resolve: (History, Candidate, bool) -> ResolveResult,
    download: (History, Candidate, bool) -> DownloadResult,
    jobs: (History, seq<Candidate>) -> seq<B.Job>,
    schedule: (History, seq<Candidate>) -> seq<nat>,
    late: History -> bool,
    cooling: History -> bool)

  /** Jobs made of a batch: one per candidate, under its id, from the staging area. */
  ghost predicate Fitting(batch: seq<Candidate>, jobs: seq<B.Job>) {
    && |jobs| == |batch| && B.GoodJobs(jobs)
    && forall i :: 0 <= i < |batch| ==> jobs[i].candidate.key.onedriveId == batch[i].itemId
  }

  ghost predicate GoodWorld(w: World) {
    forall h, batch :: Fitting(batch, w.jobs(h, batch)) && B.Permutation(w.schedule(h, batch), |batch|)
  }

  // ---- what the world's answers mean for a candidate that is tried after h ----

  ghost predicate HasUrl(c: Candidate) {
    c.downloadUrl.Some? && c.downloadUrl.value != ""
  }

  /** There is a URL to try: its own, or one from its metadata. */
  ghost predicate Findable(w: World, h: History, c: Candidate) {
    HasUrl(c) || w.resolve(h, c, false).Fresh?
  }

  /** The first URL turns out to be stale. */
  ghost predicate Stale(w: World, h: History, c: Candidate) {
    Findable(w, h, c) && w.download(h, c, false).Unreachable?
  }

  /** A download completes, at once or after the one refresh. */
  ghost predicate Completes(w: World, h: History, c: Candidate) {
    || (Findable(w, h, c) && w.download(h, c, false).Complete?)
    || (Stale(w, h, c) && w.resolve(h, c, true).Fresh? && w.download(h, c, true).Complete?)
  }

  ghost predicate LacksUrl(w: World, h: History, c: Candidate) {
    (!HasUrl(c) && w.resolve(h, c, false).NoUrl?) || (Stale(w, h, c) && w.resolve(h, c, true).NoUrl?)
  }

  ghost predicate StaysStale(w: World, h: History, c: Candidate) {
    Stale(w, h, c) && w.resolve(h, c, true).Fresh? && w.download(h, c, true).Unreachable?
  }

  /** Some request fails in a way that ends the poll. */
  ghost predicate Breaks(w: World, h: History, c: Candidate) {
    || (!HasUrl(c) && w.resolve(h, c, false).ResolveFailed?)
    || (Findable(w, h, c) && w.download(h, c, false).DownloadFailed?)
    || (Stale(w, h, c) && w.resolve(h, c, true).ResolveFailed?)
    || (Stale(w, h, c) && w.resolve(h, c, true).Fresh? && w.download(h, c, true).DownloadFailed?)
  }

  /** Strict mode does not try a candidate without size. */
  ghost predicate Refused(cfg: Config, c: Candidate) {
    c.size.None? && cfg.mode.Strict?
  }

  ghost predicate Keepable(cfg: Config, c: Candidate) {
    c.size.Some? || cfg.mode.Other?
  }

  ghost predicate Justified(w: World, cfg: Config, h: History, c: Candidate, r: Reason) {
    match r
    case MissingSize => Refused(cfg, c)
    case NoDownloadUrl => !Refused(cfg, c) && LacksUrl(w, h, c)
    case StillUnreachable => !Refused(cfg, c) && StaysStale(w, h, c)
  }

  /** The step is what the world's answers after h call for. */
  ghost predicate Explains(w: World, cfg: Config, h: History, e: Step) {
    match e
    case Fetched(url, page, _) => w.fetch(h, url) == Got(page)
    case Ghosted(c, r) => Justified(w, cfg, h, c, r)
    case Quarantined(c) => Completes(w, h, c) && c.size.None? && cfg.mode.Tolerant?
    case Downloaded(c) => Completes(w, h, c) && Keepable(cfg, c)
    case _ => true
  }

  /** Every step of a run is. */
  ghost predicate Explained(w: World, cfg: Config, base: History, run: History) {
    run.Then? ==> Explained(w, cfg, base, run.past) && Explains(w, cfg, Append(base, run.past), run.step)
  }

  ghost predicate SomeExplains(worlds: seq<World>, cfg: Config, h: History, e: Step) {
    exists i :: 0 <= i < |worlds| && Explains(worlds[i], cfg, h, e)
  }

  /** Every step of a history is, by the world of its run. */
  ghost predicate AllExplained(worlds: seq<World>, cfg: Config, t: History) {
    t.Then? ==> AllExplained(worlds, cfg, t.past) && SomeExplains(worlds, cfg, t.past, t.step)
  }

  lemma {:induction false} RunIsExplained(worlds: seq<World>, cfg: Config, i: nat, base: History, run: History)
    requires i < |worlds| && AllExplained(worlds, cfg, base) && Explained(worlds[i], cfg, base, run)
    ensures AllExplained(worlds, cfg, Append(base, run))
  {
    if run.Nothing? {
    } else {
      RunIsExplained(worlds, cfg, i, base, run.past);
    }
  }

  /** After its first n steps the history hands the candidate off. */
  ghost predicate HandedAfter(n: nat, t: History, c: Candidate) {
    t.Then? && ((Length(t.past) >= n && t.step.HandedOff? && c in t.step.batch) || HandedAfter(n, t.past, c))
  }

  /** The world's answers after h call for giving the candidate up. */
  ghost predicate CallsOff(w: World, cfg: Config, h: History, c: Candidate) {
    || (exists r :: Justified(w, cfg, h, c, r))
    || (Completes(w, h, c) && c.size.None? && cfg.mode.Tolerant?)
  }

  ghost predicate SomeCallsOff(worlds: seq<World>, cfg: Config, h: History, c: Candidate) {
    exists i :: 0 <= i < |worlds| && CallsOff(worlds[i], cfg, h, c)
  }

  /** After its first n steps the history comes to a point where the answers of some run call for that. */
  ghost predicate CalledOffAfter(worlds: seq<World>, cfg: Config, n: nat, t: History, c: Candidate) {
    && t.Then?
    && ((Length(t.past) >= n && SomeCallsOff(worlds, cfg, t.past, c)) || CalledOffAfter(worlds, cfg, n, t.past, c))
  }

  lemma {:induction false} SettledIsExplained(worlds: seq<World>, cfg: Config, n: nat, t: History, c: Candidate)
    requires AllExplained(worlds, cfg, t) && SettledAfter(n, t, c)
    ensures HandedAfter(n, t, c) || CalledOffAfter(worlds, cfg, n, t, c)
  {
    if Length(t.past) >= n && Settles(t.step, c) {
      if !t.step.HandedOff? {
        var i :| 0 <= i < |worlds| && Explains(worlds[i], cfg, t.past, t.step);
        assert CallsOff(worlds[i], cfg, t.past, c);
      }
    } else {
      SettledIsExplained(worlds, cfg, n, t.past, c);
    }
  }

  /** Every in-budget candidate of a page before the cursor was handed off, unless the answers to its requests called
      for giving it up. */
  lemma ChainExplains(initial: Url, cfg: Config, worlds: seq<World>, t: History, pages: seq<History>, url: Url, k: nat,
                      c: Candidate)
    requires Chain(initial, t, pages, url) && k < |pages| && AllExplained(worlds, cfg, t)
    ensures pages[k].Then? && pages[k].step.Fetched?
    ensures c in InBudget(pages[k].step) ==>
      HandedAfter(Length(pages[k]), t, c) || CalledOffAfter(worlds, cfg, Length(pages[k]), t, c)
  {
    ChainLosesNothing(initial, t, pages, url, k, c);
    if c in InBudget(pages[k].step) {
      SettledIsExplained(worlds, cfg, Length(pages[k]), t, c);
    }
  }

  /** Whenever the candidate is tried, its download completes. */
  ghost predicate AlwaysCompletes(worlds: seq<World>, t: History, c: Candidate) {
    forall i, h :: 0 <= i < |worlds| && Prefix(h, t) ==> Completes(worlds[i], h, c)
  }

  lemma {:induction false} CompletedIsNotCalledOff(worlds: seq<World>, cfg: Config, n: nat, t: History, u: History,
                                                   c: Candidate)
    requires Prefix(t, u) && AlwaysCompletes(worlds, u, c) && c.size.Some?
    ensures !CalledOffAfter(worlds, cfg, n, t, c)
    decreases t
  {
    if t.Nothing? {
    } else {
      assert Prefix(t.past, t);
      PrefixTransitive(t.past, t, u);
      CompletedIsNotCalledOff(worlds, cfg, n, t.past, u, c);
      forall i | 0 <= i < |worlds| ensures !CallsOff(worlds[i], cfg, t.past, c) {
        assert Completes(worlds[i], t.past, c);
      }
    }
  }

  /** No photo whose download completes and whose size is known is lost: before the cursor it was handed off. */
  lemma ChainDelivers(initial: Url, cfg: Config, worlds: seq<World>, t: History, pages: seq<History>, url: Url, k: nat,
                      c: Candidate)
    requires Chain(initial, t, pages, url) && k < |pages| && AllExplained(worlds, cfg, t)
    requires AlwaysCompletes(worlds, t, c) && c.size.Some?
    ensures pages[k].Then? && pages[k].step.Fetched?
    ensures c in InBudget(pages[k].step) ==> HandedAfter(Length(pages[k]), t, c)
  {
    ChainExplains(initial, cfg, worlds, t, pages, url, k, c);
    CompletedIsNotCalledOff(worlds, cfg, Length(pages[k]), t, t, c);
  }

  /** The last delta link that a page of the run carried. */
  function LastDelta(run: History): Option<Url> {
    if run.Nothing? then None
    else if run.step.Fetched? && run.step.page.delta.Some? && run.step.page.delta.value != "" then run.step.page.delta
    else LastDelta(run.past)
  }

  /** The run ends by saving the last delta link it was given. */
  ghost predicate EndsSaved(run: History) {
    run.Then? && LastDelta(run.past).Some? && run.step == Saved(LastDelta(run.past).value)
  }

  /** From (h, r) to (t, run), histories and their current run, no page is fetched and no link is saved. */
  ghost predicate SamePage(initial: Url, h: History, r: History, t: History, run: History) {
    && Prefix(h, t) && Length(h) <= Length(t) && Current(h) == Current(t) && Resume(initial, h) == Resume(initial, t)
    && Urls(r) == Urls(run) && Fetches(r) == Fetches(run) && LastDelta(r) == LastDelta(run)
  }

  lemma SamePageStep(initial: Url, h: History, r: History, t: History, run: History, e: Step)
    requires SamePage(initial, h, r, t, run) && !e.Fetched? && !e.Saved?
    ensures SamePage(initial, h, r, Then(t, e), Then(run, e))
  {
  }

  /** The first n steps are followed by one for each of the candidates, or the candidate is in the batch. */
  ghost predicate Handled(n: nat, t: History, cs: seq<Candidate>, batch: seq<Candidate>) {
    forall c :: c in cs ==> c in batch || SettledAfter(n, t, c)
  }

  ghost predicate AllDownloaded(t: History, batch: seq<Candidate>) {
    forall c :: c in batch ==> DownloadedNow(t, c)
  }

  datatype Outcome = Completed(haltedByBudget: bool) | CoolingDown | ResyncMarked | Raised

  /** The candidates that a limit lets through; 0 means no limit. */
  function Limited(cs: seq<Candidate>, limit: nat): seq<Candidate> {
    if 0 < limit < |cs| then cs[..limit] else cs
  }

  datatype Attempt = Kept | Quarantine | Ghost(reason: Reason) | Aborted

  datatype PageResult = NoPage(resync: bool) | PageFailed | PageDone(next: Option<Url>, delta: Option<Url>, count: nat)

  /** `_reduce_delta_page_candidates`: a fresh reducer for one page. */
  method ReducePage(page: Page) returns (candidates: seq<Candidate>)
    ensures candidates == Backward(Items(page), {}) && LastWords(Items(page), candidates)
  {
    var reducer := new DeltaReducer();
    reducer.ApplyPage(page.value);
    assert [] + Items(page) == Items(page);
    candidates := reducer.Materialize();
  }

  class Poller {
    const initial: Url
    const cfg: Config
    /** Where downloads are handed off to. */
    const pipeline: Lifecycle.Pipeline
    /** Everything since the account was set up; the cursor file holds its last saved link. */
    var history: History
    var loopIncidents: int
    /** The same, split where the current run began. */
    ghost var base: History
    ghost var run: History

    constructor (initial: Url, cfg: Config, pipeline: Lifecycle.Pipeline)
      requires pipeline.Valid()
      ensures Valid() && this.initial == initial && this.cfg == cfg && this.pipeline == pipeline && history == Nothing
      ensures Ready()
    {
      this.initial, this.cfg, this.pipeline := initial, cfg, pipeline;
      history, base, run, loopIncidents := Nothing, Nothing, Nothing, 0;
    }

    ghost predicate Valid()
      reads this
    {
      Consistent(initial, history) && WithinLimits(cfg, run) && history == Append(base, run)
    }

    /** The registry side: its own invariant, and what was handed off is on record. */
    ghost predicate Ready()
      reads this, pipeline, pipeline.disk
    {
      pipeline.Valid() && Delivered(history, pipeline.registry.Keys)
    }

    /** Every step of the current run is called for by the answers of this world. */
    ghost predicate Told(world: World)
      reads this
    {
      Explained(world, cfg, base, run)
    }

    method Emit(ghost world: World, e: Step)
      requires Told(world) && Explains(world, cfg, history, e)
      requires Valid() && Ready() && Allowed(initial, history, e) && Fits(cfg, run, e)
      requires e.HandedOff? ==> forall i :: 0 <= i < |e.outcomes| ==> B.OnRecord(e.outcomes[i], pipeline.registry.Keys)
      modifies this`history, this`run
      ensures Valid() && Ready() && Told(world) && history == Then(old(history), e) && run == Then(old(run), e)
    {
      history := Then(history, e);
      run := Then(run, e);
    }

    /** The requests for one candidate. */
    method Try(world: World, c: Candidate) returns (a: Attempt)
      ensures a.Kept? <==> Completes(world, history, c) && Keepable(cfg, c)
      ensures a.Quarantine? <==> Completes(world, history, c) && c.size.None? && cfg.mode.Tolerant?
      ensures forall r :: a == Ghost(r) <==> Justified(world, cfg, history, c, r)
      ensures a.Aborted? <==> !Refused(cfg, c) && Breaks(world, history, c)
    {
      if c.size.None? && cfg.mode.Strict? {
        return Ghost(MissingSize);
      }
      if c.downloadUrl.None? || c.downloadUrl.value == "" {
        match world.resolve(history, c, false) {
          case ResolveFailed => return Aborted;
          case NoUrl => return Ghost(NoDownloadUrl);
          case Fresh =>
        }
      }
      var first := world.download(history, c, false);
      if first.DownloadFailed? {
        return Aborted;
      }
      if first.Unreachable? {
        match world.resolve(history, c, true) {
          case ResolveFailed => return Aborted;
          case NoUrl => return Ghost(NoDownloadUrl);
          case Fresh =>
        }
        match world.download(history, c, true) {
          case DownloadFailed => return Aborted;
          case Unreachable => return Ghost(StillUnreachable);
          case Complete =>
        }
      }
      if c.size.None? && cfg.mode.Tolerant? {
        return Quarantine;
      }
      return Kept;
    }

    /** One candidate: direct URL, else one metadata refresh; a stale URL is refreshed once. The world's answers decide
        which of the four ends it comes to. */
    method DownloadOne(world: World, c: Candidate) returns (a: Attempt)
      requires Valid() && Ready() && Told(world) && Offered(history, c) && PageRoom(cfg, run)
      requires cfg.maxDownloads > 0 ==> Downloads(run) < cfg.maxDownloads
      modifies this`history, this`run
      ensures Valid() && Ready() && Told(world)
      ensures a.Kept? <==> Completes(world, old(history), c) && Keepable(cfg, c)
      ensures a.Quarantine? <==> Completes(world, old(history), c) && c.size.None? && cfg.mode.Tolerant?
      ensures forall r :: a == Ghost(r) <==> Justified(world, cfg, old(history), c, r)
      ensures a.Aborted? <==> !Refused(cfg, c) && Breaks(world, old(history), c)
      ensures a.Kept? ==> history == Then(old(history), Downloaded(c)) && run == Then(old(run), Downloaded(c))
      ensures a.Quarantine? ==> history == Then(old(history), Quarantined(c)) && run == Then(old(run), Quarantined(c))
      ensures a.Ghost? ==>
        history == Then(old(history), Ghosted(c, a.reason)) && run == Then(old(run), Ghosted(c, a.reason))
      ensures a.Aborted? ==> history == old(history) && run == old(run)
    {
      a := Try(world, c);
      match a
      case Aborted =>
      case Ghost(reason) => Emit(world, Ghosted(c, reason));
      case Quarantine => Emit(world, Quarantined(c));
      case Kept => Emit(world, Downloaded(c));
    }

    /** `limit` 0 means no limit; the limit counts candidates, not successes. `n` is the number of steps before. */
    method DownloadCandidates(world: World, cs: seq<Candidate>, limit: nat, ghost n: nat)
      returns (ok: bool, batch: seq<Candidate>)
      requires Valid() && Ready() && Told(world) && n == Length(history)
      requires Fetches(run) > 0 && SinceFetch(run) == 0
      requires cfg.maxDownloads > 0 ==> limit > 0 && Downloads(run) + limit <= cfg.maxDownloads
      requires forall c :: c in Limited(cs, limit) ==> Offered(history, c)
      modifies this`history, this`run
      ensures Valid() && Ready() && Told(world) && SamePage(initial, old(history), old(run), history, run)
      ensures Downloads(run) == Downloads(old(run)) + |batch| && AllDownloaded(history, batch)
      ensures ok ==> Handled(n, history, Limited(cs, limit), batch)
      ensures !ok ==> exists c :: c in Limited(cs, limit) && !Refused(cfg, c) && Breaks(world, history, c)
    {
      batch := [];
      ok := true;
      var index := 0;
      while index < |cs| && (limit == 0 || index < limit)
        invariant 0 <= index <= |Limited(cs, limit)| && |batch| <= index
        invariant Valid() && Ready() && Told(world) && SamePage(initial, old(history), old(run), history, run)
        invariant Downloads(run) == Downloads(old(run)) + |batch| && AllDownloaded(history, batch)
        invariant SinceFetch(run) <= index && Handled(n, history, cs[..index], batch)
      {
        ghost var h, r := history, run;
        assert Limited(cs, limit)[index] == cs[index] && Offered(old(history), cs[index]);
        var a := DownloadOne(world, cs[index]);
        if a.Aborted? {
          ok := false;
          return;
        }
        SamePageStep(initial, old(history), old(run), h, r, history.step);
        assert cs[..index + 1] == cs[..index] + [cs[index]];
        if a.Kept? {
          batch := batch + [cs[index]];
        }
        index := index + 1;
      }
      assert cs[..index] == Limited(cs, limit);
    }

    /** The page handoff processor: ingest the downloads as one batch. */
    method HandOff(world: World, batch: seq<Candidate>) returns (ok: bool)
      requires Valid() && Ready() && Told(world) && GoodWorld(world) && AllDownloaded(history, batch)
      modifies this`history, this`run, pipeline, pipeline.disk
      ensures Valid() && Ready() && Told(world)
      ensures !ok ==> history == old(history) && run == old(run)
      ensures !ok ==> B.SomeStuck(world.jobs(history, batch), pipeline.disk.files)
      ensures ok ==> exists outcomes ::
        history == Then(old(history), HandedOff(batch, outcomes)) && run == Then(old(run), HandedOff(batch, outcomes))
    {
      var jobs, order := world.jobs(history, batch), world.schedule(history, batch);
      assert Fitting(batch, jobs);
      ghost var hashes := pipeline.registry.Keys;
      var r := B.IngestBatch(pipeline, jobs, order);
      DeliveredMore(history, hashes, pipeline.registry.Keys);
      ok := r.Finished?;
      if ok {
        Emit(world, HandedOff(batch, r.outcomes));
      }
    }

    /** Why a page cannot be finished: a request for one of its candidates fails, or a job of the handoff is stuck. */
    ghost predicate Hindered(world: World)
      reads this, pipeline, pipeline.disk
    {
      || (exists c :: Offered(history, c) && !Refused(cfg, c) && Breaks(world, history, c))
      || (exists batch :: AllDownloaded(history, batch) && B.SomeStuck(world.jobs(history, batch), pipeline.disk.files))
    }

    /** Download what the budget allows of the page just fetched, and hand the downloads over. */
    method ProcessPage(world: World) returns (ok: bool, count: nat)
      requires Valid() && Ready() && Told(world) && GoodWorld(world) && history.Then? && history.step.Fetched?
      requires run.Then? && run.step.Fetched? && history.step.budget == Budget(cfg, Downloads(run))
      modifies this`history, this`run, pipeline, pipeline.disk
      ensures Valid() && Ready() && Told(world) && SamePage(initial, old(history), old(run), history, run)
      ensures !ok ==> Hindered(world)
      ensures ok ==> Done(history, old(history)) && Downloads(run) == Downloads(old(run)) + count
    {
      var budget := history.step.budget;
      var candidates := ReducePage(history.step.page);
      ok, count := true, 0;
      if candidates == [] || budget == Some(0) {
        return;
      }
      assert Current(history) == Some(history.step);
      var batch;
      ok, batch := DownloadCandidates(world, candidates, if budget.Some? then budget.value else 0, Length(history));
      if !ok {
        return;
      }
      count := |batch|;
      if batch != [] {
        ghost var h, r := history, run;
        ok := HandOff(world, batch);
        if ok {
          SamePageStep(initial, old(history), old(run), h, r, history.step);
        }
      }
    }

    /** One trip through the loop body: fetch, process, save the next link. */
    method PollPage(world: World, url: Url, downloaded: nat) returns (r: PageResult)
      requires Valid() && Ready() && Told(world) && GoodWorld(world)
      requires url == Resume(initial, history) && url !in Urls(run) && Fetches(run) < cfg.maxDeltaPages
      requires downloaded == Downloads(run)
      modifies this`history, this`run, pipeline, pipeline.disk
      ensures Valid() && Ready() && Told(world) && Prefix(old(history), history)
      ensures r.NoPage? <==> !world.fetch(old(history), url).Got?
      ensures r.NoPage? ==> history == old(history) && run == old(run)
      ensures r.NoPage? ==> (r.resync <==> world.fetch(old(history), url).ResyncRequired?)
      ensures r.PageFailed? ==> Hindered(world)
      ensures r.PageDone? ==>
        var page := world.fetch(old(history), url).page;
        && r.next == page.next && r.delta == page.delta
        && LastDelta(run) == (if page.delta.Some? && page.delta.value != "" then page.delta else LastDelta(old(run)))
      ensures r.PageDone? ==>
        && Urls(run) == Urls(old(run)) + {url} && Fetches(run) == Fetches(old(run)) + 1
        && Downloads(run) == downloaded + r.count
        && (r.next.Some? && r.next.value != "" ==> r.next.value == Resume(initial, history))
        && (r.delta.Some? ==> exists h :: Finished(history, h, r.delta.value))
    {
      var response := world.fetch(history, url);
      if !response.Got? {
        return NoPage(response.ResyncRequired?);
      }
      var page := response.page;
      Emit(world, Fetched(url, page, Budget(cfg, downloaded)));
      ghost var here := history;
      var ok, count := ProcessPage(world);
      assert Prefix(old(history), here);
      PrefixTransitive(old(history), here, history);
      if !ok {
        return PageFailed;
      }
      assert page.delta.Some? ==> Finished(history, here, page.delta.value);
      if page.next.Some? {
        assert Finished(history, here, page.next.value);
        ghost var unsaved := history;
        Emit(world, Saved(page.next.value));
        if page.delta.Some? {
          FinishedMonotone(here, unsaved, history, page.delta.value);
        }
      }
      return PageDone(page.next, page.delta, count);
    }

    /** The next fetch would ask for a page of this run again. */
    ghost predicate Loops()
      reads this
    {
      Resume(initial, history) in Urls(run)
    }

    /** Why a poll may end with an error. */
    ghost predicate Excused(world: World)
      reads this, pipeline, pipeline.disk
    {
      || world.late(history) || Fetches(run) >= cfg.maxDeltaPages || Loops()
      || world.fetch(history, Resume(initial, history)).FetchFailed? || Hindered(world)
    }

    /** The page loop; `early` tells how it ended when it did not run to its end. */
    method WalkPages(world: World) returns (early: Option<Outcome>, delta: Option<Url>, halted: bool)
      requires Valid() && Ready() && GoodWorld(world) && run == Nothing
      modifies this`history, this`run, this`loopIncidents, pipeline, pipeline.disk
      ensures Valid() && Ready() && Told(world)
      ensures early.Some? ==> early.value in {Raised, ResyncMarked}
      ensures early == Some(Raised) ==> Excused(world)
      ensures early == Some(ResyncMarked) ==>
        Loops() || world.fetch(history, Resume(initial, history)).ResyncRequired?
      ensures halted ==> early.None? && cfg.maxDownloads > 0 && Downloads(run) >= cfg.maxDownloads
      ensures early.None? ==> delta == LastDelta(run)
      ensures delta.Some? ==> exists h :: Finished(history, h, delta.value)
    {
      early, delta, halted := None, None, false;
      var next := Some(Resume(initial, history));
      var seen: set<Url>, pages, downloaded := {}, 0, 0;
      while next.Some? && next.value != ""
        invariant Valid() && Ready() && Told(world)
        invariant pages == Fetches(run) && seen == Urls(run) && downloaded == Downloads(run)
        invariant next.Some? && next.value != "" ==> next.value == Resume(initial, history)
        invariant delta == LastDelta(run) && (delta.Some? ==> exists h :: Finished(history, h, delta.value))
        decreases cfg.maxDeltaPages - pages
      {
        if cfg.maxDownloads > 0 && downloaded >= cfg.maxDownloads {
          halted := true;
          return;
        }
        if world.late(history) || pages >= cfg.maxDeltaPages {
          early := Some(Raised);
          return;
        }
        if next.value in seen {
          loopIncidents := loopIncidents + 1;
          early := Some(if loopIncidents >= cfg.loopResyncThreshold then ResyncMarked else Raised);
          loopIncidents := if loopIncidents >= cfg.loopResyncThreshold then 0 else loopIncidents;
          return;
        }
        seen := seen + {next.value};
        ghost var earlier := history;
        var r := PollPage(world, next.value, downloaded);
        if !r.PageDone? {
          early, delta := Some(if r == NoPage(true) then ResyncMarked else Raised), None;
          return;
        }
        pages, downloaded, next := pages + 1, downloaded + r.count, r.next;
        if r.delta.Some? && r.delta.value != "" {
          delta := r.delta;
        } else if delta.Some? {
          ghost var h :| Finished(earlier, h, delta.value);
          FinishedMonotone(h, earlier, history, delta.value);
        }
      }
    }

    /** The page loop and the last save. */
    method WalkAndSave(world: World) returns (o: Outcome)
      requires Valid() && Ready() && GoodWorld(world) && run == Nothing
      modifies this`history, this`run, this`loopIncidents, pipeline, pipeline.disk
      ensures Valid() && Ready() && Told(world) && !o.CoolingDown?
      ensures o.Raised? ==> Excused(world) || LastDelta(run).None?
      ensures o.ResyncMarked? ==> Loops() || world.fetch(history, Resume(initial, history)).ResyncRequired?
      ensures o == Completed(true) ==> cfg.maxDownloads > 0 && Downloads(run) >= cfg.maxDownloads
      ensures o.Completed? ==> EndsSaved(run) || (o.haltedByBudget && LastDelta(run).None?)
    {
      var early, delta, halted := WalkPages(world);
      if early.Some? {
        return early.value;
      }
      if delta.Some? {
        Emit(world, Saved(delta.value));
        return Completed(halted);
      }
      return if halted then Completed(true) else Raised;
    }

    /** One poll: however it ends, every step was allowed and the run stayed within its limits. */
    method PollOnce(world: World) returns (o: Outcome)
      requires Consistent(initial, history) && Ready() && GoodWorld(world)
      modifies this, pipeline, pipeline.disk
      ensures Valid() && Ready() && Told(world) && base == old(history)
      ensures |Urls(run)| == Fetches(run) <= Left(cfg.maxDeltaPages, 0)
      ensures cfg.maxDownloads > 0 ==> Downloads(run) <= cfg.maxDownloads
      ensures cfg.maxDownloads > 0 ==> Transfers(run) <= cfg.maxDownloads * Fetches(run)
      ensures !cfg.mode.Tolerant? || SizesKnown(run) ==> Transfers(run) == Downloads(run)
      ensures o.CoolingDown? <==> world.cooling(old(history))
      ensures o.Raised? ==> Excused(world) || LastDelta(run).None?
      ensures o.ResyncMarked? ==> Loops() || world.fetch(history, Resume(initial, history)).ResyncRequired?
      ensures o == Completed(true) ==> cfg.maxDownloads > 0 && Downloads(run) >= cfg.maxDownloads
      ensures o.Completed? ==> EndsSaved(run) || (o.haltedByBudget && LastDelta(run).None?)
    {
      base, run := history, Nothing;
      o := CoolingDown;
      if !world.cooling(history) {
        o := WalkAndSave(world);
      }
      RunBounds(cfg, run);
      if SizesKnown(run) {
        SizedIsKept(initial, cfg, base, run);
      }
    }

    /** Any number of runs, each cut off after any of its steps: nothing before the cursor is ever lost, and what was
        handed off stays on record. */
    method Lifetime(worlds: seq<World>, crashes: seq<nat>) returns (ghost pages: seq<History>)
      requires Consistent(initial, history) && Ready() && AllExplained(worlds, cfg, history) && |crashes| == |worlds|
      requires forall i :: 0 <= i < |worlds| ==> GoodWorld(worlds[i])
      modifies this, pipeline, pipeline.disk
      ensures Consistent(initial, history) && Ready() && AllExplained(worlds, cfg, history)
      ensures Chain(initial, history, pages, Resume(initial, history))
    {
      for i := 0 to |worlds|
        invariant Consistent(initial, history) && Ready() && AllExplained(worlds, cfg, history)
      {
        var start := history;
        var o := PollOnce(worlds[i]);
        RunIsExplained(worlds, cfg, i, base, run);
        var undone := 0;
        while undone < crashes[i] && history != start && history.Then?
          invariant Consistent(initial, history) && Ready() && AllExplained(worlds, cfg, history)
        {
          history := history.past;
          undone := undone + 1;
        }
      }
      pages := CursorEndsFinishedChain(initial, history);
    }
  }

  lemma TwoFiles(a: Candidate, b: Candidate) returns (items: seq<RawItem>)
    requires a == Candidate("a", "a.jpg", Some(1), None) && b == Candidate("b", "b.jpg", Some(1), None)
    ensures Backward(items, {}) == [a, b]
  {
    var ra, rb := Item("a", false, true, "a.jpg", Integer(1), None), Item("b", false, true, "b.jpg", Integer(1), None);
    var none: set<string> := {};
    items := [ra, rb];
    assert items[..1] == [ra] && EventOf(ra) == File("a", a) && EventOf(rb) == File("b", b);
    assert Backward([ra], none + {"b"}) == [a] by { assert [ra][..0] == []; }
  }

  /** The limit of the promise: when the budget ends inside a page, the rest of the page is skipped for good.
      Here a page with two candidates is finished, and its link saved, after one of them, in a run that may download
      one file and fetch one page. */
  lemma BudgetCutsPage() returns (t: History, h: History, c: Candidate)
    ensures WithinLimits(Config(1, 1, Strict, 3), t)
    ensures Consistent("start", t) && Finished(t, h, "next") && Resume("start", t) == "next"
    ensures c in Backward(Items(h.step.page), {}) && !SettledAfter(0, t, c)
  {
    var a, b := Candidate("a", "a.jpg", Some(1), None), Candidate("b", "b.jpg", Some(1), None);
    var items := TwoFiles(a, b);
    var done := B.Outcome(Records.Key("account", "a"), Records.MissingStaged, None);
    var fetched := Fetched("start", Page(Some(items), Some("next"), None), Some(1));
    assert InBudget(fetched) == [a];
    h := Then(Nothing, fetched);
    var g := Then(h, Downloaded(a));
    var u := Then(g, HandedOff([a], [done]));
    t := Then(u, Saved("next"));
    c := b;
    assert Prefix(h, g) && Prefix(h, u);
    assert SettledAfter(Length(h), u, a);
    assert Finished(u, h, "next");
    FinishedMonotone(h, u, t, "next");
    assert Resume("start", Nothing) == "start" && Offered(h, a) && DownloadedNow(g, a);
    assert Consistent("start", h) && Consistent("start", g);
    assert Consistent("start", u);
    var cfg := Config(1, 1, Strict, 3);
    assert WithinLimits(cfg, Nothing) && Fits(cfg, Nothing, fetched) && WithinLimits(cfg, h) && WithinLimits(cfg, g);
    assert a.itemId[0] != b.itemId[0];
    assert !Settles(Downloaded(a), b) && !Settles(HandedOff([a], [done]), b) && !Settles(fetched, b);
    assert !SettledAfter(0, h, b);
    assert g.past == h && g.step == Downloaded(a) && !SettledAfter(0, g, b);
    assert u.past == g && u.step == HandedOff([a], [done]) && !SettledAfter(0, u, b);
  }

  // ---- how far downloads can pass the cap ----

  function SizelessCandidate(i: nat): Candidate {
    Candidate(Storage.Decimal(i), "x", None, None)
  }

  function SizelessItems(n: nat): seq<RawItem> {
    if n == 0 then [] else SizelessItems(n - 1) + [Item(Storage.Decimal(n - 1), false, true, "x", Missing, None)]
  }

  function SizelessCandidates(n: nat): seq<Candidate> {
    if n == 0 then [] else SizelessCandidates(n - 1) + [SizelessCandidate(n - 1)]
  }

  lemma {:induction false} SizelessPage(n: nat, decided: set<string>)
    requires forall i :: 0 <= i < n ==> Storage.Decimal(i) !in decided
    ensures Backward(SizelessItems(n), decided) == SizelessCandidates(n)
  {
    if n == 0 {
    } else {
      var items, id := SizelessItems(n), Storage.Decimal(n - 1);
      Storage.DecimalRoundTrip(n - 1);
      forall i | 0 <= i < n - 1 ensures Storage.Decimal(i) !in decided + {id} {
        Storage.DecimalRoundTrip(i);
      }
      SizelessPage(n - 1, decided + {id});
      assert items[..|items| - 1] == SizelessItems(n - 1);
      assert EventOf(items[|items| - 1]) == File(id, SizelessCandidate(n - 1));
    }
  }

  lemma {:induction false} SizelessMembers(n: nat, i: nat)
    ensures |SizelessCandidates(n)| == n && (i < n ==> SizelessCandidates(n)[i] == SizelessCandidate(i))
  {
    if n == 0 {
    } else {
      SizelessMembers(n - 1, i);
    }
  }

  function QuarantineAll(h: History, n: nat): History {
    if n == 0 then h else Then(QuarantineAll(h, n - 1), Quarantined(SizelessCandidate(n - 1)))
  }

  /** A page of n candidates without size, fetched with room for all of them. */
  ghost predicate SizelessFetch(h: History, n: nat) {
    && h.Then? && h.step.Fetched? && h.step.page.value == Some(SizelessItems(n))
    && h.step.budget.Some? && h.step.budget.value >= n
  }

  lemma OffersAll(h: History, n: nat)
    requires SizelessFetch(h, n)
    ensures InBudget(h.step) == SizelessCandidates(n)
  {
    SizelessPage(n, {});
    SizelessMembers(n, 0);
  }

  /** Quarantining the first k of them is allowed and stays within the limits. */
  lemma {:induction false} QuarantineSteps(initial: Url, cfg: Config, h: History, n: nat, k: nat)
    requires SizelessFetch(h, n) && k <= n <= cfg.maxDownloads && cfg.mode.Tolerant?
    requires Consistent(initial, h) && WithinLimits(cfg, h)
    ensures var q := QuarantineAll(h, k);
            && Consistent(initial, q) && WithinLimits(cfg, q) && Prefix(h, q) && Length(q) == Length(h) + k
            && Current(q) == Some(h.step) && SinceFetch(q) == k && Fetches(q) == Fetches(h)
            && Transfers(q) == Transfers(h) + k && Downloads(q) == Downloads(h) && Urls(q) == Urls(h)
            && Resume(initial, q) == Resume(initial, h)
  {
    if k == 0 {
    } else {
      QuarantineSteps(initial, cfg, h, n, k - 1);
      OffersAll(h, n);
      SizelessMembers(n, k - 1);
      assert Offered(QuarantineAll(h, k - 1), SizelessCandidate(k - 1));
    }
  }

  lemma {:induction false} QuarantineLength(h: History, k: nat)
    ensures Length(QuarantineAll(h, k)) == Length(h) + k && Prefix(h, QuarantineAll(h, k))
  {
    if k == 0 {
    } else {
      QuarantineLength(h, k - 1);
    }
  }

  lemma {:induction false} QuarantineSettles(h: History, k: nat, i: nat)
    requires i < k
    ensures SettledAfter(Length(h), QuarantineAll(h, k), SizelessCandidate(i))
  {
    QuarantineLength(h, k - 1);
    if i == k - 1 {
    } else {
      QuarantineSettles(h, k - 1, i);
    }
  }

  lemma QuarantineFinishes(h: History, n: nat, link: Url)
    requires SizelessFetch(h, n) && Carries(h.step.page, link)
    ensures Finished(QuarantineAll(h, n), h, link)
  {
    OffersAll(h, n);
    QuarantineLength(h, n);
    forall c | c in InBudget(h.step) ensures SettledAfter(Length(h), QuarantineAll(h, n), c) {
      var i :| 0 <= i < |SizelessCandidates(n)| && SizelessCandidates(n)[i] == c;
      SizelessMembers(n, i);
      QuarantineSettles(h, n, i);
    }
  }

  /** In tolerant mode two pages are enough: the files of the first all go to quarantine, the budget stays whole, and
      the second brings one more download than the cap. */
  lemma QuarantinePassesCap(cfg: Config) returns (run: History)
    requires cfg.maxDownloads > 0 && cfg.mode.Tolerant? && cfg.maxDeltaPages >= 2
    ensures Consistent("start", run) && WithinLimits(cfg, run) && Transfers(run) == cfg.maxDownloads + 1
  {
    var cap := cfg.maxDownloads;
    assert "start"[0] != "next"[0];
    var first := Then(Nothing, Fetched("start", Page(Some(SizelessItems(cap)), Some("next"), None), Some(cap)));
    assert Consistent("start", Nothing) && WithinLimits(cfg, Nothing) && Resume("start", Nothing) == "start";
    assert Consistent("start", first) && WithinLimits(cfg, first);
    QuarantineSteps("start", cfg, first, cap, cap);
    QuarantineFinishes(first, cap, "next");
    var saved := Then(QuarantineAll(first, cap), Saved("next"));
    assert Consistent("start", saved) && WithinLimits(cfg, saved);
    assert Urls(saved) == {"start"} && Fetches(saved) == 1 && Downloads(saved) == 0 && Transfers(saved) == cap;
    var second := Then(saved, Fetched("next", Page(Some(SizelessItems(1)), None, Some("done")), Some(cap)));
    assert Consistent("start", second) && WithinLimits(cfg, second);
    QuarantineSteps("start", cfg, second, 1, 1);
    run := QuarantineAll(second, 1);
  }

  lemma CapOnOnePage(cfg: Config, run: History)
    requires WithinLimits(cfg, run) && cfg.maxDownloads > 0 && (!cfg.mode.Tolerant? || cfg.maxDeltaPages <= 1)
    ensures Transfers(run) <= cfg.maxDownloads
  {
    RunBounds(cfg, run);
    PageBounds(cfg, run);
    if Fetches(run) == 1 {
      assert cfg.maxDownloads * (Fetches(run) - 1) == 0;
    }
  }

  ghost predicate CapHolds(cfg: Config) {
    forall initial, run :: Consistent(initial, run) && WithinLimits(cfg, run) ==> Transfers(run) <= cfg.maxDownloads
  }

  /** All downloads of every run stay within the cap exactly when the mode is not tolerant or one page is the limit. */
  lemma CapHoldsExactly(cfg: Config)
    requires cfg.maxDownloads > 0
    ensures CapHolds(cfg) <==> !cfg.mode.Tolerant? || cfg.maxDeltaPages <= 1
  {
    if cfg.mode.Tolerant? && cfg.maxDeltaPages >= 2 {
      var run := QuarantinePassesCap(cfg);
    } else {
      forall initial, run | Consistent(initial, run) && WithinLimits(cfg, run)
        ensures Transfers(run) <= cfg.maxDownloads
      {
        CapOnOnePage(cfg, run);
      }
    }
  }
}
