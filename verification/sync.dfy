/** The incremental sync of read_email.py's `main`: where the query window
    starts, which listed messages survive the exact-timestamp filter, and the
    per-message loop that dedupes by id, skips empty content, hands the rest
    to the classifier and the labeller, and moves the watermark forward; then
    the final commit of the state.

    A listed message is a `Candidate`: its id, its timestamp in seconds, the
    text the content extractor yields for it, and what the classifier answers
    for it. The provider and classifier calls a run makes are recorded as a
    sequence of `Call`s rather than performed. */
module Sync {
  import opened Wrappers
  import opened State

  const SecondsPerDay: int := 24 * 60 * 60

  /** Characters of content kept before `"..."` is appended for the classifier. */
  const PromptBudget: nat := 22000

  /** `BACKFILL_DAYS` and `LOOKBACK_SECONDS`. */
  datatype Config = Config(backfillDays: int, lookbackSeconds: int)

  /** The defaults: 14 days of backfill and a 48-hour lookback. */
  const DefaultConfig := Config(14, 2 * SecondsPerDay)

  /** The classifier's answer, or `ClassifierDown` when both attempts raised
      and the process exits. */
  datatype Verdict = NotAboutJob | AboutJob(category: string) | ClassifierDown

  datatype Candidate = Candidate(id: string, ts: int, content: string, verdict: Verdict)

  /** The external calls of the loop: fetching a message's content, asking
      the classifier about a text, and applying a label path to a message. */
  datatype Call = FetchContent(id: string) | Classify(id: string, text: string) | Label(id: string, path: string)

  /** The branch the loop takes for one candidate. */
  datatype Branch = AlreadySeen | EmptyContent | Classified

  /** Where the query window starts: the watermark minus the lookback (never
      below zero) when there is a truthy watermark, else `backfillDays` before
      `now`. */
  function QueryStart(w: Option<int>, cfg: Config, now: int): (start: int)
    ensures Truthy(w) ==> start >= 0 && start >= w.value - cfg.lookbackSeconds
    ensures Truthy(w) && w.value >= cfg.lookbackSeconds ==> start == w.value - cfg.lookbackSeconds
    ensures Truthy(w) && w.value < cfg.lookbackSeconds ==> start == 0
    ensures !Truthy(w) ==> start == now - cfg.backfillDays * SecondsPerDay
  {
    if Truthy(w) then
      var s := w.value - cfg.lookbackSeconds;
      if s > 0 then s else 0
    else now - cfg.backfillDays * SecondsPerDay
  }

  /** `xs` is `ys` with some elements left out, the rest in the same order. */
  predicate Subsequence(xs: seq<Candidate>, ys: seq<Candidate>)
    decreases |ys|
  {
    if xs == [] then true
    else if ys == [] then false
    else if xs[0] == ys[0] then Subsequence(xs[1..], ys[1..])
    else Subsequence(xs, ys[1..])
  }

  /** How many candidates of `cs` are at or after `start`. */
  function CountFrom(cs: seq<Candidate>, start: int): nat {
    if cs == [] then 0 else (if cs[0].ts >= start then 1 else 0) + CountFrom(cs[1..], start)
  }

  /** The exact-timestamp filter of `get_emails`: the listed messages at or
      after `start`, in the order the provider listed them. */
  function FineFilter(cs: seq<Candidate>, start: int): (r: seq<Candidate>)
    ensures forall c :: c in r <==> c in cs && c.ts >= start
    ensures Subsequence(r, cs)
    ensures |r| == CountFrom(cs, start)
  {
    if cs == [] then []
    else if cs[0].ts >= start then [cs[0]] + FineFilter(cs[1..], start)
    else FineFilter(cs[1..], start)
  }

  /** The classifier input: the first `PromptBudget` characters of the content
      followed by `"..."`, which is appended even when nothing was cut. */
  function Truncate(content: string): (r: string)
    ensures |r| <= PromptBudget + 3
    ensures |r| == (if |content| <= PromptBudget then |content| else PromptBudget) + 3
    ensures r[..|r| - 3] == content[..|r| - 3]
    ensures r[|r| - 3..] == "..."
  {
    var kept := if |content| <= PromptBudget then content else content[..PromptBudget];
    kept + "..."
  }

  /** The watermark after seeing a message at `ts`: the later of the two when
      the watermark is truthy, `ts` itself when it is absent or zero. */
  function Advance(w: Option<int>, ts: int): (r: Option<int>)
    ensures r == w || r == Some(ts)
    ensures r.Some? && r.value >= ts
    ensures Truthy(w) ==> r.value >= w.value
    ensures !Truthy(w) ==> r == Some(ts)
  {
    if !Truthy(w) || ts > w.value then Some(ts) else w
  }

  /** `a` is no later than `b`, an absent watermark being earlier than any. */
  predicate NoLater(a: Option<int>, b: Option<int>) {
    a.None? || (b.Some? && a.value <= b.value)
  }

  /** A watermark never moves back for a message with a non-negative timestamp. */
  lemma AdvanceNeverDecreases(w: Option<int>, ts: int)
    requires ts >= 0
    ensures NoLater(w, Advance(w, ts))
    ensures Advance(w, ts).Some? && Advance(w, ts).value >= ts
  {
  }

  /** Zero counts as no watermark: a message timestamped before 1970 replaces
      a zero watermark and lowers it. Every provider timestamp is non-negative. */
  lemma ZeroWatermarkReplaced()
    ensures Advance(Some(0), -5) == Some(-5)
  {
  }

  /** The loop's state: watermark, seen ids, branches taken and calls made so far. */
  datatype Progress = Progress(watermark: Option<int>, seen: map<string, int>, branches: seq<Branch>, calls: seq<Call>)

  /** A loop either runs to the end or stops on a classifier failure, leaving
      only the calls made before it stopped. */
  datatype RunResult = Finished(progress: Progress) | Aborted(calls: seq<Call>)

  function Start(w: Option<int>, seen: map<string, int>): Progress {
    Progress(w, seen, [], [])
  }

  /** The calls one candidate causes on a given branch. */
  function CallsFor(c: Candidate, b: Branch): seq<Call> {
    match b
    case AlreadySeen => []
    case EmptyContent => [FetchContent(c.id)]
    case Classified =>
      [FetchContent(c.id), Classify(c.id, Truncate(c.content))]
      + (if c.verdict.AboutJob? then [Label(c.id, "Jobs/" + c.verdict.category)] else [])
  }

  /** The branch a candidate takes given the ids handled so far. */
  function BranchFor(seen: map<string, int>, c: Candidate): Branch {
    if c.id in seen then AlreadySeen else if c.content == "" then EmptyContent else Classified
  }

  /** One iteration of the per-message loop of `main`. */
  function Step(p: Progress, c: Candidate): (r: RunResult)
    ensures r.Aborted? <==> BranchFor(p.seen, c) == Classified && c.verdict.ClassifierDown?
    ensures r.Aborted? ==> r.calls == p.calls + [FetchContent(c.id), Classify(c.id, Truncate(c.content))]
    ensures r.Finished? ==>
              r.progress == Progress(Advance(p.watermark, c.ts),
                                     if BranchFor(p.seen, c) == AlreadySeen then p.seen else p.seen[c.id := c.ts],
                                     p.branches + [BranchFor(p.seen, c)],
                                     p.calls + CallsFor(c, BranchFor(p.seen, c)))
  {
    var w := Advance(p.watermark, c.ts);
    if c.id in p.seen then
      Finished(Progress(w, p.seen, p.branches + [AlreadySeen], p.calls))
    else if c.content == "" then
      Finished(Progress(w, p.seen[c.id := c.ts], p.branches + [EmptyContent], p.calls + [FetchContent(c.id)]))
    else
      var asked := p.calls + [FetchContent(c.id), Classify(c.id, Truncate(c.content))];
      match c.verdict
      case ClassifierDown => Aborted(asked)
      case NotAboutJob =>
        Finished(Progress(w, p.seen[c.id := c.ts], p.branches + [Classified], asked))
      case AboutJob(category) =>
        Finished(Progress(w, p.seen[c.id := c.ts], p.branches + [Classified],
                          asked + [Label(c.id, "Jobs/" + category)]))
  }

  /** The loop over the candidates, in order. */
  function Run(p0: Progress, cs: seq<Candidate>): (r: RunResult)
    ensures r.Finished? ==> |r.progress.branches| == |p0.branches| + |cs|
    ensures r.Finished? ==> forall id :: id in p0.seen ==> id in r.progress.seen && r.progress.seen[id] == p0.seen[id]
    decreases |cs|
  {
    if cs == [] then Finished(p0)
    else
      match Run(p0, cs[..|cs| - 1])
      case Aborted(calls) => Aborted(calls)
      case Finished(p) => Step(p, cs[|cs| - 1])
  }

  /** The ids of a sequence of candidates. */
  function Ids(cs: seq<Candidate>): set<string> {
    set i | 0 <= i < |cs| :: cs[i].id
  }

  /** Candidate `i` was handled before this run or earlier in it. */
  predicate SeenBefore(seen0: map<string, int>, cs: seq<Candidate>, i: nat)
    requires i < |cs|
  {
    cs[i].id in seen0 || exists j :: 0 <= j < i && cs[j].id == cs[i].id
  }

  /** The branch candidate `i` must take, stated without running the loop. */
  function Expected(seen0: map<string, int>, cs: seq<Candidate>, i: nat): Branch
    requires i < |cs|
  {
    if SeenBefore(seen0, cs, i) then AlreadySeen
    else if cs[i].content == "" then EmptyContent
    else Classified
  }

  /** The calls the loop must make, stated without running it. */
  function ExpectedCalls(seen0: map<string, int>, cs: seq<Candidate>): seq<Call>
    decreases |cs|
  {
    if cs == [] then []
    else ExpectedCalls(seen0, cs[..|cs| - 1]) + CallsFor(cs[|cs| - 1], Expected(seen0, cs, |cs| - 1))
  }

  /** The largest timestamp of a non-empty sequence of candidates. */
  function MaxTs(cs: seq<Candidate>): (m: int)
    requires |cs| > 0
    ensures forall i :: 0 <= i < |cs| ==> cs[i].ts <= m
    decreases |cs|
  {
    if |cs| == 1 then cs[0].ts
    else
      var n := |cs| - 1;
      var rest := MaxTs(cs[..n]);
      assert forall i :: 0 <= i < n ==> cs[i] == cs[..n][i];
      if cs[n].ts > rest then cs[n].ts else rest
  }

  /** The largest timestamp is the timestamp of one of the candidates. */
  lemma {:induction false} MaxTsAttained(cs: seq<Candidate>)
    requires |cs| > 0
    ensures exists i :: 0 <= i < |cs| && cs[i].ts == MaxTs(cs)
    decreases |cs|
  {
    var n := |cs| - 1;
    if n > 0 && cs[n].ts <= MaxTs(cs[..n]) {
      MaxTsAttained(cs[..n]);
      var i :| 0 <= i < n && cs[..n][i].ts == MaxTs(cs[..n]);
      assert cs[i] == cs[..n][i];
    } else {
      assert cs[n].ts == MaxTs(cs);
    }
  }

  /** Every candidate timestamp is non-negative, as provider timestamps are. */
  predicate NonNegative(cs: seq<Candidate>) {
    forall i :: 0 <= i < |cs| ==> cs[i].ts >= 0
  }

  /** Each candidate took the branch `Expected` names. */
  predicate BranchesMatch(seen0: map<string, int>, cs: seq<Candidate>, branches: seq<Branch>) {
    |branches| == |cs| && forall i :: 0 <= i < |cs| ==> branches[i] == Expected(seen0, cs, i)
  }

  /** The seen ids are the initial ones plus every candidate id; initial entries
      keep their timestamps and every candidate handled now has its own. */
  predicate SeenMatches(seen0: map<string, int>, cs: seq<Candidate>, seen: map<string, int>) {
    && seen.Keys == seen0.Keys + Ids(cs)
    && (forall id :: id in seen0 ==> seen[id] == seen0[id])
    && (forall i :: 0 <= i < |cs| && Expected(seen0, cs, i) != AlreadySeen ==> seen[cs[i].id] == cs[i].ts)
  }

  /** The outcome of the loop over `cs`, stated against the seen ids it started
      with: the branch of every candidate, the seen ids afterwards, and the calls. */
  predicate RunMatches(seen0: map<string, int>, cs: seq<Candidate>, p: Progress) {
    && BranchesMatch(seen0, cs, p.branches)
    && SeenMatches(seen0, cs, p.seen)
    && p.calls == ExpectedCalls(seen0, cs)
  }

  /** A loop that runs to the end took, for each candidate, exactly the branch
      `Expected` names: skipped iff its id was seen before the run or earlier
      in it, marked without classification iff its content is empty,
      classified otherwise. */
  lemma {:induction false} RunBranches(w0: Option<int>, seen0: map<string, int>, cs: seq<Candidate>)
    requires Run(Start(w0, seen0), cs).Finished?
    ensures RunMatches(seen0, cs, Run(Start(w0, seen0), cs).progress)
    decreases |cs|
  {
    if cs != [] {
      var n := |cs| - 1;
      var pre := cs[..n];
      var c := cs[n];
      var p := Run(Start(w0, seen0), pre).progress;
      RunBranches(w0, seen0, pre);
      SeenMeansBefore(seen0, cs, p.seen);
      assert BranchFor(p.seen, c) == Expected(seen0, cs, n);
      BranchesStep(seen0, cs, p.branches);
      SeenStep(seen0, cs, p.seen);
    }
  }

  /** Appending the last candidate's branch keeps `BranchesMatch`. */
  lemma BranchesStep(seen0: map<string, int>, cs: seq<Candidate>, branches: seq<Branch>)
    requires cs != [] && BranchesMatch(seen0, cs[..|cs| - 1], branches)
    ensures BranchesMatch(seen0, cs, branches + [Expected(seen0, cs, |cs| - 1)])
  {
    ExpectedOnPrefix(seen0, cs);
  }

  /** Recording the last candidate unless it was seen before keeps `SeenMatches`. */
  lemma SeenStep(seen0: map<string, int>, cs: seq<Candidate>, seen: map<string, int>)
    requires cs != [] && SeenMatches(seen0, cs[..|cs| - 1], seen)
    ensures var c := cs[|cs| - 1];
            SeenMatches(seen0, cs, if Expected(seen0, cs, |cs| - 1) == AlreadySeen then seen else seen[c.id := c.ts])
  {
    var n := |cs| - 1;
    var c := cs[n];
    var next := if Expected(seen0, cs, n) == AlreadySeen then seen else seen[c.id := c.ts];
    SeenMeansBefore(seen0, cs, seen);
    SeenKeysStep(seen0, cs, seen, next);
    SeenOldValuesStep(seen0, cs, seen);
    SeenValuesStep(seen0, cs, seen);
  }

  lemma SeenKeysStep(seen0: map<string, int>, cs: seq<Candidate>, seen: map<string, int>, next: map<string, int>)
    requires cs != [] && seen.Keys == seen0.Keys + Ids(cs[..|cs| - 1])
    requires cs[|cs| - 1].id in seen ==> next == seen
    requires cs[|cs| - 1].id !in seen ==> next == seen[cs[|cs| - 1].id := cs[|cs| - 1].ts]
    ensures next.Keys == seen0.Keys + Ids(cs)
  {
    IdsSnoc(cs);
  }

  /** Entries loaded before the run keep their timestamps through the last step. */
  lemma SeenOldValuesStep(seen0: map<string, int>, cs: seq<Candidate>, seen: map<string, int>)
    requires cs != [] && SeenMatches(seen0, cs[..|cs| - 1], seen)
    ensures var c := cs[|cs| - 1];
            var next := if c.id in seen then seen else seen[c.id := c.ts];
            forall id :: id in seen0 ==> id in next && next[id] == seen0[id]
  {
  }

  /** Every candidate handled now keeps its own timestamp through the last step. */
  lemma SeenValuesStep(seen0: map<string, int>, cs: seq<Candidate>, seen: map<string, int>)
    requires cs != [] && SeenMatches(seen0, cs[..|cs| - 1], seen)
    ensures var c := cs[|cs| - 1];
            var next := if c.id in seen then seen else seen[c.id := c.ts];
            forall i :: 0 <= i < |cs| && Expected(seen0, cs, i) != AlreadySeen ==>
              cs[i].id in next && next[cs[i].id] == cs[i].ts
  {
    var c := cs[|cs| - 1];
    SeenPrefixValues(seen0, cs, seen);
    SeenMeansBefore(seen0, cs, seen);
    LastValueStep(seen0, cs, seen, if c.id in seen then seen else seen[c.id := c.ts]);
  }

  /** The candidates before the last, stated against the whole sequence. */
  lemma SeenPrefixValues(seen0: map<string, int>, cs: seq<Candidate>, seen: map<string, int>)
    requires cs != [] && SeenMatches(seen0, cs[..|cs| - 1], seen)
    ensures forall i :: 0 <= i < |cs| - 1 && Expected(seen0, cs, i) != AlreadySeen ==>
              cs[i].id in seen && seen[cs[i].id] == cs[i].ts
  {
    var pre := cs[..|cs| - 1];
    ExpectedOnPrefix(seen0, cs);
    forall i | 0 <= i < |pre| && Expected(seen0, cs, i) != AlreadySeen
      ensures cs[i].id in seen && seen[cs[i].id] == cs[i].ts
    {
      assert pre[i] == cs[i];
      assert pre[i].id in Ids(pre);
    }
  }

  lemma LastValueStep(seen0: map<string, int>, cs: seq<Candidate>, seen: map<string, int>, next: map<string, int>)
    requires cs != []
    requires forall i :: 0 <= i < |cs| - 1 && Expected(seen0, cs, i) != AlreadySeen ==>
               cs[i].id in seen && seen[cs[i].id] == cs[i].ts
    requires cs[|cs| - 1].id in seen ==> SeenBefore(seen0, cs, |cs| - 1)
    requires cs[|cs| - 1].id in seen ==> next == seen
    requires cs[|cs| - 1].id !in seen ==> next == seen[cs[|cs| - 1].id := cs[|cs| - 1].ts]
    ensures forall i :: 0 <= i < |cs| && Expected(seen0, cs, i) != AlreadySeen ==>
              cs[i].id in next && next[cs[i].id] == cs[i].ts
  {
  }

  /** Candidates before the last take the same branch whether or not the last
      is there. */
  lemma ExpectedOnPrefix(seen0: map<string, int>, cs: seq<Candidate>)
    requires cs != []
    ensures forall i :: 0 <= i < |cs| - 1 ==> Expected(seen0, cs[..|cs| - 1], i) == Expected(seen0, cs, i)
  {
    var pre := cs[..|cs| - 1];
    forall i | 0 <= i < |pre| ensures Expected(seen0, pre, i) == Expected(seen0, cs, i) {
      assert pre[i] == cs[i];
      assert forall j :: 0 <= j < i ==> pre[j] == cs[j];
      assert SeenBefore(seen0, pre, i) == SeenBefore(seen0, cs, i);
    }
  }

  lemma IdsSnoc(cs: seq<Candidate>)
    requires cs != []
    ensures Ids(cs) == Ids(cs[..|cs| - 1]) + {cs[|cs| - 1].id}
  {
    var pre := cs[..|cs| - 1];
    forall id | id in Ids(cs) ensures id in Ids(pre) + {cs[|cs| - 1].id} {
      var i :| 0 <= i < |cs| && cs[i].id == id;
      if i < |pre| { assert pre[i] == cs[i]; }
    }
    forall id | id in Ids(pre) ensures id in Ids(cs) {
      var i :| 0 <= i < |pre| && pre[i].id == id;
      assert cs[i] == pre[i];
    }
  }

  /** After the candidates before the last, the last one's id is among the
      seen ids exactly when it was seen before the run or earlier in it. */
  lemma SeenMeansBefore(seen0: map<string, int>, cs: seq<Candidate>, seen: map<string, int>)
    requires cs != [] && seen.Keys == seen0.Keys + Ids(cs[..|cs| - 1])
    ensures (cs[|cs| - 1].id in seen) == SeenBefore(seen0, cs, |cs| - 1)
  {
    var n := |cs| - 1;
    var pre := cs[..n];
    var c := cs[n];
    if c.id in seen && c.id !in seen0 {
      assert c.id in Ids(pre);
      var j :| 0 <= j < n && pre[j].id == c.id;
      assert cs[j].id == c.id;
    }
    if SeenBefore(seen0, cs, n) && c.id !in seen0 {
      var j :| 0 <= j < n && cs[j].id == c.id;
      assert pre[j].id == c.id;
      assert c.id in Ids(pre);
    }
  }

  /** A loop over a non-empty sequence that runs to the end leaves the
      watermark at the larger of where it started and the newest timestamp,
      whatever branch each candidate took; a missing or zero watermark counts
      as below every timestamp. */
  lemma {:induction false} RunFinalWatermark(w0: Option<int>, seen0: map<string, int>, cs: seq<Candidate>)
    requires |cs| > 0 && NonNegative(cs)
    requires Run(Start(w0, seen0), cs).Finished?
    ensures Run(Start(w0, seen0), cs).progress.watermark
         == Some(if w0.Some? && w0.value > MaxTs(cs) then w0.value else MaxTs(cs))
    decreases |cs|
  {
    var n := |cs| - 1;
    var pre := cs[..n];
    var c := cs[n];
    var p := Run(Start(w0, seen0), pre).progress;
    assert c.ts >= 0;
    if n == 0 {
      assert p == Start(w0, seen0);
    } else {
      assert NonNegative(pre) by {
        forall i | 0 <= i < |pre| ensures pre[i].ts >= 0 { assert pre[i] == cs[i]; }
      }
      RunFinalWatermark(w0, seen0, pre);
      assert MaxTs(cs) == if c.ts > MaxTs(pre) then c.ts else MaxTs(pre);
    }
  }

  /** A finished loop never leaves the watermark behind where it started. */
  lemma {:induction false} RunNeverLowers(w0: Option<int>, seen0: map<string, int>, cs: seq<Candidate>)
    requires NonNegative(cs) && Run(Start(w0, seen0), cs).Finished?
    ensures NoLater(w0, Run(Start(w0, seen0), cs).progress.watermark)
    decreases |cs|
  {
    if cs != [] {
      var n := |cs| - 1;
      NonNegativePrefix(cs, n);
      RunNeverLowers(w0, seen0, cs[..n]);
      AdvanceNeverDecreases(Run(Start(w0, seen0), cs[..n]).progress.watermark, cs[n].ts);
    }
  }

  lemma NonNegativePrefix(cs: seq<Candidate>, k: nat)
    requires k <= |cs| && NonNegative(cs)
    ensures NonNegative(cs[..k])
  {
    assert forall i :: 0 <= i < k ==> cs[..k][i] == cs[i];
  }

  /** Over any prefix of a finished loop the watermark only moves forward:
      it is no earlier than where it started and no later than where the
      whole loop leaves it. */
  lemma {:induction false} RunWatermarkMonotone(w0: Option<int>, seen0: map<string, int>, cs: seq<Candidate>, i: nat)
    requires i <= |cs| && NonNegative(cs)
    requires Run(Start(w0, seen0), cs).Finished?
    ensures Run(Start(w0, seen0), cs[..i]).Finished?
    ensures NoLater(w0, Run(Start(w0, seen0), cs[..i]).progress.watermark)
    ensures NoLater(Run(Start(w0, seen0), cs[..i]).progress.watermark, Run(Start(w0, seen0), cs).progress.watermark)
    decreases |cs|
  {
    if i < |cs| {
      var n := |cs| - 1;
      var pre := cs[..n];
      NonNegativePrefix(cs, n);
      assert cs[..i] == pre[..i];
      RunWatermarkMonotone(w0, seen0, pre, i);
      AdvanceNeverDecreases(Run(Start(w0, seen0), pre).progress.watermark, cs[n].ts);
    } else {
      assert cs[..i] == cs;
      RunNeverLowers(w0, seen0, cs);
    }
  }

  /** No call concerns an id of `seen0`. */
  predicate Untouched(calls: seq<Call>, seen0: map<string, int>) {
    forall k :: 0 <= k < |calls| ==> calls[k].id !in seen0
  }

  /** No id is sent to the classifier twice. */
  predicate ClassifiedOnce(calls: seq<Call>) {
    forall a, b :: 0 <= a < b < |calls| && calls[a].Classify? && calls[b].Classify? ==> calls[a].id != calls[b].id
  }

  /** Every call concerns one id, and at most one of them is a classification. */
  predicate AboutOne(calls: seq<Call>, id: string) {
    && (forall k :: 0 <= k < |calls| ==> calls[k].id == id)
    && (forall a, b :: 0 <= a < b < |calls| ==> !calls[a].Classify? || !calls[b].Classify?)
  }

  lemma CallsForAboutOne(c: Candidate, b: Branch)
    ensures AboutOne(CallsFor(c, b), c.id)
  {
  }

  /** Appending the calls for an id not touched so far keeps both properties. */
  lemma AppendFreshCalls(calls: seq<Call>, more: seq<Call>, id: string, seen0: map<string, int>)
    requires Untouched(calls, seen0) && ClassifiedOnce(calls)
    requires id !in seen0 && forall k :: 0 <= k < |calls| ==> calls[k].id != id
    requires AboutOne(more, id)
    ensures Untouched(calls + more, seen0) && ClassifiedOnce(calls + more)
  {
    var all := calls + more;
    assert forall k :: 0 <= k < |calls| ==> all[k] == calls[k];
    assert forall k :: |calls| <= k < |all| ==> all[k] == more[k - |calls|];
  }

  /** The reference calls touch only ids of the candidates that are new to
      the run, and no id is sent to the classifier twice. */
  lemma {:induction false} ExpectedCallsFresh(seen0: map<string, int>, cs: seq<Candidate>)
    ensures Untouched(ExpectedCalls(seen0, cs), seen0) && ClassifiedOnce(ExpectedCalls(seen0, cs))
    ensures forall k :: 0 <= k < |ExpectedCalls(seen0, cs)| ==> ExpectedCalls(seen0, cs)[k].id in Ids(cs)
    decreases |cs|
  {
    if cs != [] {
      var n := |cs| - 1;
      var pre := cs[..n];
      var c := cs[n];
      ExpectedCallsFresh(seen0, pre);
      IdsSnoc(cs);
      var before := ExpectedCalls(seen0, pre);
      var b := Expected(seen0, cs, n);
      var more := CallsFor(c, b);
      CallsForAboutOne(c, b);
      if b != AlreadySeen {
        forall k | 0 <= k < |before| ensures before[k].id != c.id {
          var i :| 0 <= i < |pre| && pre[i].id == before[k].id;
          assert cs[i] == pre[i];
        }
        AppendFreshCalls(before, more, c.id, seen0);
      } else {
        assert more == [];
        assert before + more == before;
      }
    }
  }

  /** Candidate `i` reaches the classifier and finds it down. */
  predicate AbortsAt(seen0: map<string, int>, cs: seq<Candidate>, i: nat)
    requires i < |cs|
  {
    Expected(seen0, cs, i) == Classified && cs[i].verdict.ClassifierDown?
  }

  /** Some candidate reaches the classifier and finds it down. */
  predicate SomeAbort(seen0: map<string, int>, cs: seq<Candidate>) {
    exists i :: 0 <= i < |cs| && AbortsAt(seen0, cs, i)
  }

  /** A loop stops early exactly when some candidate that reaches the
      classifier finds it down. */
  lemma {:induction false} RunAbortsIff(w0: Option<int>, seen0: map<string, int>, cs: seq<Candidate>)
    ensures Run(Start(w0, seen0), cs).Aborted? <==> SomeAbort(seen0, cs)
    decreases |cs|
  {
    if cs != [] {
      var n := |cs| - 1;
      var pre := cs[..n];
      var c := cs[n];
      RunAbortsIff(w0, seen0, pre);
      SomeAbortSnoc(seen0, cs);
      if Run(Start(w0, seen0), pre).Finished? {
        var p := Run(Start(w0, seen0), pre).progress;
        RunBranches(w0, seen0, pre);
        SeenMeansBefore(seen0, cs, p.seen);
        assert BranchFor(p.seen, c) == Expected(seen0, cs, n);
      }
    }
  }

  /** Some candidate of `cs` aborts iff one before the last does or the last does. */
  lemma SomeAbortSnoc(seen0: map<string, int>, cs: seq<Candidate>)
    requires cs != []
    ensures SomeAbort(seen0, cs) <==> SomeAbort(seen0, cs[..|cs| - 1]) || AbortsAt(seen0, cs, |cs| - 1)
  {
    var n := |cs| - 1;
    var pre := cs[..n];
    ExpectedOnPrefix(seen0, cs);
    if SomeAbort(seen0, pre) {
      var i :| 0 <= i < n && AbortsAt(seen0, pre, i);
      assert pre[i] == cs[i];
      assert AbortsAt(seen0, cs, i);
    }
    if SomeAbort(seen0, cs) && !AbortsAt(seen0, cs, n) {
      var i :| 0 <= i < |cs| && AbortsAt(seen0, cs, i);
      assert pre[i] == cs[i];
      assert AbortsAt(seen0, pre, i);
    }
  }

  /** The result of one run: the state committed (nothing when the run
      stopped on a classifier failure) and the calls made. */
  datatype Outcome = Outcome(persisted: Option<SyncState>, calls: seq<Call>)

  /** One run of `main` after authentication and `load_state`: the candidates
      are the listing filtered at the query start; with none the state is
      saved with only `last_run_at` updated; otherwise the loop runs, and when
      it finishes the seen ids are pruned against the final watermark and the
      state is saved. `startedAt` and `finishedAt` are the two clock readings. */
  function SyncOnce(state: SyncState, cfg: Config, startedAt: int, finishedAt: int, listed: seq<Candidate>): (o: Outcome)
    ensures o.persisted.Some? ==> o.persisted.value.lastRunAt == Some(finishedAt)
    ensures o.persisted.Some? && Candidates(state, cfg, startedAt, listed) != [] ==>
              WithinLookback(o.persisted.value, cfg.lookbackSeconds)
    ensures Candidates(state, cfg, startedAt, listed) == [] ==> o.persisted.Some? && o.calls == []
  {
    var cands := Candidates(state, cfg, startedAt, listed);
    if cands == [] then Outcome(Some(state.(lastRunAt := Some(finishedAt))), [])
    else
      match Run(Start(state.watermark, state.seen), cands)
      case Aborted(calls) => Outcome(None, calls)
      case Finished(p) =>
        Outcome(Some(Prune(SyncState(p.watermark, p.seen, Some(finishedAt)), cfg.lookbackSeconds)), p.calls)
  }

  /** The candidates a run works on: the listing filtered at the query start. */
  function Candidates(state: SyncState, cfg: Config, startedAt: int, listed: seq<Candidate>): seq<Candidate> {
    FineFilter(listed, QueryStart(state.watermark, cfg, startedAt))
  }

  /** Where a run starts when there is no readable state file: from the legacy
      timestamp less the lookback when there is a non-zero one, otherwise
      `backfillDays` before now. */
  lemma StartAfterLoad(stateFile: StateFile, legacy: LegacyFile, cfg: Config, now: int)
    requires !stateFile.StateRecord?
    ensures legacy.LegacyTimestamp? && legacy.ts != 0 ==>
              QueryStart(LoadState(stateFile, legacy).watermark, cfg, now)
              == (if legacy.ts - cfg.lookbackSeconds > 0 then legacy.ts - cfg.lookbackSeconds else 0)
    ensures !(legacy.LegacyTimestamp? && legacy.ts != 0) ==>
              QueryStart(LoadState(stateFile, legacy).watermark, cfg, now) == now - cfg.backfillDays * SecondsPerDay
  {
  }

  /** With nothing in the window the run saves the state with only its
      last-run time changed, unpruned, and makes no call. */
  lemma EmptyWindowSavesUnpruned(state: SyncState, cfg: Config, startedAt: int, finishedAt: int, listed: seq<Candidate>)
    requires Candidates(state, cfg, startedAt, listed) == []
    ensures SyncOnce(state, cfg, startedAt, finishedAt, listed).persisted
         == Some(SyncState(state.watermark, state.seen, Some(finishedAt)))
    ensures SyncOnce(state, cfg, startedAt, finishedAt, listed).calls == []
  {
  }

  /** Across runs the persisted watermark never moves back. */
  lemma SyncWatermarkMonotone(state: SyncState, cfg: Config, startedAt: int, finishedAt: int, listed: seq<Candidate>)
    requires NonNegative(listed)
    requires SyncOnce(state, cfg, startedAt, finishedAt, listed).persisted.Some?
    ensures NoLater(state.watermark, SyncOnce(state, cfg, startedAt, finishedAt, listed).persisted.value.watermark)
  {
    var cands := Candidates(state, cfg, startedAt, listed);
    if cands != [] {
      assert NonNegative(cands) by {
        forall i | 0 <= i < |cands| ensures cands[i].ts >= 0 {
          assert cands[i] in listed;
        }
      }
      RunNeverLowers(state.watermark, state.seen, cands);
    }
  }

  /** A run that processes candidates and commits saves as watermark the
      larger of the old one and the newest candidate timestamp. */
  lemma SyncFinalWatermark(state: SyncState, cfg: Config, startedAt: int, finishedAt: int, listed: seq<Candidate>)
    requires NonNegative(listed)
    requires Candidates(state, cfg, startedAt, listed) != []
    requires SyncOnce(state, cfg, startedAt, finishedAt, listed).persisted.Some?
    ensures var m := MaxTs(Candidates(state, cfg, startedAt, listed));
            SyncOnce(state, cfg, startedAt, finishedAt, listed).persisted.value.watermark
            == Some(if state.watermark.Some? && state.watermark.value > m then state.watermark.value else m)
  {
    var cands := Candidates(state, cfg, startedAt, listed);
    assert NonNegative(cands) by {
      forall i | 0 <= i < |cands| ensures cands[i].ts >= 0 {
        assert cands[i] in listed;
      }
    }
    RunFinalWatermark(state.watermark, state.seen, cands);
  }

  /** A run that commits keeps the lookback invariant when it held before; a
      run that processed candidates establishes it whatever came before. */
  lemma SyncKeepsLookback(state: SyncState, cfg: Config, startedAt: int, finishedAt: int, listed: seq<Candidate>)
    requires SyncOnce(state, cfg, startedAt, finishedAt, listed).persisted.Some?
    ensures WithinLookback(state, cfg.lookbackSeconds) || Candidates(state, cfg, startedAt, listed) != [] ==>
              WithinLookback(SyncOnce(state, cfg, startedAt, finishedAt, listed).persisted.value, cfg.lookbackSeconds)
  {
  }

  /** A message already in the seen ids never has its content fetched, is
      never classified and never labelled again, and within one run no id
      reaches the classifier twice. */
  lemma SyncNeverRevisits(state: SyncState, cfg: Config, startedAt: int, finishedAt: int, listed: seq<Candidate>)
    ensures Untouched(SyncOnce(state, cfg, startedAt, finishedAt, listed).calls, state.seen)
    ensures ClassifiedOnce(SyncOnce(state, cfg, startedAt, finishedAt, listed).calls)
  {
    var cands := Candidates(state, cfg, startedAt, listed);
    if cands != [] {
      var r := Run(Start(state.watermark, state.seen), cands);
      if r.Finished? {
        RunBranches(state.watermark, state.seen, cands);
        ExpectedCallsFresh(state.seen, cands);
      } else {
        AbortedCallsFresh(state.watermark, state.seen, cands);
      }
    }
  }

  /** The calls of a loop that stopped early also touch only ids new to the
      run, and no id reached the classifier twice. */
  lemma {:induction false} AbortedCallsFresh(w0: Option<int>, seen0: map<string, int>, cs: seq<Candidate>)
    requires Run(Start(w0, seen0), cs).Aborted?
    ensures Untouched(Run(Start(w0, seen0), cs).calls, seen0) && ClassifiedOnce(Run(Start(w0, seen0), cs).calls)
    decreases |cs|
  {
    var n := |cs| - 1;
    var pre := cs[..n];
    var c := cs[n];
    if Run(Start(w0, seen0), pre).Aborted? {
      AbortedCallsFresh(w0, seen0, pre);
    } else {
      AbortStepFresh(w0, seen0, cs);
    }
  }

  /** The calls of a loop that finishes every candidate but the last and
      stops on the last avoid the loaded seen ids and classify no id twice. */
  lemma {:induction false} AbortStepFresh(w0: Option<int>, seen0: map<string, int>, cs: seq<Candidate>)
    requires cs != [] && Run(Start(w0, seen0), cs[..|cs| - 1]).Finished?
    requires Run(Start(w0, seen0), cs).Aborted?
    ensures Untouched(Run(Start(w0, seen0), cs).calls, seen0) && ClassifiedOnce(Run(Start(w0, seen0), cs).calls)
  {
    var n := |cs| - 1;
    var pre := cs[..n];
    var c := cs[n];
    var p := Run(Start(w0, seen0), pre).progress;
    var more := [FetchContent(c.id), Classify(c.id, Truncate(c.content))];
    assert Run(Start(w0, seen0), cs).calls == p.calls + more && c.id !in p.seen by {
      assert Run(Start(w0, seen0), cs) == Step(p, c);
    }
    assert c.id !in seen0 && c.id !in Ids(pre) && p.calls == ExpectedCalls(seen0, pre) by {
      RunBranches(w0, seen0, pre);
    }
    assert Untouched(p.calls, seen0) && ClassifiedOnce(p.calls)
        && forall k :: 0 <= k < |p.calls| ==> p.calls[k].id != c.id by {
      ExpectedCallsFresh(seen0, pre);
    }
    AppendFreshCalls(p.calls, more, c.id, seen0);
  }

  /** A run commits nothing exactly when a candidate that reaches the
      classifier finds it down. */
  lemma SyncAbortsIff(state: SyncState, cfg: Config, startedAt: int, finishedAt: int, listed: seq<Candidate>)
    ensures SyncOnce(state, cfg, startedAt, finishedAt, listed).persisted.None? <==>
            SomeAbort(state.seen, Candidates(state, cfg, startedAt, listed))
  {
    RunAbortsIff(state.watermark, state.seen, Candidates(state, cfg, startedAt, listed));
  }

  /** A timestamp survives pruning against watermark `w`: there is no truthy
      watermark, or it is at or after the watermark minus the lookback. */
  predicate SurvivesPrune(w: Option<int>, lookback: int, ts: int) {
    !Truthy(w) || ts >= w.value - lookback
  }

  /** The seen ids a run that processes candidates and commits stores: a
      loaded entry, or the entry of a candidate handled (not skipped) in this
      run, each exactly when its timestamp survives pruning against the saved
      watermark and with that timestamp; nothing else. */
  lemma SyncSavesSeen(state: SyncState, cfg: Config, startedAt: int, finishedAt: int, listed: seq<Candidate>)
    requires Candidates(state, cfg, startedAt, listed) != []
    requires SyncOnce(state, cfg, startedAt, finishedAt, listed).persisted.Some?
    ensures var cands := Candidates(state, cfg, startedAt, listed);
            var saved := SyncOnce(state, cfg, startedAt, finishedAt, listed).persisted.value;
            && (forall id :: id in saved.seen ==> id in state.seen || id in Ids(cands))
            && (forall id :: id in state.seen ==>
                  (id in saved.seen <==> SurvivesPrune(saved.watermark, cfg.lookbackSeconds, state.seen[id]))
                  && (id in saved.seen ==> saved.seen[id] == state.seen[id]))
            && (forall i :: 0 <= i < |cands| && Expected(state.seen, cands, i) != AlreadySeen ==>
                  (cands[i].id in saved.seen <==> SurvivesPrune(saved.watermark, cfg.lookbackSeconds, cands[i].ts))
                  && (cands[i].id in saved.seen ==> saved.seen[cands[i].id] == cands[i].ts))
  {
    var cands := Candidates(state, cfg, startedAt, listed);
    var p := Run(Start(state.watermark, state.seen), cands).progress;
    RunBranches(state.watermark, state.seen, cands);
    assert SyncOnce(state, cfg, startedAt, finishedAt, listed).persisted.value
        == Prune(SyncState(p.watermark, p.seen, Some(finishedAt)), cfg.lookbackSeconds);
  }

  /** A message handled by a run that commits is skipped as already seen when
      the next run, started from the saved state, lists it again with the
      same id and timestamp inside its window. */
  lemma HandledSkippedNextRun(state: SyncState, cfg: Config, t1: int, f1: int, listed1: seq<Candidate>, i: nat,
                              t2: int, listed2: seq<Candidate>, j: nat)
    requires i < |Candidates(state, cfg, t1, listed1)|
    requires Expected(state.seen, Candidates(state, cfg, t1, listed1), i) != AlreadySeen
    requires SyncOnce(state, cfg, t1, f1, listed1).persisted.Some?
    requires var next := SyncOnce(state, cfg, t1, f1, listed1).persisted.value;
             var c := Candidates(state, cfg, t1, listed1)[i];
             j < |Candidates(next, cfg, t2, listed2)|
             && Candidates(next, cfg, t2, listed2)[j].id == c.id
             && Candidates(next, cfg, t2, listed2)[j].ts == c.ts
    ensures var next := SyncOnce(state, cfg, t1, f1, listed1).persisted.value;
            Expected(next.seen, Candidates(next, cfg, t2, listed2), j) == AlreadySeen
  {
    var cands := Candidates(state, cfg, t1, listed1);
    var next := SyncOnce(state, cfg, t1, f1, listed1).persisted.value;
    var cands2 := Candidates(next, cfg, t2, listed2);
    SyncSavesSeen(state, cfg, t1, f1, listed1);
    assert cands2[j] in cands2;
    assert SurvivesPrune(next.watermark, cfg.lookbackSeconds, cands[i].ts);
    assert cands[i].id in next.seen;
  }

  /** With a truthy watermark the window reaches back past the cushion:
      every listed message with a non-negative timestamp at or after the
      watermark minus the lookback is a candidate. Without one, the candidates are
      exactly the messages of the last `backfillDays` days. */
  lemma WindowCoversCushion(w: Option<int>, cfg: Config, now: int, listed: seq<Candidate>)
    ensures Truthy(w) ==> forall c :: c in listed && c.ts >= 0 && c.ts >= w.value - cfg.lookbackSeconds ==>
              c in FineFilter(listed, QueryStart(w, cfg, now))
    ensures !Truthy(w) ==> forall c :: c in FineFilter(listed, QueryStart(w, cfg, now)) <==>
              c in listed && c.ts >= now - cfg.backfillDays * SecondsPerDay
  {
  }

  /** A first run (empty state, default settings) over one message five days
      old whose content is empty: the watermark becomes its timestamp, its id
      is recorded, and it is fetched but never classified. */
  lemma FirstRunEmptyMessage(now: int, finishedAt: int, id: string, v: Verdict)
    requires now >= 5 * SecondsPerDay
    ensures var m := Candidate(id, now - 5 * SecondsPerDay, "", v);
            var o := SyncOnce(Fresh, DefaultConfig, now, finishedAt, [m]);
            && o.persisted.Some?
            && o.persisted.value.watermark == Some(m.ts)
            && id in o.persisted.value.seen
            && o.calls == [FetchContent(id)]
  {
    var m := Candidate(id, now - 5 * SecondsPerDay, "", v);
    assert QueryStart(Fresh.watermark, DefaultConfig, now) == now - 14 * SecondsPerDay;
    assert FineFilter([m], now - 14 * SecondsPerDay) == [m];
    assert [m][..0] == [];
    assert Run(Start(None, map[]), [m]) == Step(Start(None, map[]), m);
    assert BranchFor(map[], m) == EmptyContent;
  }
}
