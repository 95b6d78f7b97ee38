/** engine/nexpose.py: the background worker of a vulnerability scan and the pause, resume and stop
    controls, as interleaved steps. */
module Scan {
  import opened Text

  // ---------- what an assessment reports ----------

  datatype Severity = Critical | Severe | Moderate

  datatype Finding = Finding(id: string, severity: Severity)

  /** What examining one device yields: the findings, the vulnerabilities that an approved exception
      covers there, and whether the credentials worked. */
  datatype Report = Report(hits: seq<Finding>, excepted: set<string>, authenticated: bool)

  type Device = string

  datatype Asset = Asset(device: Device, vulns: seq<Finding>, excluded: seq<string>, counts: Counts, authenticated: bool)

  datatype Counts = Counts(critical: nat, severe: nat, moderate: nat, total: nat)

  const NOTHING := Counts(0, 0, 0, 0)

  function Add(a: Counts, b: Counts): Counts {
    Counts(a.critical + b.critical, a.severe + b.severe, a.moderate + b.moderate, a.total + b.total)
  }

  /** The findings without an approved exception. */
  function Remaining(hits: seq<Finding>, excepted: set<string>): seq<Finding> {
    if hits == [] then [] else (if hits[0].id in excepted then [] else [hits[0]]) + Remaining(hits[1..], excepted)
  }

  /** The ids of the findings that are not in the list of those that count. */
  function Excluded(hits: seq<Finding>, vulns: seq<Finding>): seq<string> {
    if hits == [] then [] else (if hits[0] in vulns then [] else [hits[0].id]) + Excluded(hits[1..], vulns)
  }

  lemma {:induction false} RemainingMeans(hits: seq<Finding>, excepted: set<string>, f: Finding)
    ensures f in Remaining(hits, excepted) <==> f in hits && f.id !in excepted
  {
    if hits != [] { RemainingMeans(hits[1..], excepted, f); }
  }

  lemma {:induction false} ExcludedMeans(hits: seq<Finding>, excepted: set<string>, vulns: seq<Finding>)
    requires forall f :: f in hits ==> (f in vulns <==> f.id !in excepted)
    ensures |Remaining(hits, excepted)| + |Excluded(hits, vulns)| == |hits|
    ensures forall id :: id in Excluded(hits, vulns) <==> id in excepted && exists f :: f in hits && f.id == id
    decreases |hits|
  {
    if hits != [] {
      var f, rest := hits[0], hits[1..];
      assert f in hits && forall g :: g in rest ==> g in hits;
      ExcludedMeans(rest, excepted, vulns);
      assert forall g :: g in hits <==> g == f || g in rest;
    }
  }

  function Tally(vulns: seq<Finding>, severity: Severity): nat {
    if vulns == [] then 0 else (if vulns[0].severity == severity then 1 else 0) + Tally(vulns[1..], severity)
  }

  function CountsOf(vulns: seq<Finding>): Counts {
    Counts(Tally(vulns, Critical), Tally(vulns, Severe), Tally(vulns, Moderate), |vulns|)
  }

  lemma {:induction false} TallyAppend(a: seq<Finding>, b: seq<Finding>, severity: Severity)
    ensures Tally(a + b, severity) == Tally(a, severity) + Tally(b, severity)
  {
    if a == [] {
      assert a + b == b;
    } else {
      assert (a + b)[1..] == a[1..] + b;
      TallyAppend(a[1..], b, severity);
    }
  }

  lemma {:induction false} SeveritiesAddUp(vulns: seq<Finding>)
    ensures Tally(vulns, Critical) + Tally(vulns, Severe) + Tally(vulns, Moderate) == |vulns|
  {
    if vulns != [] { SeveritiesAddUp(vulns[1..]); }
  }

  /** The loop of _assess over the findings that remain. */
  method CountFindings(vulns: seq<Finding>) returns (counts: Counts)
    ensures counts == CountsOf(vulns)
  {
    var critical, severe, moderate := 0, 0, 0;
    for k := 0 to |vulns|
      invariant critical == Tally(vulns[..k], Critical)
      invariant severe == Tally(vulns[..k], Severe)
      invariant moderate == Tally(vulns[..k], Moderate)
    {
      assert vulns[..k + 1] == vulns[..k] + [vulns[k]];
      TallyAppend(vulns[..k], [vulns[k]], Critical);
      TallyAppend(vulns[..k], [vulns[k]], Severe);
      TallyAppend(vulns[..k], [vulns[k]], Moderate);
      match vulns[k].severity
      case Critical => critical := critical + 1;
      case Severe => severe := severe + 1;
      case Moderate => moderate := moderate + 1;
    }
    assert vulns[..|vulns|] == vulns;
    return Counts(critical, severe, moderate, |vulns|);
  }

  function Assess(device: Device, report: Report): Asset {
    var vulns := Remaining(report.hits, report.excepted);
    Asset(device, vulns, Excluded(report.hits, vulns), CountsOf(vulns), report.authenticated)
  }

  /** What is reported of a device: although the excluded findings are found by looking each finding
      up in the list of those that count, the two lists share nothing and lose nothing. The counted
      ones are those without an approved exception, the excluded ids are those with one, together they
      are as many as were found, and the counts are those of the first list. */
  lemma FindingsAreSplit(device: Device, report: Report)
    ensures var a := Assess(device, report);
      a.device == device && a.authenticated == report.authenticated
      && |a.vulns| + |a.excluded| == |report.hits|
      && (forall f :: f in a.vulns <==> f in report.hits && f.id !in report.excepted)
      && (forall id :: id in a.excluded <==> id in report.excepted && exists f :: f in report.hits && f.id == id)
      && a.counts == Counts(Tally(a.vulns, Critical), Tally(a.vulns, Severe), Tally(a.vulns, Moderate), |a.vulns|)
  {
    forall f ensures f in Remaining(report.hits, report.excepted) <==> f in report.hits && f.id !in report.excepted {
      RemainingMeans(report.hits, report.excepted, f);
    }
    ExcludedMeans(report.hits, report.excepted, Remaining(report.hits, report.excepted));
  }

  function Sum(found: seq<Asset>): Counts {
    if found == [] then NOTHING else Add(Sum(found[..|found| - 1]), found[|found| - 1].counts)
  }

  /** The loop of _run_scan over the assessed devices. */
  method Summarise(found: seq<Asset>) returns (totals: Counts, authenticated: bool)
    ensures totals == Sum(found)
    ensures authenticated <==> exists k :: 0 <= k < |found| && found[k].authenticated
  {
    totals, authenticated := NOTHING, false;
    for k := 0 to |found|
      invariant totals == Sum(found[..k])
      invariant authenticated <==> exists j :: 0 <= j < k && found[j].authenticated
    {
      assert found[..k + 1][..k] == found[..k];
      totals := Add(totals, found[k].counts);
      authenticated := authenticated || found[k].authenticated;
    }
    assert found[..|found|] == found;
  }

  /** All remaining findings of all assessed devices. */
  function AllVulns(found: seq<Asset>): seq<Finding> {
    if found == [] then [] else AllVulns(found[..|found| - 1]) + found[|found| - 1].vulns
  }

  /** The totals count every remaining finding of every assessed device once, and the three
      severities add up to the total. */
  lemma {:induction false} TotalsCountEverything(found: seq<Asset>)
    requires forall a :: a in found ==> a.counts == CountsOf(a.vulns)
    ensures Sum(found) == CountsOf(AllVulns(found))
    ensures Sum(found).critical + Sum(found).severe + Sum(found).moderate == Sum(found).total
  {
    SeveritiesAddUp(AllVulns(found));
    if found != [] {
      var n := |found| - 1;
      assert found[n] in found;
      TotalsCountEverything(found[..n]);
      TallyAppend(AllVulns(found[..n]), found[n].vulns, Critical);
      TallyAppend(AllVulns(found[..n]), found[n].vulns, Severe);
      TallyAppend(AllVulns(found[..n]), found[n].vulns, Moderate);
    }
  }

  // ---------- the worker and the controls ----------

  datatype Status = Running | Paused | Stopped | Finished

  /** Where the worker stands: at the top of the loop, inside the pause loop, before the last check,
      assessing, publishing the count, reporting, dropping its control entry, gone. */
  datatype Stage = Top | PauseTest | StopTest | LastCheck | Assessing | Publishing | Reporting(stopped: bool) | Leaving | Gone

  datatype Job = Job(targets: seq<Device>, stage: Stage, found: seq<Asset>, pause: bool, stop: bool, controlled: bool,
                     status: Status, assets: nat, totals: Counts, credentialed: bool)

  function Start(targets: seq<Device>): Job {
    Job(targets, Top, [], false, false, true, Running, 0, NOTHING, false)
  }

  function AnyAuthenticated(found: seq<Asset>): bool { exists k :: 0 <= k < |found| && found[k].authenticated }

  /** One step of the worker; the report is used only by the step that assesses a device. */
  function Work(j: Job, report: Report): Job
  {
    match j.stage
    case Top =>
      if |j.found| >= |j.targets| then j.(stage := Reporting(false))
      else if j.stop then j.(stage := Reporting(true)) else j.(stage := PauseTest)
    case PauseTest => j.(stage := if j.pause then StopTest else LastCheck)
    case StopTest => j.(stage := if j.stop then Reporting(true) else PauseTest)
    case LastCheck => j.(stage := if j.stop then Reporting(true) else Assessing)
    case Assessing =>
      if |j.found| >= |j.targets| then j else j.(stage := Publishing, found := j.found + [Assess(j.targets[|j.found|], report)])
    case Publishing => j.(stage := Top, assets := |j.found|)
    case Reporting(stopped) =>
      j.(stage := Leaving, status := if stopped then Stopped else Finished, assets := |j.found|,
         totals := Sum(j.found), credentialed := AnyAuthenticated(j.found))
    case Leaving => j.(stage := Gone, controlled := false)
    case Gone => j
  }

  datatype Command = Pause | Resume | Stop | Unsupported

  /** The states a call is allowed in and the state it leads to; None for an unsupported call. */
  function Transition(c: Command): Option<(set<Status>, Status)> {
    match c
    case Pause => Some(({Running}, Paused))
    case Resume => Some(({Paused}, Running))
    case Stop => Some(({Running, Paused}, Stopped))
    case Unsupported => None
  }

  predicate Allowed(status: Status, c: Command) { Transition(c).Some? && status in Transition(c).value.0 }

  /** set_scan_status: the transitions it allows set or clear the worker's flags. */
  function Control(j: Job, c: Command): Job {
    if !Allowed(j.status, c) then j
    else
      var j' := j.(status := Transition(c).value.1);
      match c
      case Pause => j'.(pause := j.pause || j.controlled)
      case Resume => j'.(pause := j.pause && !j.controlled)
      case _ => j'.(stop := j.stop || j.controlled, pause := j.pause && !j.controlled)
  }

  /** The visible states in which a call is accepted. */
  predicate Accepts(status: Status, c: Command) {
    (c == Pause && status == Running) || (c == Resume && status == Paused)
    || (c == Stop && (status == Running || status == Paused))
  }

  datatype Event = Worker(report: Report) | User(command: Command)

  function Step(j: Job, e: Event): Job {
    match e
    case Worker(report) => Work(j, report)
    case User(c) => Control(j, c)
  }

  function Run(j: Job, es: seq<Event>): Job
    decreases |es|
  {
    if es == [] then j else Run(Step(j, es[0]), es[1..])
  }

  // ---------- what every reachable state satisfies ----------

  ghost predicate Sound(j: Job) {
    InOrder(j.targets, j.found) && Placed(j) && (if Reported(j) then Ended(j) else Open(j))
  }

  ghost predicate InOrder(targets: seq<Device>, found: seq<Asset>) {
    (forall k :: 0 <= k < |found| && k < |targets| ==> found[k].device == targets[k])
    && (forall a :: a in found ==> a.counts == CountsOf(a.vulns))
  }

  /** How far the stage says the worker has come. */
  predicate Placed(j: Job) {
    match j.stage
    case Top => |j.found| <= |j.targets|
    case Publishing => 0 < |j.found| <= |j.targets|
    case Reporting(stopped) => if stopped then j.stop && |j.found| < |j.targets| else |j.found| == |j.targets|
    case Leaving => |j.found| <= |j.targets|
    case Gone => |j.found| <= |j.targets|
    case _ => |j.found| < |j.targets|
  }

  predicate Reported(j: Job) { j.stage.Leaving? || j.stage.Gone? }

  /** Before the report, the visible status says exactly which flags are set, the visible count is that
      of the published devices, and there are no totals yet. */
  predicate Open(j: Job) {
    j.controlled && j.assets == (if j.stage.Publishing? then |j.found| - 1 else |j.found|)
    && j.totals == Counts(0, 0, 0, 0) && !j.credentialed
    && match j.status
       case Running => !j.pause && !j.stop
       case Paused => j.pause && !j.stop
       case Stopped => !j.pause && j.stop
       case Finished => false
  }

  ghost predicate Ended(j: Job) {
    j.status == (if |j.found| == |j.targets| then Finished else Stopped)
    && j.assets == |j.found| && j.totals == Sum(j.found) && j.credentialed == AnyAuthenticated(j.found)
    && j.controlled == j.stage.Leaving?
  }

  lemma AssessSound(j: Job, report: Report)
    requires Sound(j) && j.stage.Assessing?
    ensures Sound(Work(j, report))
  {
    hide CountsOf, Remaining, Excluded;
    var a := Assess(j.targets[|j.found|], report);
    assert a.counts == CountsOf(a.vulns);
    assert Work(j, report).found == j.found + [a];
  }

  lemma WorkSound(j: Job, report: Report)
    requires Sound(j) && !j.stage.Assessing?
    ensures Sound(Work(j, report))
  {
    hide Sum, CountsOf, AnyAuthenticated, Assess, InOrder;
  }

  lemma ControlSound(j: Job, c: Command)
    requires Sound(j)
    ensures Sound(Control(j, c))
  {
    hide Sum, CountsOf, AnyAuthenticated, Assess, InOrder;
    assert Reported(j) ==> !Allowed(j.status, c);
    assert Control(j, c).found == j.found && Control(j, c).stage == j.stage && Control(j, c).targets == j.targets;
  }

  lemma StepSound(j: Job, e: Event)
    requires Sound(j)
    ensures Sound(Step(j, e)) && Step(j, e).targets == j.targets
  {
    hide Sound, Assess, Allowed, Transition, Sum, AnyAuthenticated;
    match e
    case Worker(report) => if j.stage.Assessing? { AssessSound(j, report); } else { WorkSound(j, report); }
    case User(c) => ControlSound(j, c);
  }

  lemma {:induction false} RunSound(j: Job, es: seq<Event>)
    requires Sound(j)
    ensures Sound(Run(j, es)) && Run(j, es).targets == j.targets
    decreases |es|
  {
    hide Sound, Step;
    if es != [] {
      StepSound(j, es[0]);
      RunSound(Step(j, es[0]), es[1..]);
    }
  }

  function Devices(found: seq<Asset>): seq<Device> { seq(|found|, k requires 0 <= k < |found| => found[k].device) }

  /** In every interleaving the devices assessed so far are a prefix of the targets, in order and
      each once, and before the report the visible status says exactly which flags are set and the
      visible count how many devices are published. */
  lemma AssessedIsPrefix(targets: seq<Device>, es: seq<Event>)
    ensures var j := Run(Start(targets), es);
      |j.found| <= |targets| && Devices(j.found) == targets[..|j.found|] && (!Reported(j) ==> Open(j))
  {
    hide Run;
    RunSound(Start(targets), es);
  }

  /** When the worker has reported, the scan is finished exactly when every target was assessed and
      stopped otherwise; the counts are those of the assessed devices, and the control entry is
      dropped when the worker is gone. */
  lemma ReportsWhatItDid(targets: seq<Device>, es: seq<Event>)
    requires Reported(Run(Start(targets), es))
    ensures var j := Run(Start(targets), es);
      (j.status == Finished <==> |j.found| == |targets|) && (j.status == Stopped <==> |j.found| < |targets|)
      && j.assets == |j.found| && j.totals == CountsOf(AllVulns(j.found))
      && j.totals.critical + j.totals.severe + j.totals.moderate == j.totals.total
      && (j.credentialed <==> exists k :: 0 <= k < |j.found| && j.found[k].authenticated)
      && (j.controlled <==> !j.stage.Gone?)
  {
    hide Run, AllVulns, Sum, CountsOf;
    RunSound(Start(targets), es);
    TotalsCountEverything(Run(Start(targets), es).found);
  }

  // ---------- stop and pause take effect ----------

  /** One more device is still assessed after a stop, or after a pause, from these stages. */
  predicate InFlight(j: Job) { j.stage.Assessing? || (!j.stop && j.stage.LastCheck?) }

  function Slack(j: Job): nat { if InFlight(j) then 1 else 0 }

  predicate Halted(j: Job) { j.pause || j.stop }

  lemma StepHalted(j: Job, e: Event)
    requires Sound(j) && Halted(j) && e != User(Resume)
    ensures |Step(j, e).found| + Slack(Step(j, e)) <= |j.found| + Slack(j) && |j.found| <= |Step(j, e).found|
    ensures Halted(Step(j, e))
  {
    hide Sum, CountsOf, Remaining, Excluded, AnyAuthenticated, Assess, InOrder;
  }

  lemma {:induction false} HaltedFrom(j: Job, es: seq<Event>)
    requires Sound(j) && Halted(j) && User(Resume) !in es
    ensures |j.found| <= |Run(j, es).found| <= |j.found| + Slack(j)
    decreases |es|
  {
    hide Sound, Step, Halted, Slack;
    if es != [] {
      StepSound(j, es[0]);
      StepHalted(j, es[0]);
      HaltedFrom(Step(j, es[0]), es[1..]);
    }
  }

  /** After an accepted pause or stop at any moment of any run, at most one more device is assessed
      until a resume, and none unless the worker was past its last look at the flag. */
  lemma AtMostOneMore(targets: seq<Device>, before: seq<Event>, c: Command, after: seq<Event>)
    requires var j := Run(Start(targets), before);
      !Reported(j) && Accepts(j.status, c) && (c == Pause || c == Stop) && User(Resume) !in after
    ensures var j := Run(Start(targets), before);
      var j' := Run(Control(j, c), after);
      |j.found| <= |j'.found| <= |j.found| + (if InFlight(Control(j, c)) then 1 else 0) <= |j.found| + 1
  {
    hide Run;
    RunSound(Start(targets), before);
    var j := Run(Start(targets), before);
    assert Control(j, c) == Step(j, User(c));
    StepSound(j, User(c));
    HaltedFrom(Control(j, c), after);
  }

  // ---------- a stop that comes too late ----------

  /** Where a stopped scan will end. */
  function Outcome(j: Job): nat { |j.found| + if j.stage.Assessing? then 1 else 0 }

  lemma StepStopping(j: Job, e: Event)
    requires Sound(j) && j.stop
    ensures Step(j, e).stop && Outcome(Step(j, e)) == Outcome(j)
  {
    hide Sum, CountsOf, Remaining, Excluded, AnyAuthenticated, Assess, InOrder;
  }

  lemma {:induction false} StoppingFrom(j: Job, es: seq<Event>)
    requires Sound(j) && j.stop
    ensures Outcome(Run(j, es)) == Outcome(j)
    decreases |es|
  {
    hide Sound, Step, Outcome;
    if es != [] {
      StepSound(j, es[0]);
      StepStopping(j, es[0]);
      StoppingFrom(Step(j, es[0]), es[1..]);
    }
  }

  /** A stop is shown at once, but when it comes during the last device, or after it, the worker
      overwrites it: the scan ends finished exactly when at the moment of the stop the assessed
      devices, with the one being assessed, are all the targets. */
  lemma StopOverwrittenExactlyWhenLast(targets: seq<Device>, before: seq<Event>, after: seq<Event>)
    requires var j := Run(Start(targets), before);
      !Reported(j) && Accepts(j.status, Stop) && Reported(Run(Control(j, Stop), after))
    ensures var j := Run(Start(targets), before);
      Control(j, Stop).status == Stopped
      && (Run(Control(j, Stop), after).status == Finished
          <==> |j.found| + (if j.stage.Assessing? then 1 else 0) == |targets|)
  {
    hide Run;
    RunSound(Start(targets), before);
    var j := Run(Start(targets), before);
    var j1 := Control(j, Stop);
    assert j1 == Step(j, User(Stop));
    StepSound(j, User(Stop));
    StoppingFrom(j1, after);
    RunSound(j1, after);
  }

  /** One target, stopped while it is being assessed. */
  function LateStop(report: Report): (seq<Event>, seq<Event>) {
    var w := Worker(report);
    ([w, w, w], [w, w, w, w])
  }

  lemma RunNext(j: Job, e: Event, es: seq<Event>)
    ensures Run(j, [e] + es) == Run(Step(j, e), es)
  {
    hide Step;
    assert ([e] + es)[1..] == es;
  }

  lemma RunMany(j: Job, w: Event)
    ensures Run(j, []) == j && Run(j, [w, w, w]) == Step(Step(Step(j, w), w), w)
    ensures Run(j, [w, w, w, w]) == Step(Step(Step(Step(j, w), w), w), w)
  {
    hide Step;
    var j1 := Step(j, w);
    var j2 := Step(j1, w);
    var j3 := Step(j2, w);
    RunNext(j, w, [w, w]);
    RunNext(j1, w, [w]);
    RunNext(j2, w, []);
    assert [w] + [w, w] == [w, w, w] && [w] + [w] == [w, w] && [w] + [] == [w];
    RunNext(j, w, [w, w, w]);
    RunNext(j1, w, [w, w]);
    RunNext(j2, w, [w]);
    RunNext(j3, w, []);
    assert [w] + [w, w, w] == [w, w, w, w];
    assert Run(j3, []) == j3 && Run(Step(j3, w), []) == Step(j3, w) && Run(j, []) == j;
  }

  /** A stop that arrives during the last device is accepted and shown as stopped, and the scan ends
      finished. */
  lemma LateStopIsOverwritten(target: Device, report: Report)
    ensures var (before, after) := LateStop(report);
      var j := Run(Start([target]), before);
      Accepts(j.status, Stop) && Control(j, Stop).status == Stopped && Reported(Run(Control(j, Stop), after))
      && Run(Control(j, Stop), after).status == Finished
  {
    hide Run, Sum, CountsOf, Remaining, Excluded, AnyAuthenticated;
    var w, start := Worker(report), Start([target]);
    RunMany(start, w);
    RunMany(Control(Run(start, [w, w, w]), Stop), w);
  }

  // ---------- the end ----------

  lemma {:induction false} NothingAfterReport(j: Job, es: seq<Event>)
    requires Reported(j) && (j.status == Finished || j.status == Stopped)
    ensures Reported(Run(j, es)) && Run(j, es).(stage := Gone, controlled := false) == j.(stage := Gone, controlled := false)
    decreases |es|
  {
    hide Step;
    if es != [] {
      StepAfterReport(j, es[0]);
      NothingAfterReport(Step(j, es[0]), es[1..]);
    }
  }

  lemma StepAfterReport(j: Job, e: Event)
    requires Reported(j) && (j.status == Finished || j.status == Stopped)
    ensures var j' := Step(j, e); Reported(j') && j'.(stage := Gone, controlled := false) == j.(stage := Gone, controlled := false)
    ensures Step(j, e).status == j.status
  {
    hide Sum, CountsOf, AnyAuthenticated, Assess;
  }

  /** Once the worker has reported, every control call is refused and no result ever changes. */
  lemma ReportIsFinal(targets: seq<Device>, before: seq<Event>, after: seq<Event>, c: Command)
    requires Reported(Run(Start(targets), before))
    ensures var j, j' := Run(Start(targets), before), Run(Run(Start(targets), before), after);
      Control(j', c) == j' && j'.status == j.status && j'.found == j.found
      && j'.totals == j.totals && j'.assets == j.assets && j'.credentialed == j.credentialed
  {
    hide Run;
    RunSound(Start(targets), before);
    var j := Run(Start(targets), before);
    NothingAfterReport(j, after);
    var j' := Run(j, after);
    assert j'.(stage := Gone, controlled := false).status == j.(stage := Gone, controlled := false).status;
    assert j'.(stage := Gone, controlled := false).found == j.(stage := Gone, controlled := false).found;
    assert j'.(stage := Gone, controlled := false).totals == j.(stage := Gone, controlled := false).totals;
    assert j'.(stage := Gone, controlled := false).assets == j.(stage := Gone, controlled := false).assets;
    assert j'.(stage := Gone, controlled := false).credentialed == j.(stage := Gone, controlled := false).credentialed;
  }

  // ---------- termination ----------

  function Steps(es: seq<Event>): nat {
    if es == [] then 0 else (if es[0].Worker? then 1 else 0) + Steps(es[1..])
  }

  /** An upper bound on the worker steps that are left when nobody pauses the scan. */
  function Left(j: Job): int {
    var devices := 6 * (|j.targets| - |j.found|);
    match j.stage
    case Top => devices + 4
    case PauseTest => devices + 3
    case StopTest => devices + 4
    case LastCheck => devices + 2
    case Assessing => devices + 1
    case Publishing => devices + 5
    case Reporting(_) => 2
    case Leaving => 1
    case Gone => 0
  }

  lemma WorkLeft(j: Job, report: Report)
    requires Sound(j) && !j.pause
    ensures !Work(j, report).pause && 0 <= Left(Work(j, report))
    ensures if j.stage.Gone? then Work(j, report) == j else Left(Work(j, report)) < Left(j)
  {
    hide Sum, CountsOf, Remaining, Excluded, AnyAuthenticated, Assess, InOrder, Ended;
  }

  lemma StepLeft(j: Job, e: Event)
    requires Sound(j) && !j.pause && e != User(Pause)
    ensures !Step(j, e).pause && 0 <= Left(Step(j, e)) && (j.stage.Gone? ==> Step(j, e).stage.Gone?)
    ensures Left(Step(j, e)) <= Left(j) && (e.Worker? && !j.stage.Gone? ==> Left(Step(j, e)) < Left(j))
  {
    hide InOrder, Ended, Open;
    match e
    case Worker(report) =>
      hide Work;
      WorkLeft(j, report);
    case User(c) =>
      assert Control(j, c).stage == j.stage && Control(j, c).found == j.found;
  }

  lemma {:induction false} EndsFrom(j: Job, es: seq<Event>)
    requires Sound(j) && !j.pause && User(Pause) !in es && Left(j) <= Steps(es)
    ensures Run(j, es).stage.Gone?
    decreases |es|
  {
    hide Sound, Step;
    if es == [] {
      assert Left(j) <= 0;
      assert j.stage.Gone? by { NothingLeft(j); }
    } else {
      StepSound(j, es[0]);
      StepLeft(j, es[0]);
      assert j.stage.Gone? ==> Left(Step(j, es[0])) == 0;
      EndsFrom(Step(j, es[0]), es[1..]);
    }
  }

  lemma NothingLeft(j: Job)
    requires Sound(j) && Left(j) <= 0
    ensures j.stage.Gone?
  {}

  /** A scan that nobody pauses ends: six steps of the worker for each target and four more are
      enough, whatever other control calls come in between. */
  lemma UnpausedScanEnds(targets: seq<Device>, es: seq<Event>)
    requires User(Pause) !in es && Steps(es) >= 6 * |targets| + 4
    ensures Run(Start(targets), es).stage.Gone?
  {
    EndsFrom(Start(targets), es);
  }

  /** The worker steps that are left once the stop flag is set. */
  function LeftStopped(s: Stage): nat {
    match s
    case Assessing => 5
    case Publishing => 4
    case PauseTest => 4
    case Top => 3
    case LastCheck => 3
    case StopTest => 3
    case Reporting(_) => 2
    case Leaving => 1
    case Gone => 0
  }

  lemma {:induction false} StoppedEnds(j: Job, es: seq<Event>)
    requires Sound(j) && j.stop && !j.pause && LeftStopped(j.stage) <= Steps(es)
    ensures Run(j, es).stage.Gone?
    decreases |es|
  {
    hide Sound, Step;
    if es != [] {
      StepSound(j, es[0]);
      StepStopped(j, es[0]);
      StoppedEnds(Step(j, es[0]), es[1..]);
    }
  }

  lemma StepStopped(j: Job, e: Event)
    requires Sound(j) && j.stop && !j.pause
    ensures Step(j, e).stop && !Step(j, e).pause
    ensures LeftStopped(Step(j, e).stage) <= LeftStopped(j.stage)
    ensures e.Worker? && !j.stage.Gone? ==> LeftStopped(Step(j, e).stage) < LeftStopped(j.stage)
  {
    hide Sum, CountsOf, Remaining, Excluded, AnyAuthenticated, Assess, InOrder;
  }

  /** A stop ends the scan, paused or not: after five more steps the worker is gone, however many
      targets are left and whatever control calls follow. */
  lemma StopEndsTheScan(targets: seq<Device>, before: seq<Event>, after: seq<Event>)
    requires var j := Run(Start(targets), before); !Reported(j) && Accepts(j.status, Stop)
    requires Steps(after) >= 5
    ensures Run(Control(Run(Start(targets), before), Stop), after).stage.Gone?
  {
    hide Run;
    RunSound(Start(targets), before);
    var j := Run(Start(targets), before);
    assert Control(j, Stop) == Step(j, User(Stop));
    StepSound(j, User(Stop));
    StoppedEnds(Control(j, Stop), after);
  }

  // ---------- which controls are accepted ----------

  /** In every reachable state before the report: an accepted call shows its state, and the flags
      that the worker reads are those of that state; any other call changes nothing. */
  lemma AcceptedExactlyWhen(targets: seq<Device>, es: seq<Event>, c: Command)
    requires !Reported(Run(Start(targets), es))
    ensures var j := Run(Start(targets), es);
      Control(j, c) ==
        if Accepts(j.status, c) then
          j.(status := if c == Pause then Paused else if c == Resume then Running else Stopped,
             pause := c == Pause, stop := c == Stop)
        else j
  {
    hide Run;
    RunSound(Start(targets), es);
  }

  /** In every reachable state a pause and a resume after each other leave a running scan as it was. */
  lemma PauseThenResume(targets: seq<Device>, es: seq<Event>)
    requires var j := Run(Start(targets), es); !Reported(j) && j.status == Running
    ensures var j := Run(Start(targets), es);
      Control(j, Pause) != j && Control(Control(j, Pause), Resume) == j
  {
    hide Run;
    RunSound(Start(targets), es);
  }

  lemma {:induction false} NeverStopped(j: Job, es: seq<Event>)
    requires Sound(j) && !j.stop && !Reported(j) && User(Stop) !in es
    ensures !Run(j, es).stop && (Reported(Run(j, es)) ==> |Run(j, es).found| == |j.targets|)
    decreases |es|
  {
    hide Sound, Step, Reported;
    if es != [] {
      StepSound(j, es[0]);
      StepNotStopped(j, es[0]);
      var j' := Step(j, es[0]);
      if Reported(j') {
        RunSound(j', es[1..]);
        AfterReport(j', es[1..]);
      } else {
        NeverStopped(j', es[1..]);
      }
    }
  }

  lemma StepNotStopped(j: Job, e: Event)
    requires Sound(j) && !j.stop && !Reported(j) && e != User(Stop)
    ensures !Step(j, e).stop && (Reported(Step(j, e)) ==> |Step(j, e).found| == |j.targets|)
  {
    hide Sum, CountsOf, Remaining, Excluded, AnyAuthenticated, Assess, InOrder;
  }

  lemma AfterReport(j: Job, es: seq<Event>)
    requires Sound(j) && Reported(j)
    ensures Run(j, es).found == j.found && Run(j, es).stop == j.stop
  {
    hide Sum, CountsOf, AnyAuthenticated, InOrder, Run;
    NothingAfterReport(j, es);
    assert Run(j, es).(stage := Gone, controlled := false).found == j.(stage := Gone, controlled := false).found;
    assert Run(j, es).(stage := Gone, controlled := false).stop == j.(stage := Gone, controlled := false).stop;
  }

  /** A paused scan that is resumed, and after that neither paused nor stopped, ends finished with
      every target assessed, once the worker has made enough steps. */
  lemma ResumedScanFinishes(targets: seq<Device>, before: seq<Event>, after: seq<Event>)
    requires var j := Run(Start(targets), before); !Reported(j) && j.status == Paused
    requires User(Pause) !in after && User(Stop) !in after && Steps(after) >= 6 * |targets| + 4
    ensures var j := Run(Control(Run(Start(targets), before), Resume), after);
      j.stage.Gone? && j.status == Finished && Devices(j.found) == targets
  {
    hide Run;
    RunSound(Start(targets), before);
    var j := Run(Start(targets), before);
    var j1 := Control(j, Resume);
    assert j1 == Step(j, User(Resume));
    StepSound(j, User(Resume));
    assert !j1.pause && !j1.stop && Left(j1) <= 6 * |targets| + 4;
    EndsFrom(j1, after);
    NeverStopped(j1, after);
    RunSound(j1, after);
    assert targets[..|targets|] == targets;
  }

  // ---------- the scan record, updated in place ----------

  class ScanRecord {
    const targets: seq<Device>
    var stage: Stage
    var found: seq<Asset>
    var pause: bool
    var stop: bool
    var controlled: bool
    var status: Status
    var assets: nat
    var totals: Counts
    var credentialed: bool

    ghost function View(): Job
      reads this
    {
      Job(targets, stage, found, pause, stop, controlled, status, assets, totals, credentialed)
    }

    /** start_scan */
    constructor (targets: seq<Device>)
      ensures View() == Start(targets)
    {
      this.targets := targets;
      stage, found, pause, stop, controlled := Top, [], false, false, true;
      status, assets, totals, credentialed := Running, 0, NOTHING, false;
    }

    /** set_scan_status */
    method SetStatus(c: Command) returns (ok: bool)
      modifies this`status, this`pause, this`stop
      ensures View() == Control(old(View()), c)
      ensures ok <==> Accepts(old(status), c)
    {
      var transition := Transition(c);
      if transition.None? { return false; }
      var (allowed, next) := transition.value;
      if status !in allowed { return false; }
      if c == Pause && controlled {
        pause := true;
      } else if c == Resume && controlled {
        pause := false;
      } else if c == Stop && controlled {
        stop, pause := true, false;
      }
      status := next;
      return true;
    }

    /** The assessment of the next target and the publication of the count. */
    method AssessNext(report: Report)
      requires stage.Assessing? && |found| < |targets|
      modifies this`stage, this`found, this`assets
      ensures View() == Work(Work(old(View()), report), report)
    {
      var vulns := Remaining(report.hits, report.excepted);
      var excluded := Excluded(report.hits, vulns);
      var counts := CountFindings(vulns);
      found := found + [Asset(targets[|found|], vulns, excluded, counts, report.authenticated)];
      assets := |found|;
      stage := Top;
    }

    /** The end of _run_scan. */
    method Finish(stopped: bool)
      requires stage == Reporting(stopped)
      modifies this
      ensures forall report :: View() == Work(Work(old(View()), report), report)
    {
      hide Sum;
      var sums, authenticated := Summarise(found);
      status := if stopped then Stopped else Finished;
      credentialed, assets, totals := authenticated, |found|, sums;
      controlled := false;
      stage := Gone;
    }
  }
}
