/** The pod service helpers and the follow-tail pod-log event source of
    plugins/kubernetes_linux/pods.py.

    The date parser (dateutil's `parse` followed by `str`) is a parameter
    `parse`: `Some(s)` is the normalised string of a parsed date-time, `None`
    stands for `TypeError` or `ParserError`. The middleware calls, the
    cluster watch and event delivery are recorded as `Effect`s. */
module Pods {
  import opened Wrappers
  import opened PyStr

  /** The Python values that reach keyword arguments here. */
  datatype ArgValue = Null | Bool(b: bool) | Int(i: int) | Str(s: string)

  /** Python truthiness: `None`, `False`, `0` and `''` are false. */
  predicate Truthy(v: ArgValue)
  {
    match v
    case Null => false
    case Bool(b) => b
    case Int(i) => i != 0
    case Str(s) => |s| != 0
  }

  /** `dict.get(key)` on a dictionary with string keys: the value, or `None`
      when the key is absent. */
  function Get(d: map<string, ArgValue>, key: string): ArgValue
  {
    if key in d then d[key] else Null
  }

  // ---------------------------------------------------------------------
  // KubernetesPodService.conditional_filtering_in_query

  /** One entry of a pod's `metadata.ownerReferences`. */
  datatype OwnerReference = OwnerReference(kind: string)

  /** `any(o['kind'] == kind for o in refs)`. */
  function AnyOfKind(refs: seq<OwnerReference>, kind: string): (r: bool)
    ensures r <==> exists i :: 0 <= i < |refs| && refs[i].kind == kind
  {
    if refs == [] then false
    else if refs[0].kind == kind then true
    else
      var r := AnyOfKind(refs[1..], kind);
      assert forall i :: 1 <= i < |refs| ==> refs[i] == refs[1..][i - 1];
      r
  }

  /** Whether a pod stays in the query result: always when the query's
      `extra` asks for `retrieve_all_pods`, and otherwise only when no
      owner reference is a DaemonSet. Missing owner references (`None`)
      count as none. */
  function ConditionalFilteringInQuery(ownerReferences: Option<seq<OwnerReference>>, extra: map<string, ArgValue>): (keep: bool)
    ensures keep <==>
      || Truthy(Get(extra, "retrieve_all_pods"))
      || ownerReferences == None
      || forall i :: 0 <= i < |ownerReferences.value| ==> ownerReferences.value[i].kind != "DaemonSet"
  {
    var refs := match ownerReferences case None => [] case Some(rs) => rs;
    Truthy(Get(extra, "retrieve_all_pods")) || !AnyOfKind(refs, "DaemonSet")
  }

  // ---------------------------------------------------------------------
  // Keyword arguments of the cluster calls

  /** The keyword names the log calls pass, spelled `namespace`, `container`,
      `tailLines`, `limitBytes`, `pod_name` and `timestamps`. */
  datatype Keyword = Namespace | Container | TailLines | LimitBytes | PodName | Timestamps

  /** A keyword-argument dictionary. */
  type Kwargs = map<Keyword, ArgValue>

  // ---------------------------------------------------------------------
  // KubernetesPodService.get_logs

  /** The call `Pod.logs(pod, namespace, **kwargs)`. */
  datatype PodLogsCall = PodLogsCall(pod: string, namespace: string, kwargs: Kwargs)

  /** The logs request of `get_logs`: container and tail depth are always
      passed and timestamps always requested; the byte limit is passed only
      when it is truthy. */
  function GetLogs(pod: string, container: string, namespace: string,
                   tailLines: ArgValue := Int(500), limitBytes: ArgValue := Null): (call: PodLogsCall)
    ensures call.pod == pod && call.namespace == namespace
    ensures call.kwargs.Keys == {Timestamps, TailLines, Container} + (if Truthy(limitBytes) then {LimitBytes} else {})
    ensures call.kwargs[Timestamps] == Bool(true)
    ensures call.kwargs[TailLines] == tailLines
    ensures call.kwargs[Container] == Str(container)
    ensures LimitBytes in call.kwargs ==> call.kwargs[LimitBytes] == limitBytes
  {
    var always := map[Timestamps := Bool(true), TailLines := tailLines, Container := Str(container)];
    PodLogsCall(pod, namespace, always + if Truthy(limitBytes) then map[LimitBytes := limitBytes] else map[])
  }

  // ---------------------------------------------------------------------
  // KubernetesPodLogsFollowTailEventSource

  /** The event source's arguments, `self.arg`, after the schema has filled in
      the defaults (`tail_lines` 500, `limit_bytes` None). */
  datatype LogArgs = LogArgs(tailLines: int, limitBytes: Option<int>,
                             releaseName: string, podName: string, containerName: string)

  /** The bounds the argument schema enforces: `Range(min=1)` on both limits. */
  predicate SchemaValid(arg: LogArgs)
  {
    arg.tailLines >= 1 && (arg.limitBytes.Some? ==> arg.limitBytes.value >= 1)
  }

  /** The names of the schema's arguments: `tail_lines`, `limit_bytes`,
      `release_name`, `pod_name`, `container_name`. */
  datatype ArgName = TailLinesArg | LimitBytesArg | ReleaseNameArg | PodNameArg | ContainerNameArg

  /** `self.arg[name]`. */
  function ArgOf(arg: LogArgs, name: ArgName): ArgValue
  {
    match name
    case TailLinesArg => Int(arg.tailLines)
    case LimitBytesArg => (match arg.limitBytes case None => Null case Some(n) => Int(n))
    case ReleaseNameArg => Str(arg.releaseName)
    case PodNameArg => Str(arg.podName)
    case ContainerNameArg => Str(arg.containerName)
  }

  /** The (watch keyword, argument name) pairs `run` copies when truthy, in order. */
  const WatchArgPairs: seq<(Keyword, ArgName)> :=
    [(Container, ContainerNameArg), (TailLines, TailLinesArg), (LimitBytes, LimitBytesArg), (PodName, PodNameArg)]

  /** The dict comprehension `{k: self.arg[v] for k, v in pairs if self.arg[v]}`. */
  function SelectTruthy(arg: LogArgs, pairs: seq<(Keyword, ArgName)>): Kwargs
  {
    if pairs == [] then map[]
    else
      var (k, v) := pairs[|pairs| - 1];
      var acc := SelectTruthy(arg, pairs[..|pairs| - 1]);
      if Truthy(ArgOf(arg, v)) then acc[k := ArgOf(arg, v)] else acc
  }

  /** One entry of the comprehension: `{k: v}` when `v` is truthy, else nothing. */
  function Pick(k: Keyword, v: ArgValue): Kwargs
  {
    if Truthy(v) then map[k := v] else map[]
  }

  /** The comprehension over `pairs + [p]` is the one over `pairs`, then `p`'s
      entry, which overrides any earlier one with the same key. */
  lemma SelectTruthySnoc(arg: LogArgs, pairs: seq<(Keyword, ArgName)>, p: (Keyword, ArgName))
    ensures SelectTruthy(arg, pairs + [p]) == SelectTruthy(arg, pairs) + Pick(p.0, ArgOf(arg, p.1))
  {
    var ps := pairs + [p];
    assert ps[..|ps| - 1] == pairs;
    assert ps[|ps| - 1] == p;
  }

  /** The comprehension of `run`, entry by entry. */
  lemma {:induction false} WatchSelection(arg: LogArgs)
    ensures SelectTruthy(arg, WatchArgPairs) ==
      Pick(Container, ArgOf(arg, ContainerNameArg)) + Pick(TailLines, ArgOf(arg, TailLinesArg)) +
      Pick(LimitBytes, ArgOf(arg, LimitBytesArg)) + Pick(PodName, ArgOf(arg, PodNameArg))
  {
    var p0, p1, p2, p3 := WatchArgPairs[0], WatchArgPairs[1], WatchArgPairs[2], WatchArgPairs[3];
    assert WatchArgPairs == [] + [p0] + [p1] + [p2] + [p3];
    SelectTruthySnoc(arg, [], p0);
    assert [] + [p0] == [p0];
    SelectTruthySnoc(arg, [p0], p1);
    SelectTruthySnoc(arg, [p0] + [p1], p2);
    SelectTruthySnoc(arg, [p0] + [p1] + [p2], p3);
    assert SelectTruthy(arg, []) == map[];
  }

  /** The keyword arguments of the log watch: the namespace, then the
      comprehension. */
  function WatchKwargs(arg: LogArgs, namespace: string): Kwargs
  {
    map[Namespace := Str(namespace)] + SelectTruthy(arg, WatchArgPairs)
  }

  /** The log watch always gets the release's namespace; container, tail
      depth, byte limit and pod name only when truthy, with their values;
      and never `timestamps`. */
  lemma WatchKwargsContents(arg: LogArgs, namespace: string)
    ensures var kw := WatchKwargs(arg, namespace);
      && Namespace in kw && kw[Namespace] == Str(namespace)
      && Timestamps !in kw
      && ((Container in kw) <==> arg.containerName != "")
      && (Container in kw ==> kw[Container] == Str(arg.containerName))
      && ((TailLines in kw) <==> arg.tailLines != 0)
      && (TailLines in kw ==> kw[TailLines] == Int(arg.tailLines))
      && ((LimitBytes in kw) <==> (arg.limitBytes.Some? && arg.limitBytes.value != 0))
      && (LimitBytes in kw ==> kw[LimitBytes] == Int(arg.limitBytes.value))
      && ((PodName in kw) <==> arg.podName != "")
      && (PodName in kw ==> kw[PodName] == Str(arg.podName))
  {
    WatchSelection(arg);
    WatchKwargsFixed(arg, namespace);
    WatchKwargsNames(arg, namespace);
    WatchKwargsLimits(arg, namespace);
  }

  /** Part of `WatchKwargsContents`: the namespace is always passed and
      `timestamps` never is. */
  lemma WatchKwargsFixed(arg: LogArgs, namespace: string)
    ensures var kw := WatchKwargs(arg, namespace);
      Namespace in kw && kw[Namespace] == Str(namespace) && Timestamps !in kw
  {
    WatchSelection(arg);
  }

  /** Part of `WatchKwargsContents`: the container and pod names are passed
      when not empty. */
  lemma WatchKwargsNames(arg: LogArgs, namespace: string)
    ensures var kw := WatchKwargs(arg, namespace);
      && ((Container in kw) <==> arg.containerName != "")
      && (Container in kw ==> kw[Container] == Str(arg.containerName))
      && ((PodName in kw) <==> arg.podName != "")
      && (PodName in kw ==> kw[PodName] == Str(arg.podName))
  {
    WatchSelection(arg);
  }

  /** Part of `WatchKwargsContents`: the tail depth and the byte limit are
      passed when not zero or `None`. */
  lemma WatchKwargsLimits(arg: LogArgs, namespace: string)
    ensures var kw := WatchKwargs(arg, namespace);
      && ((TailLines in kw) <==> arg.tailLines != 0)
      && (TailLines in kw ==> kw[TailLines] == Int(arg.tailLines))
      && ((LimitBytes in kw) <==> (arg.limitBytes.Some? && arg.limitBytes.value != 0))
      && (LimitBytes in kw ==> kw[LimitBytes] == Int(arg.limitBytes.value))
  {
    WatchSelection(arg);
  }

  /** Under the schema's bounds the tail depth is always passed to the watch,
      and the byte limit exactly when one was given. */
  lemma WatchKwargsUnderSchema(arg: LogArgs, namespace: string)
    requires SchemaValid(arg)
    ensures TailLines in WatchKwargs(arg, namespace)
    ensures LimitBytes in WatchKwargs(arg, namespace) <==> arg.limitBytes.Some?
  {
    WatchKwargsContents(arg, namespace);
  }

  /** The fields of one published event. */
  datatype LogEvent = LogEvent(data: string, timestamp: Option<string>)

  /** `split(maxsplit=1)[0]` on an all-whitespace line raises `IndexError`. */
  datatype LineError = IndexError

  /** The timestamp/data split of one log line. A blank line raises. When
      the first token does not parse, the event's data is the whole line. */
  function SplitLine(line: string, parse: string -> Option<string>): (r: Result<LogEvent, LineError>)
    ensures r.Failure? <==> AllSpace(line)
    ensures r.Success? ==> SplitOnce(line) != [] && r.value.timestamp == parse(Strip(SplitOnce(line)[0]))
    ensures r.Success? && r.value.timestamp == None ==> r.value.data == line
  {
    SplitOnceEmptyIffBlank(line);
    var parts := SplitOnce(line);
    if parts == [] then Failure(IndexError)
    else
      var timestamp := Strip(parts[0]);
      match parse(timestamp)
      case None => Success(LogEvent(line, None))
      case Some(ts) => Success(LogEvent(LStrip(parts[|parts| - 1]), Some(ts)))
  }

  /** A line read as leading whitespace, a first token, the whitespace after
      it and the rest: this reading is the one `split` makes. */
  predicate LineParts(lead: string, tok: string, gap: string, rest: string)
  {
    && AllSpace(lead) && tok != [] && NoSpace(tok) && AllSpace(gap)
    && (rest == [] || (gap != [] && !IsSpace(rest[0])))
  }

  /** `SplitLine` in terms of the line's `split(maxsplit=1)`. */
  lemma SplitLineOfSplit(line: string, parts: seq<string>, parse: string -> Option<string>)
    requires SplitOnce(line) == parts && parts != []
    ensures SplitLine(line, parse) ==
      match parse(Strip(parts[0]))
      case None => Success(LogEvent(line, None))
      case Some(ts) => Success(LogEvent(LStrip(parts[|parts| - 1]), Some(ts)))
  {
  }

  /** A line whose first token parses: the timestamp is the parser's string
      and the data is the text after the whitespace that follows the token,
      or the token itself when nothing follows it. */
  lemma ParsedLine(lead: string, tok: string, gap: string, rest: string, parse: string -> Option<string>)
    requires LineParts(lead, tok, gap, rest)
    requires parse(tok).Some?
    ensures SplitLine(lead + tok + gap + rest, parse) ==
            Success(LogEvent(if rest == [] then tok else rest, parse(tok)))
  {
    var line := lead + tok + gap + rest;
    var parts := if rest == [] then [tok] else [tok, rest];
    SplitOnceOfParts(lead, tok, gap, rest);
    StripOfToken(tok);
    var last := parts[|parts| - 1];
    assert last == if rest == [] then tok else rest;
    LStripOfSpacePrefix([], last);
    assert [] + last == last;
    SplitLineOfSplit(line, parts, parse);
  }

  /** A line whose first token does not parse is published unchanged,
      without a timestamp. */
  lemma UnparsedLine(lead: string, tok: string, gap: string, rest: string, parse: string -> Option<string>)
    requires LineParts(lead, tok, gap, rest)
    requires parse(tok) == None
    ensures SplitLine(lead + tok + gap + rest, parse) == Success(LogEvent(lead + tok + gap + rest, None))
  {
    var line := lead + tok + gap + rest;
    var parts := if rest == [] then [tok] else [tok, rest];
    SplitOnceOfParts(lead, tok, gap, rest);
    StripOfToken(tok);
    SplitLineOfSplit(line, parts, parse);
  }

  /** A line that is a single parseable token yields that token as data. */
  lemma SingleTokenLine(tok: string, parse: string -> Option<string>)
    requires tok != [] && NoSpace(tok) && parse(tok).Some?
    ensures SplitLine(tok, parse) == Success(LogEvent(tok, parse(tok)))
  {
    SplitOnceOfToken(tok);
    StripOfToken(tok);
    LStripOfSpacePrefix([], tok);
    assert [] + tok == tok;
    SplitLineOfSplit(tok, [tok], parse);
  }

  /** The index of the first blank record, or the number of records. */
  function FirstBlank(records: seq<string>): (n: nat)
    ensures n <= |records|
    ensures forall i :: 0 <= i < n ==> !AllSpace(records[i])
    ensures n < |records| ==> AllSpace(records[n])
  {
    if records == [] then 0
    else if AllSpace(records[0]) then 0
    else
      var n := FirstBlank(records[1..]);
      assert forall i :: 1 <= i < |records| ==> records[i] == records[1..][i - 1];
      1 + n
  }

  /** The split `run` applies to each record, for a given date parser. */
  function LineSplit(parse: string -> Option<string>): string -> Result<LogEvent, LineError>
  {
    line => SplitLine(line, parse)
  }

  /** The index of the first record `split` raises on, or the number of records. */
  function FirstFailure(records: seq<string>, split: string -> Result<LogEvent, LineError>): (n: nat)
    ensures n <= |records|
    ensures forall i :: 0 <= i < n ==> split(records[i]).Success?
    ensures n < |records| ==> split(records[n]).Failure?
  {
    if records == [] then 0
    else if split(records[0]).Failure? then 0
    else
      var n := FirstFailure(records[1..], split);
      assert forall i :: 1 <= i < |records| ==> records[i] == records[1..][i - 1];
      1 + n
  }

  /** Under `run`'s split the first record that raises is the first blank one. */
  lemma {:induction false} FirstFailureIsFirstBlank(records: seq<string>, parse: string -> Option<string>)
    ensures FirstFailure(records, LineSplit(parse)) == FirstBlank(records)
  {
    if records != [] {
      assert LineSplit(parse)(records[0]) == SplitLine(records[0], parse);
      if !AllSpace(records[0]) {
        FirstFailureIsFirstBlank(records[1..], parse);
      }
    }
  }

  /** The events `run` publishes for the watch's records: one per record, in
      arrival order, until a record raises. */
  function Published(records: seq<string>, split: string -> Result<LogEvent, LineError>): seq<LogEvent>
  {
    if records == [] then []
    else match split(records[0])
      case Failure(_) => []
      case Success(e) => [e] + Published(records[1..], split)
  }

  /** Exactly one event per record before the first one that raises, each the
      split of its record, in order. */
  lemma {:induction false} PublishedOnePerRecord(records: seq<string>, split: string -> Result<LogEvent, LineError>)
    ensures |Published(records, split)| == FirstFailure(records, split)
    ensures forall i :: 0 <= i < FirstFailure(records, split) ==>
      Published(records, split)[i] == split(records[i]).value
  {
    if records != [] && split(records[0]).Success? {
      PublishedOnePerRecord(records[1..], split);
      var tail := Published(records[1..], split);
      assert Published(records, split) == [split(records[0]).value] + tail;
      forall i | 1 <= i < FirstFailure(records, split)
        ensures Published(records, split)[i] == split(records[i]).value
      {
        assert records[i] == records[1..][i - 1];
      }
    }
  }

  /** The event name `run` publishes under. */
  const ADDED := "ADDED"

  /** What the event source does that is visible outside it. */
  datatype Effect =
    | ValidatePodLogArgs(release: string, pod: string, container: string)
    | GetInstance(release: string)
    | CreateWatch(kwargs: Kwargs)
    | SendEvent(name: string, fields: LogEvent)
    | StopWatch

  /** One `send_event('ADDED', ...)` per event, in order. */
  function Sends(events: seq<LogEvent>): (r: seq<Effect>)
    ensures |r| == |events|
    ensures forall i :: 0 <= i < |r| ==> r[i] == SendEvent(ADDED, events[i])
  {
    if events == [] then [] else [SendEvent(ADDED, events[0])] + Sends(events[1..])
  }

  /** Publishing one more event appends one more `send_event`. */
  lemma SendsSnoc(events: seq<LogEvent>, e: LogEvent)
    ensures Sends(events + [e]) == Sends(events) + [SendEvent(ADDED, e)]
  {
  }

  /** The sends after a run's first effects sit right behind them. */
  lemma SendsAfter(head: seq<Effect>, events: seq<LogEvent>)
    ensures |head + Sends(events)| == |head| + |events|
    ensures forall i :: 0 <= i < |events| ==> (head + Sends(events))[|head| + i] == SendEvent(ADDED, events[i])
  {
  }

  /** How `run` ends. */
  datatype RunOutcome =
    | Completed             // the watch ran out of records
    | ValidationFailed      // `chart.release.validate_pod_log_args` raised
    | LineFailed(index: nat) // the record at `index` raised `IndexError`

  /** What a validated `run` does before it reads the watch: validate, look
      up the release and create the watch. */
  function RunStart(arg: LogArgs, namespace: string): seq<Effect>
  {
    [ValidatePodLogArgs(arg.releaseName, arg.podName, arg.containerName),
     GetInstance(arg.releaseName), CreateWatch(WatchKwargs(arg, namespace))]
  }

  /** What `run` does, given whether validation succeeds, the release's
      namespace, the records the watch delivers and the date parser. */
  function RunEffects(arg: LogArgs, valid: bool, namespace: string, records: seq<string>,
                      parse: string -> Option<string>): seq<Effect>
  {
    if !valid then [ValidatePodLogArgs(arg.releaseName, arg.podName, arg.containerName)]
    else RunStart(arg, namespace) + Sends(Published(records, LineSplit(parse)))
  }

  /** How `run` ends, given whether validation succeeds and the records. */
  function RunOutcomeOf(valid: bool, records: seq<string>): RunOutcome
  {
    if !valid then ValidationFailed
    else if FirstBlank(records) < |records| then LineFailed(FirstBlank(records))
    else Completed
  }

  /** Validation comes first; the watch is created only when it succeeds,
      and no event is ever published without a watch. */
  lemma ValidationBeforeWatch(arg: LogArgs, valid: bool, namespace: string, records: seq<string>,
                              parse: string -> Option<string>)
    ensures RunEffects(arg, valid, namespace, records, parse)[0] ==
            ValidatePodLogArgs(arg.releaseName, arg.podName, arg.containerName)
    ensures !valid ==> |RunEffects(arg, valid, namespace, records, parse)| == 1
    ensures valid ==> RunEffects(arg, valid, namespace, records, parse)[2] == CreateWatch(WatchKwargs(arg, namespace))
    ensures forall j :: 0 <= j < |RunEffects(arg, valid, namespace, records, parse)| ==>
      (RunEffects(arg, valid, namespace, records, parse)[j].CreateWatch? <==> valid && j == 2)
  {
    if valid {
      OnlyThirdCreates(RunStart(arg, namespace), Published(records, LineSplit(parse)));
    }
  }

  /** Behind three first effects of which only the third creates a watch,
      the sends create none. */
  lemma OnlyThirdCreates(start: seq<Effect>, events: seq<LogEvent>)
    requires |start| == 3 && !start[0].CreateWatch? && !start[1].CreateWatch? && start[2].CreateWatch?
    ensures forall j :: 0 <= j < |start + Sends(events)| ==> ((start + Sends(events))[j].CreateWatch? <==> j == 2)
  {
    forall j | 3 <= j < |start + Sends(events)|
      ensures !(start + Sends(events))[j].CreateWatch?
    {
      assert (start + Sends(events))[j] == Sends(events)[j - 3];
    }
  }

  /** A validated run publishes exactly one `ADDED` event per record before
      the first blank record, in arrival order, and nothing else after the
      watch is created; it completes exactly when no record is blank. */
  lemma RunPublishesEachRecord(arg: LogArgs, namespace: string, records: seq<string>,
                               parse: string -> Option<string>)
    ensures |RunEffects(arg, true, namespace, records, parse)| == 3 + FirstBlank(records)
    ensures forall i :: 0 <= i < FirstBlank(records) ==>
      RunEffects(arg, true, namespace, records, parse)[3 + i] == SendEvent(ADDED, SplitLine(records[i], parse).value)
    ensures FirstBlank(records) == |records| <==> RunOutcomeOf(true, records) == Completed
  {
    FirstFailureIsFirstBlank(records, parse);
    RunLength(arg, namespace, records, parse);
    RunSends(arg, namespace, records, parse);
  }

  /** The length half of `RunPublishesEachRecord`. */
  lemma RunLength(arg: LogArgs, namespace: string, records: seq<string>, parse: string -> Option<string>)
    ensures |RunEffects(arg, true, namespace, records, parse)| == 3 + FirstFailure(records, LineSplit(parse))
  {
    PublishedOnePerRecord(records, LineSplit(parse));
    SendsAfter(RunStart(arg, namespace), Published(records, LineSplit(parse)));
  }

  /** The contents half of `RunPublishesEachRecord`. */
  lemma RunSends(arg: LogArgs, namespace: string, records: seq<string>, parse: string -> Option<string>)
    ensures forall i :: 0 <= i < FirstFailure(records, LineSplit(parse)) &&
                        3 + i < |RunEffects(arg, true, namespace, records, parse)| ==>
      RunEffects(arg, true, namespace, records, parse)[3 + i] == SendEvent(ADDED, LineSplit(parse)(records[i]).value)
  {
    PublishedOnePerRecord(records, LineSplit(parse));
    SendsAfter(RunStart(arg, namespace), Published(records, LineSplit(parse)));
  }

  /** One step of the loop over the records: the record at `i` raises exactly
      when it is the first to, and otherwise its split is the next event. */
  lemma PublishedStep(records: seq<string>, split: string -> Result<LogEvent, LineError>, i: nat)
    requires i <= FirstFailure(records, split)
    ensures |Published(records, split)| == FirstFailure(records, split)
    ensures i < |records| ==> (split(records[i]).Failure? <==> FirstFailure(records, split) == i)
    ensures i < FirstFailure(records, split) ==> Published(records, split)[i] == split(records[i]).value
    ensures i == |records| ==> FirstFailure(records, split) == |records|
  {
    PublishedOnePerRecord(records, split);
  }

  /** A prefix one element longer is the prefix and that element. */
  lemma PrefixSnoc<T>(s: seq<T>, i: nat)
    requires i < |s|
    ensures s[..i + 1] == s[..i] + [s[i]]
  {
  }

  /** The prefix as long as the sequence is the sequence. */
  lemma WholePrefix<T>(s: seq<T>, t: seq<T>, i: nat)
    requires i == |s| && t == s[..i]
    ensures t == s
  {
  }

  /** The effects of a finished validated `run`, regrouped. */
  lemma RunRegrouped(before: seq<Effect>, arg: LogArgs, namespace: string, records: seq<string>,
                     parse: string -> Option<string>)
    ensures before + RunStart(arg, namespace) + Sends(Published(records, LineSplit(parse))) ==
            before + RunEffects(arg, true, namespace, records, parse)
  {
  }

  /** The watch handle `Watch(Pod, kwargs, False)`. */
  datatype Watch = Watch(kwargs: Kwargs)

  /** `KubernetesPodLogsFollowTailEventSource`: one subscription's `watch`
      field and the effects it has had. */
  class PodLogsFollowTailEventSource {
    const arg: LogArgs
    var watch: Option<Watch>
    var effects: seq<Effect>

    /** A fresh event source has no watch. */
    constructor (arg: LogArgs)
      ensures this.arg == arg && watch == None && effects == []
    {
      this.arg := arg;
      watch := None;
      effects := [];
    }

    /** `run`: validate, look up the namespace, create the watch and publish
        one event per record until the records end or a blank one raises. */
    method Run(valid: bool, namespace: string, records: seq<string>, parse: string -> Option<string>)
      returns (outcome: RunOutcome)
      modifies this
      ensures effects == old(effects) + RunEffects(arg, valid, namespace, records, parse)
      ensures watch == if valid then Some(Watch(WatchKwargs(arg, namespace))) else old(watch)
      ensures outcome == RunOutcomeOf(valid, records)
    {
      effects := effects + [ValidatePodLogArgs(arg.releaseName, arg.podName, arg.containerName)];
      if !valid {
        return ValidationFailed;
      }
      effects := effects + [GetInstance(arg.releaseName)];
      var kwargs := WatchKwargs(arg, namespace);
      watch := Some(Watch(kwargs));
      effects := effects + [CreateWatch(kwargs)];
      assert effects == old(effects) + RunStart(arg, namespace);
      outcome := Follow(records, LineSplit(parse));
      RunRegrouped(old(effects), arg, namespace, records, parse);
      FirstFailureIsFirstBlank(records, parse);
    }

    /** The `async for` over the watch: publish the split of each record until
        the records end or a split raises. */
    method Follow(records: seq<string>, split: string -> Result<LogEvent, LineError>) returns (outcome: RunOutcome)
      modifies this`effects
      ensures effects == old(effects) + Sends(Published(records, split))
      ensures outcome == if FirstFailure(records, split) < |records|
                         then LineFailed(FirstFailure(records, split)) else Completed
    {
      ghost var sent: seq<LogEvent> := [];
      PublishedStep(records, split, 0);
      var i := 0;
      while i < |records|
        invariant i <= FirstFailure(records, split)
        invariant |Published(records, split)| == FirstFailure(records, split)
        invariant sent == Published(records, split)[..i]
        invariant effects == old(effects) + Sends(sent)
      {
        var r := split(records[i]);
        PublishedStep(records, split, i);
        if r.Failure? {
          WholePrefix(Published(records, split), sent, i);
          return LineFailed(i);
        }
        effects := effects + [SendEvent(ADDED, r.value)];
        SendsSnoc(sent, r.value);
        PrefixSnoc(Published(records, split), i);
        sent := sent + [r.value];
        i := i + 1;
      }
      PublishedStep(records, split, i);
      WholePrefix(Published(records, split), sent, i);
      outcome := Completed;
    }

    /** `cancel`: stop the watch if there is one. The field itself is kept. */
    method Cancel()
      modifies this`effects
      ensures effects == old(effects) + if watch.Some? then [StopWatch] else []
    {
      if watch.Some? {
        effects := effects + [StopWatch];
      }
    }

    /** `on_finish`: drop the watch. */
    method OnFinish()
      modifies this`watch
      ensures watch == None
    {
      watch := None;
    }
  }

  /** A client of the event source: cancelling before `run` or after
      `on_finish` stops nothing; cancelling a running source stops its watch
      each time it is called. */
  method LifecycleScenario(arg: LogArgs, namespace: string, records: seq<string>, parse: string -> Option<string>)
  {
    var source := new PodLogsFollowTailEventSource(arg);
    source.Cancel();
    assert source.effects == [];
    var outcome := source.Run(true, namespace, records, parse);
    assert source.watch == Some(Watch(WatchKwargs(arg, namespace)));
    var ran := source.effects;
    source.Cancel();
    source.Cancel();
    assert source.effects == ran + [StopWatch] + [StopWatch];
    var stopped := source.effects;
    source.OnFinish();
    source.Cancel();
    assert source.watch == None && source.effects == stopped;
  }
}
