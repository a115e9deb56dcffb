/**
 One catalogue session: requests to a directory source, retries, and the calls that drive the
 sink. The source's answers are a queue that others fill with anything; time is a parameter.
 */
module CatalogSession {
  import opened Bytes
  import opened CatalogListing

  datatype SinkCall =
    | BeginCatalog
    | AppendCatalog(entries: seq<Entry>)
    | ReplaceCatalog(entries: seq<Entry>)
    | FinishCatalog
    | AbortCatalog

  datatype ErrorKind =
    NoError | NotFound | PermissionDenied | AuthenticationRequired | NetworkDisconnected | TimedOut | IoError | Cancelled

  datatype Batch = Batch(generation: nat, entries: seq<Entry>, isFinal: bool, truncated: bool,
                         error: ErrorKind, rootFailed: bool)

  datatype Request = Request(generation: nat, path: Bytes, maximumEntries: nat, recursive: bool)

  datatype State =
    | Loading | WaitingRetry | Ready | Disconnected | TimedOutState | NeedsAuthentication | Denied | Unavailable

  datatype Update = Update(state: State, error: ErrorKind, truncated: bool, entriesReceived: nat,
                           modelChanged: bool, retryIn: Option<int>)

  const RETRY_DELAYS: seq<int> := [1_000, 3_000, 10_000]
  const MAXIMUM_RECURSIVE_ENTRIES: nat := 50_000

  // ---------------------------------------------------------------- the sink's side

  /** None: broken protocol; otherwise whether a catalogue is open. */
  function Step(open: Option<bool>, call: SinkCall): Option<bool> {
    match call
    case BeginCatalog => if open == Some(false) then Some(true) else None
    case AppendCatalog(es) => if open == Some(true) && es != [] then Some(true) else None
    case ReplaceCatalog(_) => if open == Some(false) then Some(false) else None
    case FinishCatalog => if open == Some(true) then Some(false) else None
    case AbortCatalog => if open == Some(true) then Some(false) else None
  }

  function Follow(open: Option<bool>, calls: seq<SinkCall>): Option<bool>
    decreases |calls|
  {
    if calls == [] then open else Follow(Step(open, calls[0]), calls[1..])
  }

  lemma {:induction false} FollowOneMore(open: Option<bool>, calls: seq<SinkCall>, call: SinkCall)
    ensures Follow(open, calls + [call]) == Step(Follow(open, calls), call)
    decreases |calls|
  {
    if calls == [] {
      assert [call][1..] == [] && calls + [call] == [call];
    } else {
      assert (calls + [call])[1..] == calls[1..] + [call];
      FollowOneMore(Step(open, calls[0]), calls[1..], call);
    }
  }

  /** (begin append* (finish or abort), or replace)*. */
  predicate Sessions(calls: seq<SinkCall>)
    decreases |calls|
  {
    || calls == []
    || (calls[0].ReplaceCatalog? && Sessions(calls[1..]))
    || (calls[0] == BeginCatalog && exists k | 0 < k < |calls| :: EndsAt(calls, k) && Sessions(calls[k + 1..]))
  }

  predicate EndsAt(calls: seq<SinkCall>, k: nat)
    requires 0 < k < |calls|
  {
    && (calls[k] == FinishCatalog || calls[k] == AbortCatalog)
    && forall i | 0 < i < k :: calls[i].AppendCatalog? && calls[i].entries != []
  }

  lemma {:induction false} BrokenStaysBroken(calls: seq<SinkCall>)
    ensures Follow(None, calls) == None
  {
    if calls != [] {
      BrokenStaysBroken(calls[1..]);
    }
  }

  /** Calls that never break the protocol and leave the sink closed are whole sessions. */
  lemma {:induction false} ClosedIsSessions(calls: seq<SinkCall>)
    requires Follow(Some(false), calls) == Some(false)
    ensures Sessions(calls)
    decreases |calls|
  {
    if calls != [] {
      BrokenStaysBroken(calls[1..]);
      if calls[0].ReplaceCatalog? {
        ClosedIsSessions(calls[1..]);
      } else {
        var k := FirstEnd(calls[1..]);
        assert calls[1..][k + 1..] == calls[k + 2..];
        assert forall i | 0 < i < k + 1 :: calls[i] == calls[1..][i - 1];
        assert EndsAt(calls, k + 1);
        ClosedIsSessions(calls[k + 2..]);
      }
    }
  }

  lemma {:induction false} FirstEnd(calls: seq<SinkCall>) returns (k: nat)
    requires Follow(Some(true), calls) == Some(false)
    ensures k < |calls| && (calls[k] == FinishCatalog || calls[k] == AbortCatalog)
    ensures forall i | 0 <= i < k :: calls[i].AppendCatalog? && calls[i].entries != []
    ensures Follow(Some(false), calls[k + 1..]) == Some(false)
    decreases |calls|
  {
    BrokenStaysBroken(calls[1..]);
    if calls[0].AppendCatalog? {
      var j := FirstEnd(calls[1..]);
      assert calls[1..][j + 1..] == calls[j + 2..];
      assert forall i | 0 < i < j + 1 :: calls[i] == calls[1..][i - 1];
      k := j + 1;
    } else {
      k := 0;
    }
  }

  /** The entries a viewer sees after these calls. */
  function Shown(calls: seq<SinkCall>): seq<Entry> {
    if calls == [] then [] else ShownNext(Shown(calls[..|calls| - 1]), calls[|calls| - 1])
  }

  function ShownNext(before: seq<Entry>, call: SinkCall): seq<Entry> {
    match call
    case BeginCatalog => []
    case AppendCatalog(es) => before + es
    case ReplaceCatalog(es) => es
    case FinishCatalog => before
    case AbortCatalog => before
  }

  // ---------------------------------------------------------------- the source's side

  /** Where the first answer to the request waits; behind the end if there is none. */
  function FirstOf(queue: seq<Batch>, generation: nat): (i: nat)
    ensures i <= |queue| && (i < |queue| ==> queue[i].generation == generation)
    ensures forall j | 0 <= j < i :: queue[j].generation != generation
  {
    if queue == [] || queue[0].generation == generation then 0 else 1 + FirstOf(queue[1..], generation)
  }

  predicate Succeeds(b: Batch, recursive: bool) {
    b.error == NoError || (recursive && !b.rootFailed)
  }

  predicate Retryable(e: ErrorKind, recursive: bool) {
    !recursive && (e == NetworkDisconnected || e == TimedOut || e == IoError)
  }

  function FailureState(e: ErrorKind): (state: State)
    ensures state == Disconnected <==> e == NetworkDisconnected
    ensures state == TimedOutState <==> e == TimedOut
    ensures state == NeedsAuthentication <==> e == AuthenticationRequired
    ensures state == Denied <==> e == PermissionDenied
    ensures state in {Disconnected, TimedOutState, NeedsAuthentication, Denied, Unavailable}
  {
    match e
    case NetworkDisconnected => Disconnected
    case TimedOut => TimedOutState
    case AuthenticationRequired => NeedsAuthentication
    case PermissionDenied => Denied
    case _ => Unavailable
  }

  function Last(submitted: seq<Request>): Request
    requires submitted != []
  {
    submitted[|submitted| - 1]
  }

  /** How many entries a request asks for; a recursive one is always limited. */
  function EntryLimit(maximum: nat, recursive: bool): (limit: nat)
    ensures recursive ==> 0 < limit <= MAXIMUM_RECURSIVE_ENTRIES && (0 < maximum ==> limit <= maximum)
    ensures !recursive || 0 < maximum <= MAXIMUM_RECURSIVE_ENTRIES ==> limit == maximum
  {
    if recursive && (maximum == 0 || maximum > MAXIMUM_RECURSIVE_ENTRIES) then MAXIMUM_RECURSIVE_ENTRIES else maximum
  }

  // ---------------------------------------------------------------- what an answer does to the sink

  /** The session when an answer comes: whether the load waits for its success, and what it has so far. */
  datatype Situation = Situation(sink: seq<SinkCall>, received: seq<Entry>, staging: bool, truncated: bool, retries: nat)

  /** The load goes on waiting; only a recursive one shows its first entries at once. */
  predicate Waits(b: Batch, s: Situation, recursive: bool) {
    s.staging && !(recursive && b.entries != [])
  }

  predicate Incomplete(b: Batch, s: Situation, recursive: bool) {
    s.truncated || b.truncated || (recursive && b.error != NoError)
  }

  /** A load that is shown is appended to and then finished or aborted; one that waits replaces all at once. */
  function CallsFor(b: Batch, s: Situation, recursive: bool): seq<SinkCall> {
    if Waits(b, s, recursive) then
      if b.isFinal && Succeeds(b, recursive) && !(recursive && Incomplete(b, s, recursive))
      then [ReplaceCatalog(s.received + b.entries)] else []
    else Adding(b, s) + if b.isFinal then [Ending(b, recursive)] else []
  }

  function Adding(b: Batch, s: Situation): seq<SinkCall> {
    (if s.staging then [BeginCatalog] else []) + if b.entries == [] then [] else [AppendCatalog(b.entries)]
  }

  function Ending(b: Batch, recursive: bool): SinkCall {
    if Succeeds(b, recursive) then FinishCatalog else AbortCatalog
  }

  /** Every request has its own number. */
  predicate Numbered(submitted: seq<Request>, last: nat) {
    last == |submitted| && forall i | 0 <= i < |submitted| :: submitted[i].generation == i + 1
  }

  class CatalogSession {
    // the two neighbours
    var queue: seq<Batch>
    var submitted: seq<Request>
    var cancelled: seq<nat>
    var sink: seq<SinkCall>

    var path: Bytes
    var maximumEntries: nat
    var recursive: bool
    var nextGeneration: nat
    var activeGeneration: nat
    var state: State
    var lastError: ErrorKind
    var retryIndex: nat
    var retryAt: int
    var stageUntilSuccess: bool
    var staged: seq<Entry>
    var sinkOpen: bool
    var truncated: bool

    /** The entries of the current request's answers so far. */
    ghost var received: seq<Entry>
    /** The sink's calls when the current request was made, and when the open or refresh was. */
    ghost var requestLog: seq<SinkCall>
    ghost var base: seq<SinkCall>
    /** The open or refresh keeps the visible entries until it succeeds. */
    ghost var quiet: bool
    /** Requests made since the last open or refresh, and those made before it. */
    ghost var requests: nat
    ghost var origin: nat

    ghost predicate Valid()
      reads this
    {
      ValidSink() && ValidRequests() && ValidLoad() && Numbered(submitted, nextGeneration)
    }

    ghost predicate ValidSink()
      reads `sink, `sinkOpen, `state, `stageUntilSuccess
    {
      && Follow(Some(false), sink) == Some(sinkOpen)
      && sinkOpen == (state == Loading && !stageUntilSuccess)
    }

    ghost predicate ValidRequests()
      reads `retryIndex, `requests, `origin, `submitted, `state, `activeGeneration, `nextGeneration, `path
    {
      && retryIndex <= |RETRY_DELAYS| && requests <= 1 + |RETRY_DELAYS| && |submitted| == origin + requests
      && (state == Loading ==> requests == retryIndex + 1)
      && (state == WaitingRetry ==> requests == retryIndex)
      && (state == Loading ==> activeGeneration == nextGeneration > 0)
      && (state == Loading || state == WaitingRetry ==> path != [])
    }

    ghost predicate ValidLoad()
      reads `state, `stageUntilSuccess, `staged, `received, `sink, `requestLog, `recursive, `truncated, `quiet, `base
    {
      && (state == Loading && stageUntilSuccess ==>
            staged == received && sink == requestLog && (recursive ==> received == []))
      && (state == Loading && !stageUntilSuccess ==> Shown(sink) == received)
      && (state == Ready ==>
            Shown(sink) == received || (recursive && truncated && received == [] && sink == requestLog))
      && (quiet && !recursive ==> sink == if state == Ready then base + [ReplaceCatalog(received)] else base)
      && (quiet && !recursive && state == Loading ==> stageUntilSuccess)
    }

    constructor ()
      ensures Valid() && state == Unavailable && sink == [] && submitted == []
    {
      queue, submitted, cancelled, sink := [], [], [], [];
      path, maximumEntries, recursive := [], 100_000, false;
      nextGeneration, activeGeneration, state, lastError := 0, 0, Unavailable, NoError;
      retryIndex, retryAt, stageUntilSuccess, staged := 0, 0, false, [];
      sinkOpen, truncated := false, false;
      received, requestLog, base, quiet, requests, origin := [], [], [], false, 0, 0;
    }

    /** What ends a listing that is being shown when another load begins. */
    function Closing(): seq<SinkCall>
      reads `sinkOpen
    {
      if sinkOpen then [FinishCatalog] else []
    }

    function Outstanding(): seq<nat>
      reads `activeGeneration
    {
      if activeGeneration != 0 then [activeGeneration] else []
    }

    ghost function Now(): Situation
      reads `sink, `received, `stageUntilSuccess, `truncated, `retryIndex
    {
      Situation(sink, received, stageUntilSuccess, truncated, retryIndex)
    }

    /** False for an empty path, which the program refuses with an exception. */
    method Open(newPath: Bytes, maximum: nat, recurse: bool, preserveVisibleEntries: bool) returns (accepted: bool)
      requires Valid()
      modifies this
      ensures Valid() && accepted == (newPath != []) && old(sink) <= sink
      ensures !accepted ==> sink == old(sink) && submitted == old(submitted) && state == old(state)
      ensures accepted ==> state == Loading && requests == 1 && received == [] && quiet == preserveVisibleEntries
      ensures accepted ==>
                && path == newPath && recursive == recurse && stageUntilSuccess == preserveVisibleEntries
                && activeGeneration == nextGeneration == old(nextGeneration) + 1
      ensures accepted && preserveVisibleEntries ==> base == sink
      ensures accepted ==> |submitted| == |old(submitted)| + 1 && origin == |old(submitted)|
      ensures !accepted ==> origin == old(origin)
      ensures accepted ==> Last(submitted) == Request(nextGeneration, newPath, EntryLimit(maximum, recurse), recurse)
      ensures accepted ==> sink == old(sink) + old(Closing()) + if preserveVisibleEntries then [] else [BeginCatalog]
      ensures accepted ==> cancelled == old(cancelled) + old(Outstanding()) && !truncated && retryIndex == 0
    {
      hide Follow, Shown, Numbered, Valid, Last, Step, EntryLimit;
      ValidMeans();
      if newPath == [] {
        return false;
      }
      EndPrevious();
      path, maximumEntries, recursive, state := newPath, maximum, recurse, Unavailable;
      BeginLoad(preserveVisibleEntries);
      accepted := true;
    }

    lemma ValidMeans()
      requires Valid()
      ensures Follow(Some(false), sink) == Some(sinkOpen) && Numbered(submitted, nextGeneration)
    {
      hide Follow, Shown, Numbered;
    }

    /** Begins to show a new listing, unless the old one is to stay, and makes the first request. */
    method BeginLoad(preserveVisibleEntries: bool)
      requires path != [] && !sinkOpen && Follow(Some(false), sink) == Some(false) && retryIndex == 0
      requires Numbered(submitted, nextGeneration)
      modifies `sink, `sinkOpen, `nextGeneration, `activeGeneration, `stageUntilSuccess, `staged, `state, `submitted,
               `received, `requestLog, `requests, `base, `quiet, `origin
      ensures Valid() && old(sink) <= sink && state == Loading && requests == 1 && received == []
      ensures quiet == stageUntilSuccess == preserveVisibleEntries && (quiet ==> base == sink)
      ensures activeGeneration == nextGeneration == old(nextGeneration) + 1
      ensures |submitted| == |old(submitted)| + 1 && origin == |old(submitted)|
      ensures Last(submitted) == Request(nextGeneration, path, EntryLimit(maximumEntries, recursive), recursive)
      ensures sink == old(sink) + if preserveVisibleEntries then [] else [BeginCatalog]
    {
      hide Follow, Shown, Numbered, Valid, Last, Step;
      Rebase(preserveVisibleEntries);
      if !preserveVisibleEntries {
        OpenSink();
      }
      BeginRequest(preserveVisibleEntries);
    }

    method Refresh()
      requires Valid()
      modifies this
      ensures Valid() && old(sink) <= sink
      ensures path == [] ==> sink == old(sink) && submitted == old(submitted)
      ensures path != [] ==> state == Loading && requests == 1 && received == [] && quiet && base == sink
      ensures path == old(path) && recursive == old(recursive)
      ensures if path == [] then origin == old(origin)
              else |submitted| == |old(submitted)| + 1 && origin == |old(submitted)|
      ensures path != [] ==>
                && Last(submitted) == Request(nextGeneration, path, EntryLimit(maximumEntries, recursive), recursive)
                && sink == old(sink) + old(Closing()) && cancelled == old(cancelled) + old(Outstanding())
                && !truncated && retryIndex == 0
      ensures maximumEntries == old(maximumEntries)
    {
      hide Follow, Shown, Numbered, Valid, EntryLimit, Last;
      ValidMeans();
      if path == [] {
        return;
      }
      EndPrevious();
      state := Unavailable;
      BeginLoad(true);
    }

    method Suspend()
      requires Valid()
      modifies this
      ensures Valid() && state == Unavailable && !sinkOpen && old(sink) <= sink
      ensures submitted == old(submitted)
      ensures old(sinkOpen) ==> sink == old(sink) + [AbortCatalog]
      ensures !old(sinkOpen) ==> sink == old(sink)
      ensures cancelled == old(cancelled) + old(Outstanding())
    {
      hide Follow, Shown, Numbered;
      CancelActive();
      AbortSinkIfOpen();
      ForgetFailures();
      Rebase(false);
      Rest();
    }

    method Rest()
      requires !sinkOpen && Follow(Some(false), sink) == Some(false) && Numbered(submitted, nextGeneration)
      requires !quiet && requests == retryIndex == 0 && |submitted| == origin
      modifies `activeGeneration, `staged, `stageUntilSuccess, `state
      ensures Valid() && state == Unavailable
    {
      hide Follow, Shown, Numbered;
      activeGeneration, staged, stageUntilSuccess, state := 0, [], false, Unavailable;
    }

    /** What open and refresh do to the load before them. */
    method EndPrevious()
      requires Follow(Some(false), sink) == Some(sinkOpen)
      modifies `cancelled, `sink, `sinkOpen, `retryIndex, `retryAt, `lastError, `truncated
      ensures !sinkOpen && Follow(Some(false), sink) == Some(false) && sink == old(sink) + old(Closing())
      ensures cancelled == old(cancelled) + Outstanding()
      ensures retryIndex == 0 && lastError == NoError && !truncated
    {
      CancelActive();
      FinishSinkIfOpen();
      ForgetFailures();
    }

    ghost method Rebase(keepsVisibleEntries: bool)
      modifies `base, `quiet, `requests, `origin
      ensures base == sink && quiet == keepsVisibleEntries && requests == 0 && origin == |submitted|
    {
      base, quiet, requests, origin := sink, keepsVisibleEntries, 0, |submitted|;
    }

    ghost method CountRequest()
      modifies `received, `requestLog, `requests
      ensures received == [] && requestLog == sink && requests == old(requests) + 1
    {
      received, requestLog, requests := [], sink, requests + 1;
    }

    method CancelActive()
      modifies `cancelled
      ensures cancelled == old(cancelled) + Outstanding()
    {
      if activeGeneration != 0 {
        cancelled := cancelled + [activeGeneration];
      }
    }

    method ForgetFailures()
      modifies `retryIndex, `retryAt, `lastError, `truncated
      ensures retryIndex == 0 && lastError == NoError && !truncated
    {
      retryIndex, retryAt, lastError, truncated := 0, 0, NoError, false;
    }

    method BeginRequest(preserveVisibleEntries: bool)
      requires path != [] && Follow(Some(false), sink) == Some(sinkOpen) && sinkOpen == !preserveVisibleEntries
      requires sinkOpen ==> Shown(sink) == []
      requires retryIndex <= |RETRY_DELAYS| && requests == retryIndex && |submitted| == origin + requests
      requires Numbered(submitted, nextGeneration)
      requires quiet && !recursive ==> preserveVisibleEntries && sink == base
      modifies `nextGeneration, `activeGeneration, `stageUntilSuccess, `staged, `state, `submitted,
               `received, `requestLog, `requests
      ensures Valid() && state == Loading && received == [] && requests == old(requests) + 1
      ensures activeGeneration == nextGeneration == old(nextGeneration) + 1 && stageUntilSuccess == preserveVisibleEntries
      ensures |submitted| == |old(submitted)| + 1 && submitted[..|old(submitted)|] == old(submitted)
      ensures Last(submitted) == Request(nextGeneration, path, EntryLimit(maximumEntries, recursive), recursive)
    {
      hide Follow, Shown, Numbered;
      stageUntilSuccess := preserveVisibleEntries;
      staged := [];
      state := Loading;
      Submit();
      CountRequest();
    }

    method Submit()
      requires Numbered(submitted, nextGeneration)
      modifies `nextGeneration, `activeGeneration, `submitted
      ensures Numbered(submitted, nextGeneration) && activeGeneration == nextGeneration == old(nextGeneration) + 1
      ensures |submitted| == |old(submitted)| + 1 && submitted[..|old(submitted)|] == old(submitted)
      ensures Last(submitted) == Request(nextGeneration, path, EntryLimit(maximumEntries, recursive), recursive)
    {
      nextGeneration := nextGeneration + 1;
      activeGeneration := nextGeneration;
      var limit := EntryLimit(maximumEntries, recursive);
      submitted := submitted + [Request(activeGeneration, path, limit, recursive)];
    }

    /** One call of the sink. */
    method Tell(call: SinkCall)
      modifies `sink
      ensures sink == old(sink) + [call]
      ensures Follow(Some(false), sink) == Step(old(Follow(Some(false), sink)), call)
      ensures Shown(sink) == ShownNext(old(Shown(sink)), call)
    {
      FollowOneMore(Some(false), sink, call);
      assert (sink + [call])[..|sink|] == sink;
      sink := sink + [call];
    }

    method OpenSink()
      requires Follow(Some(false), sink) == Some(sinkOpen) && !sinkOpen
      modifies `sink, `sinkOpen
      ensures sinkOpen && Follow(Some(false), sink) == Some(true) && Shown(sink) == []
      ensures sink == old(sink) + [BeginCatalog]
    {
      hide Follow, Shown;
      Tell(BeginCatalog);
      sinkOpen := true;
    }

    method FinishSinkIfOpen()
      requires Follow(Some(false), sink) == Some(sinkOpen)
      modifies `sink, `sinkOpen
      ensures !sinkOpen && Follow(Some(false), sink) == Some(false) && Shown(sink) == old(Shown(sink))
      ensures sink == if old(sinkOpen) then old(sink) + [FinishCatalog] else old(sink)
    {
      hide Follow, Shown, Numbered;
      if sinkOpen {
        Tell(FinishCatalog);
        sinkOpen := false;
      }
    }

    method AbortSinkIfOpen()
      requires Follow(Some(false), sink) == Some(sinkOpen)
      modifies `sink, `sinkOpen
      ensures !sinkOpen && Follow(Some(false), sink) == Some(false) && Shown(sink) == old(Shown(sink))
      ensures sink == if old(sinkOpen) then old(sink) + [AbortCatalog] else old(sink)
    {
      hide Follow, Shown, Numbered;
      if sinkOpen {
        Tell(AbortCatalog);
        sinkOpen := false;
      }
    }

    function MakeUpdate(): Update
      reads this
    {
      Update(state, lastError, truncated, 0, false, None)
    }

    /** Drops answers to earlier requests until one to the current request comes. */
    method TakeCurrent() returns (batch: Option<Batch>)
      modifies `queue
      ensures var i := FirstOf(old(queue), activeGeneration);
        if i < |old(queue)| then batch == Some(old(queue)[i]) && queue == old(queue)[i + 1..]
        else batch == None && queue == []
    {
      ghost var all := queue;
      ghost var skipped: nat := 0;
      while queue != []
        invariant skipped <= |all| && queue == all[skipped..]
        invariant FirstOf(all, activeGeneration) == skipped + FirstOf(queue, activeGeneration)
        decreases |queue|
      {
        var candidate := queue[0];
        queue := queue[1..];
        if candidate.generation == activeGeneration {
          return Some(candidate);
        }
        skipped := skipped + 1;
      }
      batch := None;
    }

    method Poll(now: int) returns (update: Update)
      requires Valid()
      modifies this
      ensures Valid() && old(sink) <= sink
      ensures update.modelChanged <==> sink != old(sink)
      ensures update.state == state && update.error == lastError
      ensures |submitted| <= |old(submitted)| + 1 && path == old(path) && recursive == old(recursive)
      ensures origin == old(origin) && |submitted| <= origin + 1 + |RETRY_DELAYS|
      ensures base == old(base) && quiet == old(quiet)
      ensures update.truncated == truncated && cancelled == old(cancelled)
      ensures old(state) == Loading ==>
                && Answered(old(queue), old(Now()), now, update) && submitted == old(submitted)
                && activeGeneration == old(activeGeneration) && nextGeneration == old(nextGeneration)
      ensures old(state) != Loading && old(state) != WaitingRetry ==>
                state == old(state) && sink == old(sink) && submitted == old(submitted)
      ensures old(state) == WaitingRetry && now < old(retryAt) ==>
                && state == WaitingRetry && update == MakeUpdate().(retryIn := Some(old(retryAt) - now))
                && submitted == old(submitted) && retryAt == old(retryAt) && Now() == old(Now())
                && activeGeneration == old(activeGeneration) && nextGeneration == old(nextGeneration)
      ensures old(state) == WaitingRetry && now >= old(retryAt) ==>
                && |submitted| == |old(submitted)| + 1 && activeGeneration == nextGeneration == old(nextGeneration) + 1
                && Last(submitted) == Request(nextGeneration, path, EntryLimit(maximumEntries, recursive), recursive)
                && Answered(old(queue), old(Now()).(received := [], staging := true), now, update)
    {
      hide Follow, Shown, Numbered, Valid, ValidRequests, ValidLoad, ValidSink, Outcome, Answered, Last, EntryLimit;
      var wait := RetryIfDue(now);
      update := MakeUpdate().(retryIn := wait);
      if state == Loading {
        update := Answer(now, update);
      }
      FewRequests();
    }

    lemma FewRequests()
      requires Valid()
      ensures |submitted| <= origin + 1 + |RETRY_DELAYS|
    {
      hide Follow, Shown, Numbered;
    }

    /** Takes in the first answer to the current request, if there is one. */
    method Answer(now: int, idle: Update) returns (update: Update)
      requires Valid() && state == Loading && idle == MakeUpdate()
      modifies `queue, `sink, `sinkOpen, `stageUntilSuccess, `staged, `truncated, `lastError, `state, `received,
               `retryIndex, `retryAt
      ensures Valid() && old(sink) <= sink && (update.modelChanged <==> sink != old(sink))
      ensures update.state == state && update.error == lastError
      ensures update.truncated == truncated && Answered(old(queue), old(Now()), now, update)
    {
      hide Follow, Shown, Numbered, ValidLoad, ValidSink, ValidRequests, Outcome;
      update := idle;
      var batch := TakeCurrent();
      if batch.Some? {
        update := Consume(batch.value, now);
      }
    }

    /** Makes the pending request again when its time has come. */
    method RetryIfDue(now: int) returns (wait: Option<int>)
      requires Valid()
      modifies `nextGeneration, `activeGeneration, `stageUntilSuccess, `staged, `state, `submitted,
               `received, `requestLog, `requests
      ensures Valid()
      ensures wait == if old(state) == WaitingRetry && now < retryAt then Some(retryAt - now) else None
      ensures old(state) == WaitingRetry && now >= retryAt ==>
                && state == Loading && |submitted| == |old(submitted)| + 1 && activeGeneration == nextGeneration == old(nextGeneration) + 1
                && Last(submitted) == Request(nextGeneration, path, EntryLimit(maximumEntries, recursive), recursive)
                && Now() == old(Now()).(received := [], staging := true)
      ensures !(old(state) == WaitingRetry && now >= retryAt) ==>
                && state == old(state) && submitted == old(submitted) && received == old(received)
                && activeGeneration == old(activeGeneration) && nextGeneration == old(nextGeneration)
                && Now() == old(Now())
    {
      hide Follow, Shown, Numbered, Last;
      wait := None;
      if state == WaitingRetry {
        if now < retryAt {
          return Some(retryAt - now);
        }
        BeginRequest(true);
      }
    }

    /** What one answer did: a ghost summary of a poll while loading. */
    ghost predicate Answered(waiting: seq<Batch>, before: Situation, now: int, update: Update)
      reads this
    {
      var i := FirstOf(waiting, activeGeneration);
      if i == |waiting| then
        state == Loading && Now() == before && queue == [] && update == MakeUpdate()
      else Outcome(waiting[i], before, now, update) && queue == waiting[i + 1..]
    }

    ghost predicate Outcome(b: Batch, before: Situation, now: int, update: Update)
      reads this
    {
      && received == before.received + b.entries && sink == before.sink + CallsFor(b, before, recursive)
      && truncated == Incomplete(b, before, recursive)
      && update.entriesReceived == |b.entries|
      && update.retryIn == (if state == WaitingRetry then Some(retryAt - now) else None)
      && (!b.isFinal ==> state == Loading)
      && (b.isFinal && Succeeds(b, recursive) ==> state == Ready && lastError == NoError)
      && (b.isFinal && !Succeeds(b, recursive) ==> lastError == b.error)
      && (b.isFinal && !Succeeds(b, recursive) && Retryable(b.error, recursive) && before.retries < |RETRY_DELAYS| ==>
            && state == WaitingRetry && retryAt == now + RETRY_DELAYS[before.retries]
            && retryIndex == before.retries + 1)
      && (b.isFinal && !Succeeds(b, recursive) && !(Retryable(b.error, recursive) && before.retries < |RETRY_DELAYS|) ==>
            state == FailureState(b.error))
    }

    method Consume(b: Batch, now: int) returns (update: Update)
      requires Valid() && state == Loading
      modifies `sink, `sinkOpen, `stageUntilSuccess, `staged, `truncated, `lastError, `state, `received,
               `retryIndex, `retryAt
      ensures Valid() && old(sink) <= sink && (update.modelChanged <==> sink != old(sink))
      ensures update.state == state && update.error == lastError
      ensures update.truncated == truncated && Outcome(b, old(Now()), now, update)
    {
      hide Follow, Shown, Numbered, Valid, Succeeds, Retryable, FailureState, Incomplete, Adding;
      update := MakeUpdate().(entriesReceived := |b.entries|);
      var changed := Receive(b);
      update := update.(modelChanged := changed, truncated := truncated);
      if !b.isFinal {
        return;
      }
      if Succeeds(b, recursive) {
        changed := Complete();
        update := update.(modelChanged := update.modelChanged || changed, state := state, error := NoError);
        return;
      }
      changed := Fail(b.error, now);
      update := update.(modelChanged := update.modelChanged || changed, error := lastError, state := state);
      if state == WaitingRetry {
        update := update.(retryIn := Some(retryAt - now));
      }
    }

    /** The entries of an answer go to the sink, or wait until the load has succeeded. */
    method Receive(b: Batch) returns (changed: bool)
      requires Valid() && state == Loading
      modifies `sink, `sinkOpen, `stageUntilSuccess, `staged, `truncated, `received
      ensures Valid() && old(sink) <= sink && (changed <==> sink != old(sink))
      ensures received == old(received) + b.entries
      ensures truncated == Incomplete(b, old(Now()), recursive)
      ensures stageUntilSuccess == Waits(b, old(Now()), recursive)
      ensures sink == old(sink) + if stageUntilSuccess then [] else Adding(b, old(Now()))
    {
      hide Follow, Shown, Numbered, Succeeds, ValidRequests;
      changed := false;
      ShowFirst(b);
      if stageUntilSuccess {
        staged := staged + b.entries;
      } else if b.entries != [] {
        Tell(AppendCatalog(b.entries));
        changed := true;
      }
      received := received + b.entries;
      truncated := truncated || b.truncated || (recursive && b.error != NoError);
    }

    /** A recursive load that waits is shown from its first entries on. */
    method ShowFirst(b: Batch)
      requires Valid() && state == Loading
      modifies `sink, `sinkOpen, `stageUntilSuccess
      ensures Valid() && stageUntilSuccess == Waits(b, old(Now()), recursive)
      ensures sink == old(sink) + if old(stageUntilSuccess) && !stageUntilSuccess then [BeginCatalog] else []
    {
      hide Follow, Shown, Numbered, ValidRequests;
      if recursive && stageUntilSuccess && b.entries != [] {
        OpenSink();
        stageUntilSuccess := false;
      }
    }

    method Complete() returns (changed: bool)
      requires Valid() && state == Loading
      modifies `sink, `sinkOpen, `stageUntilSuccess, `lastError, `state
      ensures Valid() && state == Ready && lastError == NoError
      ensures old(sink) <= sink && (changed <==> sink != old(sink))
      ensures sink == old(sink) + if !old(stageUntilSuccess) then [FinishCatalog]
                                  else if recursive && truncated then [] else [ReplaceCatalog(received)]
    {
      hide Follow, Shown, Numbered;
      changed := false;
      if stageUntilSuccess {
        if !recursive || !truncated {
          Tell(ReplaceCatalog(staged));
          changed := true;
        }
        stageUntilSuccess := false;
      } else {
        FinishSinkIfOpen();
        changed := true;
      }
      lastError, state := NoError, Ready;
    }

    method Fail(error: ErrorKind, now: int) returns (changed: bool)
      requires Valid() && state == Loading
      modifies `sink, `sinkOpen, `staged, `lastError, `state, `retryIndex, `retryAt
      ensures Valid() && state != Loading && state != Ready && lastError == error
      ensures old(sink) <= sink && (changed <==> sink != old(sink))
      ensures sink == old(sink) + if stageUntilSuccess then [] else [AbortCatalog]
      ensures state == WaitingRetry ==> retryIndex == old(retryIndex) + 1
      ensures Retryable(error, recursive) && old(retryIndex) < |RETRY_DELAYS| ==>
                state == WaitingRetry && retryAt == now + RETRY_DELAYS[old(retryIndex)]
      ensures !(Retryable(error, recursive) && old(retryIndex) < |RETRY_DELAYS|) ==> state == FailureState(error)
    {
      hide Follow, Shown, Numbered;
      if stageUntilSuccess {
        staged, changed := [], false;
      } else {
        AbortSinkIfOpen();
        changed := true;
      }
      lastError := error;
      var again := Retryable(error, recursive) && retryIndex < |RETRY_DELAYS|;
      Pause(if again then WaitingRetry else FailureState(error), now);
    }

    /** After a load: the state, and when the next try is due. */
    method Pause(next: State, now: int)
      requires !sinkOpen && Follow(Some(false), sink) == Some(false) && Numbered(submitted, nextGeneration)
      requires next != Loading && next != Ready && (next == WaitingRetry ==> retryIndex < |RETRY_DELAYS|)
      requires ValidRequests() && state == Loading && (quiet && !recursive ==> sink == base)
      modifies `state, `retryIndex, `retryAt
      ensures Valid() && state == next
      ensures next == WaitingRetry ==>
                retryAt == now + RETRY_DELAYS[old(retryIndex)] && retryIndex == old(retryIndex) + 1
    {
      hide Follow, Shown, Numbered;
      if next == WaitingRetry {
        retryAt := now + RETRY_DELAYS[retryIndex];
        retryIndex := retryIndex + 1;
      }
      state := next;
    }
  }

  // ---------------------------------------------------------------- whole runs

  /** The source answers the coming request with this failure. */
  function FailureOf(generation: nat, error: ErrorKind, rootFailed: bool): Batch {
    Batch(generation, [], true, false, error, rootFailed)
  }

  /** A load that fails for a passing reason is tried again after 1, 3 and 10 seconds, then given up. */
  method GivesUp(session: CatalogSession, path: Bytes, error: ErrorKind, now: int)
    requires session.Valid() && path != [] && error in {NetworkDisconnected, TimedOut, IoError}
    modifies session
    ensures session.Valid() && |session.submitted| == |old(session.submitted)| + 4
    ensures session.state == if error == NetworkDisconnected then Disconnected
                             else if error == TimedOut then TimedOutState else Unavailable
    ensures session.sink == old(session.sink) + old(session.Closing())
  {
    hide session.ValidSink, session.ValidRequests, session.ValidLoad, Follow, Shown, Numbered, Last;
    var _ := session.Open(path, 0, false, true);
    session.queue := [FailureOf(session.activeGeneration, error, true)];
    var update := session.Poll(now);
    assert session.retryAt == now + 1_000;
    TriesAgain(session, error, now + 1_000, 3_000);
    TriesAgain(session, error, now + 4_000, 10_000);
    session.queue := [FailureOf(session.nextGeneration + 1, error, true)];
    update := session.Poll(now + 14_000);
  }

  /** Not before its time, and then with the next delay. */
  method TriesAgain(session: CatalogSession, error: ErrorKind, due: int, delay: int)
    requires session.Valid() && session.state == WaitingRetry && session.retryAt == due && !session.recursive
    requires error in {NetworkDisconnected, TimedOut, IoError} && session.path != []
    requires (session.retryIndex == 1 && delay == 3_000) || (session.retryIndex == 2 && delay == 10_000)
    modifies session
    ensures session.Valid() && session.state == WaitingRetry && session.retryAt == due + delay
    ensures session.retryIndex == old(session.retryIndex) + 1 && !session.recursive && session.path == old(session.path)
    ensures |session.submitted| == |old(session.submitted)| + 1 && session.sink == old(session.sink)
  {
    hide session.ValidSink, session.ValidRequests, session.ValidLoad, Follow, Shown, Numbered, Last;
    var update := session.Poll(due - 1);
    assert update.retryIn == Some(1) && session.submitted == old(session.submitted);
    session.queue := [FailureOf(session.nextGeneration + 1, error, true)];
    update := session.Poll(due);
  }

  /** A recursive load is not tried again, and an error below its root does not fail it. */
  method GoesDown(session: CatalogSession, path: Bytes, error: ErrorKind, rootFailed: bool, now: int)
    requires session.Valid() && path != [] && error in {NetworkDisconnected, TimedOut, IoError}
    modifies session
    ensures session.Valid() && |session.submitted| == |old(session.submitted)| + 1
    ensures rootFailed <==> session.state in {Disconnected, TimedOutState, Unavailable}
    ensures !rootFailed <==> session.state == Ready && session.truncated
  {
    hide session.ValidSink, session.ValidRequests, session.ValidLoad, Follow, Shown, Numbered, Last;
    var _ := session.Open(path, 0, true, true);
    session.queue := [FailureOf(session.activeGeneration, error, rootFailed)];
    var update := session.Poll(now);
  }

  /** Whenever the session is not loading, its sink has seen whole sessions only. */
  lemma SinkSawSessions(session: CatalogSession)
    requires session.Valid() && session.state != Loading
    ensures Sessions(session.sink)
  {
    ClosedIsSessions(session.sink);
  }
}
