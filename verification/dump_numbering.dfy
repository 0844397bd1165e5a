/** How the dump loop numbers revisions. */
module DumpNumbering {
  import opened DeltaCopyfrom
  import opened PathDelta

  /** A revision header: of an empty revision for padding, or of the log entry at some index. */
  datatype Header =
    | Padding(number: int)
    | Real(number: int, index: int, revision: int)

  /** The original revisions that were dumped, in order. */
  function Dumped(headers: seq<Header>): seq<int> {
    if headers == [] then [] else
      var last := headers[|headers| - 1];
      Dumped(headers[..|headers| - 1]) + if last.Real? then [last.revision] else []
  }

  function Numbers(headers: seq<Header>): (r: seq<int>)
    ensures |r| == |headers| && forall i :: 0 <= i < |r| ==> r[i] == headers[i].number
  {
    seq(|headers|, i requires 0 <= i < |headers| => headers[i].number)
  }

  /** The first entry that is not before a revision. */
  function Next(log: seq<int>, rev: int): (i: nat)
    ensures i <= |log| && (i < |log| ==> log[i] >= rev)
    ensures forall j :: 0 <= j < i ==> log[j] < rev
    decreases |log|
  {
    if log == [] then 0
    else
      var i := Next(log[..|log| - 1], rev);
      if i < |log| - 1 then i
      else if log[|log| - 1] >= rev then |log| - 1 else |log|
  }

  /** What a dump starts with: whether it starts amid the history, where, and with which list. */
  predicate StartsMid(incremental: bool, start: int) {
    incremental && start != 0
  }

  /** The log of the session with an empty revision 0 in front when a subdirectory is dumped. */
  function WithDummy(below: bool, log: seq<int>): seq<int> {
    (if below then [0] else []) + log
  }

  /** The log of a session up to the end of the dump: every revision of the root, or those that
      touch a subdirectory, which cannot be there at revision 0. */
  ghost predicate IsLog(below: bool, log: seq<int>) {
    log != [] && StrictlyIncreasing(log) && (if below then log[0] > 0 else log[0] == 0)
  }

  /** Replays the log up to the first revision to dump into the path repository. */
  method Prefill(logs: seq<int>, start: int, keep: bool) returns (localRev: nat, commits: seq<int>)
    ensures localRev == |commits| <= |logs|
    ensures forall i :: 0 <= i < localRev ==> logs[i] < start && commits[i] == if keep then logs[i] else i
    ensures localRev < |logs| ==> logs[localRev] >= start
  {
    localRev, commits := 0, [];
    while localRev < |logs| && logs[localRev] < start
      invariant localRev <= |logs| && |commits| == localRev
      invariant forall i :: 0 <= i < localRev ==> logs[i] < start && commits[i] == if keep then logs[i] else i
    {
      var phrev := if keep then logs[localRev] else localRev;
      commits := commits + [phrev];
      localRev := localRev + 1;
    }
  }

  /** Where the loop starts. */
  datatype Setup =
    Setup(startMid: bool, start: int, end: int, logs: seq<int>, localRev: int, listIdx: int, commits: seq<int>)

  /** The list that the loop goes through, whether it is there from the beginning or grows. */
  ghost function Listed(s: Setup, below: bool, log: seq<int>): seq<int> {
    if s.startMid then WithDummy(below, log) else WithDummy(below, log[Next(log, s.start)..])
  }

  /** The place in the list that the loop starts at. */
  ghost function FirstIndex(s: Setup): int {
    if s.startMid then s.listIdx + 1 else |s.logs|
  }

  /** By how much local revisions are ahead of list indexes. */
  function Offset(s: Setup, below: bool): int {
    if s.startMid || below || s.start == 0 then 0 else 1
  }

  /** The entry that is run dry was not committed beforehand either: it is the first one of all of a
      subdirectory. */
  ghost predicate MissesFirst(s: Setup) {
    s.startMid && FirstIndex(s) == 1 && |s.commits| == 1
  }

  ghost predicate ReadyToDump(s: Setup, below: bool, log: seq<int>, keep: bool) {
    var list, n := Listed(s, below, log), FirstIndex(s);
    && StrictlyIncreasing(list) && 0 <= n < |list| && s.end == list[|list| - 1]
    && (if s.startMid then s.logs == list && s.start == list[n] else s.logs == list[..n] && s.start <= list[n])
    && (!keep ==> s.localRev == n + Offset(s, below))
    && (keep ==> if s.startMid then s.localRev == list[n] else s.localRev <= list[n])
    && (!s.startMid ==> s.localRev == (if s.start == 0 then 0 else 1) && s.commits == [])
    && (!s.startMid ==> s.logs == (if below then [0] else []) && log != [] && s.start <= log[|log| - 1])
    && (s.startMid ==> if MissesFirst(s) then below else |s.commits| == n + 1)
    && (forall i :: 0 <= i < |s.commits| ==> i < |list| && s.commits[i] == if keep then list[i] else i)
  }

  lemma ListIncreasing(below: bool, log: seq<int>, i: nat)
    requires IsLog(below, log) && i < |log|
    ensures var list := WithDummy(below, log[i..]);
            var d := if below then 1 else 0;
            && StrictlyIncreasing(list) && |list| == d + |log| - i && list[d] == log[i]
            && list[|list| - 1] == log[|log| - 1] && (below ==> list[0] == 0)
            && list[..d] == (if below then [0] else [])
  {
    hide StrictlyIncreasing;
    var list := WithDummy(below, log[i..]);
    var d := if below then 1 else 0;
    assert forall j :: d <= j < |list| ==> list[j] == log[i + j - d];
    StillIncreasing(below, log, i);
  }

  lemma StillIncreasing(below: bool, log: seq<int>, i: nat)
    requires IsLog(below, log) && i < |log|
    ensures StrictlyIncreasing(WithDummy(below, log[i..]))
  {
    assert below ==> log[i] >= log[0] > 0;
  }

  /** Starting with the first entry of the range; the list grows entry by entry. */
  method PrepareFirst(log: seq<int>, below: bool, from: nat, keep: bool) returns (s: Setup)
    requires IsLog(below, log) && from <= log[|log| - 1]
    ensures ReadyToDump(s, below, log, keep) && !s.startMid
    ensures s.start == if from == 0 && below then log[0] else from
  {
    hide StrictlyIncreasing, WithDummy, Next;
    FirstInRange(below, log);
    var start: int := from;
    if start == 0 && below {
      start := log[0];
    }
    var logs: seq<int> := if below then [0] else [];
    var localRev := if start == 0 then 0 else 1;
    s := Setup(false, start, log[|log| - 1], logs, localRev, 0, []);
    ListIncreasing(below, log, Next(log, start));
  }

  lemma FirstInRange(below: bool, log: seq<int>)
    requires IsLog(below, log)
    ensures 0 <= log[0] <= log[|log| - 1] && (below ==> log[0] > 0)
  {
  }

  /** Starting amid the history: the list is complete, and the path repository is filled with what
      comes before. The entry before the start is repeated without output. */
  method PrepareMid(log: seq<int>, below: bool, from: nat, keep: bool) returns (s: Setup)
    requires IsLog(below, log) && from > 0
    ensures ReadyToDump(s, below, log, keep) && s.startMid
    ensures FirstDumped(s) == FirstMid(below, log, from) && |s.commits| == Next(WithDummy(below, log), from)
  {
    hide StrictlyIncreasing, WithDummy, Next, IsLog, FirstMid, ReadyToDump;
    WholeList(below, log);
    var logs: seq<int> := WithDummy(below, log);
    var localRev, commits := Prefill(logs, from, keep);
    PrefillStops(below, log, from, localRev);
    if localRev > 1 || !below {
      localRev := localRev - 1;
    }
    var start := logs[localRev];
    s := Setup(true, start, logs[|logs| - 1], logs, if keep then start else localRev, localRev - 1, commits);
    MidIsReady(s, below, log, keep);
  }

  lemma MidIsReady(s: Setup, below: bool, log: seq<int>, keep: bool)
    requires s.startMid && s.logs == WithDummy(below, log) && StrictlyIncreasing(s.logs)
    requires var n, m := s.listIdx + 1, |s.commits|;
             && 0 <= n < |s.logs| && 0 < m <= |s.logs| && n == (if m > 1 || !below then m - 1 else m)
             && s.start == s.logs[n] && s.end == s.logs[|s.logs| - 1] && s.localRev == (if keep then s.start else n)
    requires forall i :: 0 <= i < |s.commits| ==> s.commits[i] == if keep then s.logs[i] else i
    ensures ReadyToDump(s, below, log, keep)
  {
    hide StrictlyIncreasing, WithDummy, Next;
  }

  /** The place in the list of the first entry dumped amid the history: the first one in range, but
      the second of a subdirectory if the first is in range already, as there is none before it that
      could be run dry. */
  ghost function FirstMid(below: bool, log: seq<int>, from: int): int {
    var m := Next(WithDummy(below, log), from);
    if below && m == 1 then 2 else m
  }

  lemma PrefillStops(below: bool, log: seq<int>, from: int, m: nat)
    requires IsLog(below, log) && m <= |WithDummy(below, log)| && from > 0
    requires forall i :: 0 <= i < m ==> WithDummy(below, log)[i] < from
    requires m < |WithDummy(below, log)| ==> WithDummy(below, log)[m] >= from
    ensures FirstMid(below, log, from) == (if below && m == 1 then 2 else m) && Next(WithDummy(below, log), from) == m
  {
    assert Next(WithDummy(below, log), from) == m;
  }

  lemma WholeList(below: bool, log: seq<int>)
    requires IsLog(below, log)
    ensures var list := WithDummy(below, log);
            StrictlyIncreasing(list) && |list| > (if below then 1 else 0) && list[0] == 0
  {
    assert log[0..] == log;
    ListIncreasing(below, log, 0);
  }

  /** Decides where the dump starts, and prepares the list and the path repository. */
  method Prepare(log: seq<int>, below: bool, from: nat, keep: bool, incremental: bool) returns (s: Setup)
    requires IsLog(below, log)
    requires !StartsMid(incremental, from) ==> from <= log[|log| - 1]
    ensures ReadyToDump(s, below, log, keep) && s.startMid == StartsMid(incremental, from)
    ensures !s.startMid ==> s.start == if from == 0 && below then log[0] else from
    ensures s.startMid ==> FirstDumped(s) == FirstMid(below, log, from)
    ensures s.startMid ==> |s.commits| == Next(WithDummy(below, log), from)
  {
    if incremental && from != 0 {
      s := PrepareMid(log, below, from, keep);
    } else {
      s := PrepareFirst(log, below, from, keep);
    }
  }

  /** What holds of the headers printed when the loop is at entry `n` of the list. */
  ghost predicate HeadersRight(headers: seq<Header>, list: seq<int>, keep: bool, offset: int, first: int) {
    && (forall i :: 0 <= i < |headers| ==> headers[i].number == first + i && (!keep ==> headers[i].Real?))
    && (forall i :: 0 <= i < |headers| && headers[i].Real? ==>
          0 <= headers[i].index < |list| && headers[i].revision == list[headers[i].index]
          && headers[i].number == if keep then headers[i].revision else headers[i].index + offset)
  }

  /** Fetches the first log entry of a range that has one. */
  method LogFetchSingle(log: seq<int>, rev: int) returns (entry: int)
    requires log != [] && rev <= log[|log| - 1]
    ensures Next(log, rev) < |log| && entry == log[Next(log, rev)]
  {
    entry := log[Next(log, rev)];
  }

  /** Prints headers of empty revisions, and commits them, up to a revision. */
  method Pad(localRev: int, revision: int, headers: seq<Header>, commits: seq<int>,
             ghost list: seq<int>, ghost offset: int, ghost first: int)
    returns (localRev': int, headers': seq<Header>, commits': seq<int>)
    requires localRev <= revision && localRev == first + |headers|
    requires HeadersRight(headers, list, true, offset, first)
    ensures localRev' == revision == first + |headers'|
    ensures HeadersRight(headers', list, true, offset, first) && Dumped(headers') == Dumped(headers)
    ensures forall c :: commits == c + Numbers(headers) ==> commits' == c + Numbers(headers')
  {
    localRev', headers', commits' := localRev, headers, commits;
    while localRev' < revision
      invariant localRev' <= revision && localRev' == first + |headers'|
      invariant HeadersRight(headers', list, true, offset, first) && Dumped(headers') == Dumped(headers)
      invariant forall c :: commits == c + Numbers(headers) ==> commits' == c + Numbers(headers')
    {
      HeaderSnoc(headers', Padding(localRev'));
      headers' := headers' + [Padding(localRev')];
      commits' := commits' + [localRev'];
      localRev' := localRev' + 1;
    }
  }

  lemma HeaderSnoc(headers: seq<Header>, h: Header)
    ensures Dumped(headers + [h]) == Dumped(headers) + if h.Real? then [h.revision] else []
    ensures Numbers(headers + [h]) == Numbers(headers) + [h.number]
  {
    assert (headers + [h])[..|headers|] == headers;
  }

  /** The entries from `i` up to `n`. */
  ghost function Done(list: seq<int>, i: int, n: int): seq<int>
    requires 0 <= i && n <= |list|
  {
    if i <= n then list[i..n] else []
  }

  lemma OneMoreDone(list: seq<int>, i: int, n: int)
    requires 0 <= i && 0 <= n < |list|
    ensures Done(list, i, n + 1) == Done(list, i, n) + if i <= n then [list[n]] else []
  {
  }

  lemma NoHeaders(list: seq<int>, keep: bool, offset: int, first: int)
    ensures HeadersRight([], list, keep, offset, first) && Dumped([]) == [] && Numbers([]) == []
  {
  }

  lemma HeaderAdded(headers: seq<Header>, h: Header, list: seq<int>, keep: bool, offset: int, first: int)
    requires HeadersRight(headers, list, keep, offset, first) && h.number == first + |headers|
    requires h.Real? && 0 <= h.index < |list| && h.revision == list[h.index]
    requires h.number == if keep then h.revision else h.index + offset
    ensures HeadersRight(headers + [h], list, keep, offset, first)
  {
  }

  /** Padding only comes in front of an entry. */
  ghost predicate LastIsReal(headers: seq<Header>) {
    headers != [] ==> headers[|headers| - 1].Real?
  }

  /** Prints the header of an entry, padded if numbers are kept, and commits it. */
  method DumpHeader(localRev: int, index: int, revision: int, keep: bool, headers: seq<Header>, commits: seq<int>,
                    ghost list: seq<int>, ghost offset: int, ghost first: int, ghost before: seq<int>)
    returns (localRev': int, headers': seq<Header>, commits': seq<int>)
    requires HeadersRight(headers, list, keep, offset, first) && localRev == first + |headers|
    requires 0 <= index < |list| && list[index] == revision
    requires if keep then localRev <= revision else localRev == index + offset
    requires commits == before + Numbers(headers)
    ensures localRev' == (if keep then revision else localRev) && localRev' + 1 == first + |headers'|
    ensures HeadersRight(headers', list, keep, offset, first) && Dumped(headers') == Dumped(headers) + [revision]
    ensures commits' == before + Numbers(headers') && LastIsReal(headers')
  {
    hide HeadersRight, Dumped, Numbers;
    localRev', headers', commits' := localRev, headers, commits;
    if keep {
      localRev', headers', commits' := Pad(localRev', revision, headers', commits', list, offset, first);
    }
    var header := Real(localRev', index, revision);
    HeaderSnoc(headers', header);
    HeaderAdded(headers', header, list, keep, offset, first);
    headers' := headers' + [header];
    commits' := commits' + [localRev'];
  }

  /** The variables of the loop before entry `n` of the list. */
  ghost predicate LoopState(s: Setup, list: seq<int>, below: bool, keep: bool, n: int,
                            dryRun: bool, localRev: int, globalRev: int, listIdx: int, logs: seq<int>)
  {
    && FirstIndex(s) <= n <= |list| && 0 < |list|
    && (dryRun <==> s.startMid && n == FirstIndex(s))
    && (if s.startMid then logs == list && listIdx == n - 1 else 0 <= n && logs == list[..n])
    && (!keep ==> localRev == n + Offset(s, below))
    && (if n == FirstIndex(s) then globalRev == s.start && localRev == s.localRev
        else 0 < n && globalRev == list[n - 1] + 1 && (keep ==> localRev == globalRev))
  }

  lemma AtStart(s: Setup, below: bool, log: seq<int>, keep: bool)
    requires ReadyToDump(s, below, log, keep)
    ensures var list, n := Listed(s, below, log), FirstIndex(s);
            0 <= n < |list| && s.end == list[|list| - 1] && Done(list, FirstDumped(s), n) == []
            && s.localRev == FirstNumber(s) - (if s.startMid then 1 else 0)
            && LoopState(s, list, below, keep, n, s.startMid, s.localRev, s.start, s.listIdx, s.logs)
  {
  }

  /** The next entry is the one fetched, and its revision has not been passed. */
  lemma EntryAt(s: Setup, list: seq<int>, below: bool, log: seq<int>, keep: bool, n: int, dryRun: bool,
                localRev: int, globalRev: int, listIdx: int, logs: seq<int>)
    requires IsLog(below, log) && ReadyToDump(s, below, log, keep) && list == Listed(s, below, log) && 0 <= n < |list|
    requires LoopState(s, list, below, keep, n, dryRun, localRev, globalRev, listIdx, logs)
    ensures keep && !dryRun ==> localRev <= list[n]
    ensures keep && dryRun ==> localRev == list[n]
    ensures list[n] + 1 <= s.end <==> n + 1 < |list|
    ensures !s.startMid ==>
              globalRev <= log[|log| - 1] && Next(log, globalRev) < |log| && log[Next(log, globalRev)] == list[n]
    ensures FirstIndex(s) <= n && (dryRun <==> s.startMid && n == FirstIndex(s))
    ensures if s.startMid then logs == list && listIdx + 1 == n else |logs| == n && logs + [list[n]] == list[..n + 1]
    ensures !keep ==> localRev == n + Offset(s, below)
  {
    hide Next, IsLog, Listed;
    if !s.startMid {
      FetchedIsNext(s, list, below, log, n, globalRev);
    }
  }

  lemma StateAfter(s: Setup, list: seq<int>, below: bool, keep: bool, n: int, localRev: int, logs: seq<int>)
    requires 0 <= n < |list| && FirstIndex(s) <= n
    requires localRev == if keep then list[n] else n + Offset(s, below)
    requires logs == if s.startMid then list else list[..n + 1]
    ensures LoopState(s, list, below, keep, n + 1, false, localRev + 1, list[n] + 1, n, logs)
  {
  }

  lemma Finished(s: Setup, list: seq<int>, below: bool, keep: bool, n: int,
                 dryRun: bool, localRev: int, globalRev: int, listIdx: int, logs: seq<int>)
    requires LoopState(s, list, below, keep, n, dryRun, localRev, globalRev, listIdx, logs)
    requires n == |list| && 0 <= FirstIndex(s) < |list|
    ensures !dryRun && FirstDumped(s) <= n && Done(list, FirstDumped(s), n) == list[FirstDumped(s)..]
  {
  }

  lemma FetchedIsNext(s: Setup, list: seq<int>, below: bool, log: seq<int>, n: int, globalRev: int)
    requires IsLog(below, log) && !s.startMid && list == Listed(s, below, log)
    requires s.start <= log[|log| - 1] && (if below then 1 else 0) <= n < |list|
    requires globalRev == if n == (if below then 1 else 0) then s.start else list[n - 1] + 1
    ensures globalRev <= log[|log| - 1] && Next(log, globalRev) < |log| && log[Next(log, globalRev)] == list[n]
  {
    hide Next;
    var d, i := if below then 1 else 0, Next(log, s.start);
    assert i < |log|;
    assert list == (if below then [0] else []) + log[i..];
    assert list[n] == log[i + n - d] && (n > d ==> list[n - 1] == log[i + n - 1 - d]);
    NextIs(log, globalRev, i + n - d);
  }

  lemma NextIs(log: seq<int>, rev: int, i: nat)
    requires StrictlyIncreasing(log) && i < |log| && log[i] >= rev && (i > 0 ==> log[i - 1] < rev)
    ensures Next(log, rev) == i
  {
  }

  lemma LogGiven(below: bool, log: seq<int>)
    requires log != [] && (forall i, j :: 0 <= i < j < |log| ==> log[i] < log[j])
    requires if below then log[0] > 0 else log[0] == 0
    ensures IsLog(below, log)
  {
  }

  /**
   * The dump of a session: prepares, then goes through the list. The entry that a dump amid the
   * history starts with is run dry, without a header. Every header is followed by a commit to
   * the path repository under its number; `commits` lists them all.
   */
  method Dump(log: seq<int>, below: bool, from: nat, keep: bool, incremental: bool)
    returns (s: Setup, headers: seq<Header>, commits: seq<int>)
    requires log != [] && (forall i, j :: 0 <= i < j < |log| ==> log[i] < log[j])
    requires if below then log[0] > 0 else log[0] == 0
    requires !incremental || from == 0 ==> from <= log[|log| - 1]
    ensures ReadyToDump(s, below, log, keep) && s.startMid == StartsMid(incremental, from)
    ensures !s.startMid ==> s.start == if from == 0 && below then log[0] else from
    ensures s.startMid ==> FirstDumped(s) == FirstMid(below, log, from)
    ensures s.startMid ==> |s.commits| == Next(WithDummy(below, log), from)
    ensures HeadersRight(headers, Listed(s, below, log), keep, Offset(s, below), FirstNumber(s))
    ensures Dumped(headers) == Listed(s, below, log)[FirstDumped(s)..] && LastIsReal(headers)
    ensures commits == s.commits + Numbers(headers)
    ensures s.startMid <==> incremental && from != 0
    ensures !incremental || from == 0 ==>
              && commits == Numbers(headers) && headers != []
              && headers[0].number == if from == 0 && !below then 0 else 1
    ensures incremental && from != 0 && !below ==>
              |commits| == Next(log, from) + |headers|
    ensures incremental && from != 0 && !below && headers != [] ==>
              headers[0].number == if keep then log[Next(log, from) - 1] + 1 else Next(log, from)
  {
    hide HeadersRight, Listed, Offset, IsLog, Dumped, Numbers, FirstMid;
    LogGiven(below, log);
    s := Prepare(log, below, from, keep, incremental);
    headers, commits := DumpAll(s, log, below, keep);
    if s.startMid {
      MidDumpExact(s, below, log, from, keep, headers, commits);
    } else {
      PlainDumpExact(s, below, log, from, keep, headers, commits);
    }
  }

  /** The loop: fetches or takes the next entry, dumps it unless it is run dry, and goes on behind it. */
  method DumpAll(s: Setup, log: seq<int>, below: bool, keep: bool) returns (headers: seq<Header>, commits: seq<int>)
    requires IsLog(below, log) && ReadyToDump(s, below, log, keep)
    ensures HeadersRight(headers, Listed(s, below, log), keep, Offset(s, below), FirstNumber(s))
    ensures Dumped(headers) == Listed(s, below, log)[FirstDumped(s)..] && LastIsReal(headers)
    ensures commits == s.commits + Numbers(headers)
  {
    hide ReadyToDump, HeadersRight, Listed, Offset, StrictlyIncreasing, Next, FirstNumber, Done;
    hide FirstIndex, Dumped, IsLog, Numbers, WithDummy, LoopState;
    ghost var list, n := Listed(s, below, log), FirstIndex(s);
    ghost var offset, first := Offset(s, below), FirstNumber(s);
    AtStart(s, below, log, keep);
    NoHeaders(list, keep, offset, first);
    var dryRun, localRev, globalRev, listIdx, logs := s.startMid, s.localRev, s.start, s.listIdx, s.logs;
    headers, commits := [], s.commits;
    var more := true;
    while more
      invariant 0 <= n <= |list| && (more <==> n < |list|)
      invariant LoopState(s, list, below, keep, n, dryRun, localRev, globalRev, listIdx, logs)
      invariant localRev == first + |headers| - if dryRun then 1 else 0
      invariant HeadersRight(headers, list, keep, offset, first)
      invariant Dumped(headers) == Done(list, FirstDumped(s), n) && commits == s.commits + Numbers(headers)
      invariant LastIsReal(headers)
      decreases |list| - n
    {
      EntryAt(s, list, below, log, keep, n, dryRun, localRev, globalRev, listIdx, logs);
      if !s.startMid {
        var entry := LogFetchSingle(log, globalRev);
        logs := logs + [entry];
        listIdx := |logs| - 1;
      } else {
        listIdx := listIdx + 1;
      }
      OneMoreDone(list, FirstDumped(s), n);
      if !dryRun {
        localRev, headers, commits :=
          DumpHeader(localRev, listIdx, logs[listIdx], keep, headers, commits, list, offset, first, s.commits);
      }
      StateAfter(s, list, below, keep, n, localRev, logs);
      globalRev := logs[listIdx] + 1;
      localRev := localRev + 1;
      dryRun := false;
      more := globalRev <= s.end;
      n := n + 1;
    }
    Finished(s, list, below, keep, n, dryRun, localRev, globalRev, listIdx, logs);
  }

  /** The number of the first header. */
  ghost function FirstNumber(s: Setup): int {
    if s.startMid then s.localRev + 1 else s.localRev
  }

  /** The place in the list of the first entry that is dumped. */
  ghost function FirstDumped(s: Setup): int {
    if s.startMid then FirstIndex(s) + 1 else FirstIndex(s)
  }

  // ---------- header by header ----------

  lemma {:induction false} DumpedMembers(headers: seq<Header>)
    ensures forall r :: r in Dumped(headers) <==>
              exists k :: 0 <= k < |headers| && headers[k].Real? && headers[k].revision == r
    ensures (forall k :: 0 <= k < |headers| ==> headers[k].Real?) ==>
              |Dumped(headers)| == |headers|
              && forall k :: 0 <= k < |headers| ==> Dumped(headers)[k] == headers[k].revision
  {
    if headers != [] {
      var front, last := headers[..|headers| - 1], headers[|headers| - 1];
      DumpedMembers(front);
      assert headers == front + [last];
      forall r
        ensures r in Dumped(headers) <==>
                exists k :: 0 <= k < |headers| && headers[k].Real? && headers[k].revision == r
      {
        if k :| 0 <= k < |headers| && headers[k].Real? && headers[k].revision == r {
          assert k < |front| ==> front[k] == headers[k];
        }
        if k :| 0 <= k < |front| && front[k].Real? && front[k].revision == r {
          assert headers[k] == front[k];
        }
      }
    }
  }

  lemma DumpedLast(headers: seq<Header>)
    requires headers != [] && LastIsReal(headers)
    ensures Dumped(headers) != []
    ensures Dumped(headers)[|Dumped(headers)| - 1] == headers[|headers| - 1].revision
  {
  }

  lemma DumpedNothing(headers: seq<Header>)
    ensures headers == [] ==> Dumped(headers) == []
  {
  }

  /** The headers, one by one, of a dump of a list from its entry `f` on: their numbers count up. Each
      entry has one, which says its place; with kept numbers it has the number of its entry, and the
      headers of empty revisions fill the gaps. */
  ghost predicate HeadersAre(headers: seq<Header>, list: seq<int>, f: nat, first: int, keep: bool) {
    && f <= |list| && (headers == [] <==> f == |list|)
    && (forall k :: 0 <= k < |headers| ==> headers[k].number == first + k)
    && if !keep then
         && |headers| == |list| - f
         && forall k :: 0 <= k < |headers| ==> headers[k] == Real(first + k, f + k, list[f + k])
       else
         && (forall k :: 0 <= k < |headers| ==> (headers[k].Real? <==> headers[k].number in list[f..]))
         && (forall k :: 0 <= k < |headers| && headers[k].Real? ==> headers[k].revision == headers[k].number)
         && (headers != [] ==> headers[|headers| - 1].number == list[|list| - 1])
  }

  /** The entries from `f` on have been dumped, and nothing was printed behind them. */
  ghost predicate DumpedFrom(headers: seq<Header>, list: seq<int>, f: int) {
    0 <= f <= |list| && Dumped(headers) == list[f..] && LastIsReal(headers)
  }

  lemma HeadersExact(headers: seq<Header>, list: seq<int>, f: nat, keep: bool, offset: int, first: int)
    requires HeadersRight(headers, list, keep, offset, first) && DumpedFrom(headers, list, f)
    requires StrictlyIncreasing(list)
    ensures HeadersAre(headers, list, f, first, keep)
  {
    DumpedMembers(headers);
    DumpedNothing(headers);
    if headers != [] {
      DumpedLast(headers);
    }
    if keep {
      forall k | 0 <= k < |headers|
        ensures headers[k].Real? <==> headers[k].number in list[f..]
      {
        if headers[k].number in list[f..] {
          var j :| 0 <= j < |headers| && headers[j].Real? && headers[j].revision == headers[k].number;
          assert headers[j].number == headers[k].number;
        }
      }
    } else {
      forall k | 0 <= k < |headers|
        ensures headers[k] == Real(first + k, f + k, list[f + k])
      {
        assert headers[k].revision == Dumped(headers)[k] == list[f + k];
        SamePlace(list, headers[k].index, f + k);
      }
    }
  }

  lemma SamePlace(list: seq<int>, i: int, j: int)
    requires StrictlyIncreasing(list) && 0 <= i < |list| && 0 <= j < |list| && list[i] == list[j]
    ensures i == j
  {
  }

  /** A dump that starts with the first entry of its range: only headers are committed, and their
      numbers start with 0 if revision 0 of the root is dumped and with 1 otherwise. */
  lemma PlainDumpExact(s: Setup, below: bool, log: seq<int>, from: nat, keep: bool,
                       headers: seq<Header>, commits: seq<int>)
    requires IsLog(below, log) && !s.startMid && s.start == if from == 0 && below then log[0] else from
    requires ReadyToDump(s, below, log, keep)
    requires HeadersRight(headers, Listed(s, below, log), keep, Offset(s, below), FirstNumber(s))
    requires DumpedFrom(headers, Listed(s, below, log), FirstDumped(s))
    requires commits == s.commits + Numbers(headers)
    ensures commits == Numbers(headers) && headers != []
    ensures var list := (if below then [0] else []) + log[Next(log, from)..];
            HeadersAre(headers, list, if below then 1 else 0, if from == 0 && !below then 0 else 1, keep)
  {
    hide HeadersRight, Dumped, DumpedFrom, Next, HeadersAre, Numbers, StrictlyIncreasing;
    FirstStart(s, below, log, from);
    PlainSetup(s, below, log, keep);
    HeadersExact(headers, Listed(s, below, log), FirstDumped(s), keep, Offset(s, below), FirstNumber(s));
    NotEmpty(headers, Listed(s, below, log), FirstDumped(s), FirstNumber(s), keep);
  }

  lemma PlainSetup(s: Setup, below: bool, log: seq<int>, keep: bool)
    requires IsLog(below, log) && ReadyToDump(s, below, log, keep) && !s.startMid
    ensures s.commits == [] && FirstNumber(s) == (if s.start == 0 then 0 else 1)
    ensures FirstDumped(s) == (if below then 1 else 0) < |Listed(s, below, log)|
    ensures StrictlyIncreasing(Listed(s, below, log))
  {
    hide StrictlyIncreasing, Listed;
  }

  lemma NotEmpty(headers: seq<Header>, list: seq<int>, f: nat, first: int, keep: bool)
    requires HeadersAre(headers, list, f, first, keep) && f < |list|
    ensures headers != []
  {
  }

  lemma FirstStart(s: Setup, below: bool, log: seq<int>, from: nat)
    requires IsLog(below, log) && s.start == if from == 0 && below then log[0] else from
    ensures Next(log, s.start) == Next(log, from) && (s.start == 0 <==> from == 0 && !below)
  {
    if from == 0 && below {
      NextWhere(log, from, 0);
      NextWhere(log, log[0], 0);
    }
  }

  /** A dump amid the history: what comes before is committed beforehand, the entry before the start is
      run dry, and the headers begin with the entry behind it, at its place in the whole list unless
      numbers are kept. */
  lemma MidDumpExact(s: Setup, below: bool, log: seq<int>, from: nat, keep: bool,
                     headers: seq<Header>, commits: seq<int>)
    requires IsLog(below, log) && ReadyToDump(s, below, log, keep) && s.startMid && from > 0
    requires FirstDumped(s) == FirstMid(below, log, from) && |s.commits| == Next(WithDummy(below, log), from)
    requires HeadersRight(headers, Listed(s, below, log), keep, Offset(s, below), FirstNumber(s))
    requires DumpedFrom(headers, Listed(s, below, log), FirstDumped(s))
    requires commits == s.commits + Numbers(headers)
    ensures var list := (if below then [0] else []) + log;
            var m := Next(log, from) + if below then 1 else 0;
            var f := if below && m == 1 then 2 else m;
            && 1 <= m <= f <= |list| && |commits| == m + |headers| && commits[m..] == Numbers(headers)
            && (forall j :: 0 <= j < m ==> list[j] < from && commits[j] == if keep then list[j] else j)
            && HeadersAre(headers, list, f, if keep then list[f - 1] + 1 else f, keep)
  {
    hide HeadersRight, Dumped, DumpedFrom, Next, HeadersAre, StrictlyIncreasing, ReadyToDump, IsLog, Numbers, Offset;
    hide FirstDumped, FirstNumber, WithDummy;
    var list, m := (if below then [0] else []) + log, Next(log, from) + if below then 1 else 0;
    NextInList(below, log, from);
    MidSetup(s, below, log, from, keep);
    HeadersExact(headers, list, FirstDumped(s), keep, Offset(s, below), FirstNumber(s));
  }

  lemma MidSetup(s: Setup, below: bool, log: seq<int>, from: nat, keep: bool)
    requires ReadyToDump(s, below, log, keep) && s.startMid && FirstDumped(s) == FirstMid(below, log, from)
    requires |s.commits| == Next(WithDummy(below, log), from) >= 1
    ensures var list, m := WithDummy(below, log), Next(WithDummy(below, log), from);
            && StrictlyIncreasing(list) && 1 <= m <= FirstDumped(s) <= |list| && |s.commits| == m
            && FirstNumber(s) == (if keep then list[FirstDumped(s) - 1] + 1 else FirstDumped(s))
            && forall j :: 0 <= j < m ==> s.commits[j] == if keep then list[j] else j
  {
    hide StrictlyIncreasing, Next, WithDummy;
  }

  lemma NextInList(below: bool, log: seq<int>, from: nat)
    requires IsLog(below, log) && from > 0
    ensures var list, m := (if below then [0] else []) + log, Next(log, from) + if below then 1 else 0;
            && WithDummy(below, log) == list && Next(list, from) == m && m >= 1
            && forall j :: 0 <= j < m ==> list[j] < from
  {
    hide StrictlyIncreasing, Next;
    var list, m := (if below then [0] else []) + log, Next(log, from) + if below then 1 else 0;
    if below {
      assert forall j :: 1 <= j < |list| ==> list[j] == log[j - 1];
      NextWhere(list, from, m);
    } else {
      assert list == log;
    }
  }

  // ---------- what follows for every dump ----------

  /** All revisions of the range are dumped, except that a dump amid the history of a subdirectory
      misses the first one of all if it starts with it. */
  lemma DumpComplete(s: Setup, below: bool, log: seq<int>, from: nat, incremental: bool, keep: bool)
    requires IsLog(below, log) && ReadyToDump(s, below, log, keep) && s.startMid == StartsMid(incremental, from)
    requires !s.startMid ==> s.start == if from == 0 && below then log[0] else from
    requires s.startMid ==> FirstDumped(s) == FirstMid(below, log, from)
    ensures Listed(s, below, log)[FirstDumped(s)..] == log[Next(log, from)..]
            <==> !(s.startMid && below && from <= log[0])
  {
    hide StrictlyIncreasing, Next, IsLog, FirstMid;
    if s.startMid {
      MidComplete(below, log, from);
    } else {
      FirstComplete(s, below, log, from);
    }
  }

  lemma NextWhere(log: seq<int>, rev: int, i: nat)
    requires i <= |log| && (forall j :: 0 <= j < i ==> log[j] < rev) && (i < |log| ==> log[i] >= rev)
    ensures Next(log, rev) == i
  {
  }

  lemma MidComplete(below: bool, log: seq<int>, from: int)
    requires IsLog(below, log) && from > 0
    ensures var list, k := WithDummy(below, log), FirstMid(below, log, from);
            k <= |list| && (list[k..] == log[Next(log, from)..] <==> !(below && from <= log[0]))
  {
    hide Next, StrictlyIncreasing;
    var list, i := WithDummy(below, log), Next(log, from);
    if below {
      assert list[0] == 0 && forall j :: 1 <= j < |list| ==> list[j] == log[j - 1];
      NextWhere(list, from, i + 1);
      assert list[i + 1..] == log[i..];
      assert i == 0 <==> from <= log[0];
      assert |list[2..]| == |log| - 1;
    } else {
      assert list == log;
    }
  }

  lemma FirstComplete(s: Setup, below: bool, log: seq<int>, from: nat)
    requires IsLog(below, log) && !s.startMid && s.logs == (if below then [0] else [])
    requires s.start == if from == 0 && below then log[0] else from
    ensures FirstDumped(s) <= |Listed(s, below, log)|
    ensures Listed(s, below, log)[FirstDumped(s)..] == log[Next(log, from)..]
  {
    if from == 0 && below {
      NextWhere(log, from, 0);
      NextWhere(log, log[0], 0);
    }
    assert Next(log, s.start) == Next(log, from);
  }

  /** Without kept revision numbers, list indexes are local revisions if and only if the dump goes
      back to an empty revision 0 at index 0: from a subdirectory, amid the history, or from 0. */
  lemma IndexesAreLocalRevisions(s: Setup, list: seq<int>, below: bool, headers: seq<Header>, first: int)
    requires HeadersRight(headers, list, false, Offset(s, below), first)
    requires 0 <= FirstDumped(s) <= |list| && Dumped(headers) == list[FirstDumped(s)..]
    requires !s.startMid ==> FirstDumped(s) < |list|
    ensures (forall i :: 0 <= i < |headers| ==> headers[i].index == headers[i].number)
            <==> s.startMid || below || s.start == 0
  {
    if !(s.startMid || below || s.start == 0) {
      assert Dumped(headers) != [];
      assert headers != [] && headers[0].number == headers[0].index + 1;
    }
  }

  /** Where indexes are local revisions, the backward search for a copy source gives the greatest
      earlier local revision whose original is not after the wanted one, or -1: both when the list
      ends with the current entry and when it is complete. */
  lemma CopySourceFound(list: seq<int>, i: nat, n: nat, original: int)
    requires StrictlyIncreasing(list) && i < n <= |list| && original < list[i]
    ensures var rev := GreatestNotAfter(list[..n], original, n - 1);
            -1 <= rev < i && (forall j :: 0 <= j < i ==> (list[j] <= original <==> j <= rev))
  {
    var logs := list[..n];
    SearchIsExact(logs, original);
    var rev := GreatestNotAfter(logs, original, n - 1);
    assert logs[i] == list[i];
    forall j | 0 <= j < i
      ensures logs[j] == list[j]
    {
    }
  }

  /** The path repository is committed to under ever greater numbers. */
  lemma CommitsIncrease(s: Setup, below: bool, log: seq<int>, keep: bool, headers: seq<Header>, commits: seq<int>)
    requires ReadyToDump(s, below, log, keep) && commits == s.commits + Numbers(headers)
    requires HeadersRight(headers, Listed(s, below, log), keep, Offset(s, below), FirstNumber(s))
    ensures StrictlyIncreasing(commits)
  {
    var list, m := Listed(s, below, log), |s.commits|;
    hide Listed;
    forall i, j | 0 <= i < j < |commits|
      ensures commits[i] < commits[j]
    {
      if m <= j {
        assert commits[j] == headers[j - m].number == FirstNumber(s) + j - m;
      }
      if m <= i {
        assert commits[i] == headers[i - m].number == FirstNumber(s) + i - m;
      } else {
        assert commits[i] == if keep then list[i] else i;
      }
    }
  }

  /** From the second revision on no number is left out, except by a repository that was filled
      beforehand with kept numbers. */
  lemma CommitsDense(s: Setup, below: bool, log: seq<int>, keep: bool, headers: seq<Header>, commits: seq<int>, k: int)
    requires ReadyToDump(s, below, log, keep) && commits == s.commits + Numbers(headers)
    requires HeadersRight(headers, Listed(s, below, log), keep, Offset(s, below), FirstNumber(s))
    requires !keep || !s.startMid
    requires commits != [] && 2 <= k <= commits[|commits| - 1]
    ensures k in commits
  {
    hide Listed;
    var m, first := |s.commits|, FirstNumber(s);
    if k < m {
      assert commits[k] == k;
    } else {
      assert k >= first;
      assert headers == [] ==> commits == s.commits;
      HeadersCommitted(s, Listed(s, below, log), keep, Offset(s, below), headers, commits, k);
    }
  }

  /** What the repository has before the first header when it was filled beforehand with kept numbers:
      the listed revisions, without the first one of a subdirectory if that is where the dump starts. */
  ghost predicate FilledWith(s: Setup, list: seq<int>, k: int) {
    k in list && !(MissesFirst(s) && |list| > 1 && k == list[1])
  }

  lemma PrefillCommitsListed(s: Setup, below: bool, log: seq<int>, headers: seq<Header>, commits: seq<int>, k: int)
    requires ReadyToDump(s, below, log, true) && commits == s.commits + Numbers(headers)
    requires HeadersRight(headers, Listed(s, below, log), true, Offset(s, below), FirstNumber(s))
    requires s.startMid && k < FirstNumber(s)
    ensures k in commits <==> FilledWith(s, Listed(s, below, log), k)
  {
    hide Listed;
    var list, m, n := Listed(s, below, log), |s.commits|, FirstIndex(s);
    forall i | m <= i < |commits|
      ensures commits[i] == FirstNumber(s) + i - m
    {
      assert commits[i] == headers[i - m].number;
    }
    if k in commits {
      var i :| 0 <= i < |commits| && commits[i] == k;
      assert list[i] == k;
    }
    if FilledWith(s, list, k) {
      var i :| 0 <= i < |list| && list[i] == k;
      assert FirstNumber(s) == list[n] + 1;
      assert i <= n;
      assert commits[i] == k;
    }
  }

  /** Whatever number a header has been given so far was committed. */
  lemma HeadersCommitted(s: Setup, list: seq<int>, keep: bool, offset: int, headers: seq<Header>, commits: seq<int>,
                         k: int)
    requires commits == s.commits + Numbers(headers) && HeadersRight(headers, list, keep, offset, FirstNumber(s))
    requires headers != [] && FirstNumber(s) <= k <= commits[|commits| - 1]
    ensures k in commits
  {
    var m, first := |s.commits|, FirstNumber(s);
    assert commits[|commits| - 1] == headers[|headers| - 1].number == first + |headers| - 1;
    assert commits[m + k - first] == headers[k - first].number == k;
  }

  /** Filled beforehand with kept numbers, the repository can reconstruct a revision if and only if its
      block starts at 0, with a listed revision or behind the start of the dump, or nothing that was
      live at the start of the block goes unmentioned in it. */
  lemma PrefilledReconstructible(s: Setup, below: bool, log: seq<int>, headers: seq<Header>, commits: seq<int>,
                                 h: History, r: int)
    requires ReadyToDump(s, below, log, true) && s.startMid && commits == s.commits + Numbers(headers)
    requires HeadersRight(headers, Listed(s, below, log), true, Offset(s, below), FirstNumber(s))
    requires commits != [] && 0 <= r <= commits[|commits| - 1] && forall c :: c in commits <==> c in h
    ensures Reconstructible(h, r) <==>
            || Base(r) == 0 || Base(r) >= FirstNumber(s) || FilledWith(s, Listed(s, below, log), Base(r))
            || Live(h, Base(r)) <= Mentioned(h, Base(r) + 1, r)
  {
    hide ReadyToDump, HeadersRight, Listed, Numbers, Live, Mentioned, FilledWith, FirstNumber;
    BaseBelow(r);
    if Base(r) < FirstNumber(s) {
      PrefillCommitsListed(s, below, log, headers, commits, Base(r));
    } else {
      PrefilledBelow(s, below, log, commits);
      assert headers == [] ==> commits == s.commits;
      HeadersCommitted(s, Listed(s, below, log), true, Offset(s, below), headers, commits, Base(r));
    }
  }

  /** What was committed beforehand lies before the first header. */
  lemma PrefilledBelow(s: Setup, below: bool, log: seq<int>, commits: seq<int>)
    requires ReadyToDump(s, below, log, true) && s.startMid
    ensures forall i :: 0 <= i < |s.commits| ==> s.commits[i] < FirstNumber(s)
  {
    hide Listed;
  }

  /** So every revision a dump has committed can be reconstructed, unless the repository was filled
      beforehand with kept numbers. */
  lemma DumpKeepsReconstructible(s: Setup, below: bool, log: seq<int>, keep: bool, headers: seq<Header>,
                                 commits: seq<int>, h: History, r: int)
    requires ReadyToDump(s, below, log, keep) && commits == s.commits + Numbers(headers)
    requires HeadersRight(headers, Listed(s, below, log), keep, Offset(s, below), FirstNumber(s))
    requires !keep || !s.startMid
    requires commits != [] && 0 <= r <= commits[|commits| - 1] && forall c :: c in commits ==> c in h
    ensures Reconstructible(h, r)
  {
    hide ReadyToDump, HeadersRight, Listed, Numbers, Live, Mentioned;
    BaseBelow(r);
    LaterBase(r);
    if Base(r) != 0 {
      CommitsDense(s, below, log, keep, headers, commits, Base(r));
    }
  }

  lemma LaterBase(r: int)
    requires r >= 0
    ensures Base(r) == 0 || Base(r) >= SNAPSHOT_INTERVAL
  {
    assert Base(r) == SNAPSHOT_INTERVAL * (r / SNAPSHOT_INTERVAL);
  }
}
