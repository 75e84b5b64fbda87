/**
 * FileWatcher from src/watcher.cpp: the inotify poll loop that walks each
 * buffer of records, keeps those naming the tracked file, and sends a
 * "modified" notification only when more than 500 ms have passed since the
 * last one; and the start/stop protocol on the keep-watching flag.
 * Clock readings, errno values and read results are inputs.
 */
module Watcher {
  import opened Basics
  import opened CppString
  import opened Inotify

  /** Notifications are sent only when strictly more than this many milliseconds have passed. */
  const DEBOUNCE_MS: int := 500

  /** lastEventTime starts this many milliseconds before the loop starts. */
  const START_OFFSET_MS: int := 1000

  /** read(2) gives at most sizeof(buffer) bytes. */
  const BUFFER_SIZE: nat := 4096

  const EAGAIN: int := 11

  /** An errno value with its strerror text. */
  datatype Errno = Errno(code: int, text: string)

  /** What one read of the inotify descriptor returned. */
  datatype ReadOutcome =
    | Records(buf: seq<Byte>, stamps: seq<int>)  // numRead > 0; stamps[k]: the clock (ms) when record k is looked at
    | NoBytes                                     // numRead == 0
    | ReadFailed(err: Errno)                       // numRead == -1

  predicate ValidOutcome(r: ReadOutcome)
  {
    r.Records? ==> 0 < |r.buf| <= BUFFER_SIZE && WellFormed(r.buf) && |r.stamps| == |Decode(r.buf)|
  }

  predicate ValidOutcomes(outs: seq<ReadOutcome>)
  {
    forall i :: 0 <= i < |outs| ==> ValidOutcome(outs[i])
  }

  /** How inotify_init1 and inotify_add_watch turned out. */
  datatype Setup = InitFailed(err: Errno) | AddWatchFailed(err: Errno) | Ready

  /** A notification sent through HyprlandAPI::addNotification. */
  datatype Notice =
    | InitError(err: Errno)
    | AddWatchError(directory: string, err: Errno)
    | Monitoring(filepath: string)
    | Modified(filepath: string)
    | ReadError(err: Errno)

  /** A name field names the tracked file: it is not empty and directory + the C string in it is the file path. */
  predicate NamesFile(directory: string, filepath: string, nameField: seq<Byte>)
  {
    |nameField| > 0 && directory + CString(Chars(nameField)) == filepath
  }

  /** A record names the tracked file. */
  predicate Matches(directory: string, filepath: string, e: Event)
  {
    NamesFile(directory, filepath, e.name)
  }

  /** Which records of a run name the tracked file. */
  function Named(directory: string, filepath: string, events: seq<Event>): (flags: seq<bool>)
    ensures |flags| == |events|
  {
    seq(|events|, i requires 0 <= i < |events| => Matches(directory, filepath, events[i]))
  }

  /** The debounce state after some records, and the times of the notifications they caused. */
  datatype Debounced = Debounced(last: int, signals: seq<int>)

  /**
   * The debounce over a run of records, in order: flags[k] says whether
   * record k names the tracked file and stamps[k] is the clock when it is
   * looked at; a named record notifies when more than DEBOUNCE_MS have passed
   * since the last notification, which then moves to it.
   */
  function Debounce(last: int, flags: seq<bool>, stamps: seq<int>): (d: Debounced)
    requires |stamps| == |flags|
    decreases |flags|
  {
    if flags == [] then Debounced(last, [])
    else if flags[0] && stamps[0] - last > DEBOUNCE_MS then
      var rest := Debounce(stamps[0], flags[1..], stamps[1..]);
      Debounced(rest.last, [stamps[0]] + rest.signals)
    else
      Debounce(last, flags[1..], stamps[1..])
  }

  /** Each notification time is more than DEBOUNCE_MS after the one before it (the first: after last). */
  ghost predicate Spaced(last: int, signals: seq<int>)
    decreases |signals|
  {
    signals == [] || (signals[0] - last > DEBOUNCE_MS && Spaced(signals[0], signals[1..]))
  }

  /** The time of the last notification, or last when there is none. */
  function LastOr(last: int, signals: seq<int>): int
  {
    if signals == [] then last else signals[|signals| - 1]
  }

  /**
   * Notifications are spaced by more than DEBOUNCE_MS, each is at the time of
   * a named record, and the state is the time of the last one.
   */
  lemma {:induction false} DebounceSpaced(last: int, flags: seq<bool>, stamps: seq<int>)
    requires |stamps| == |flags|
    ensures var d := Debounce(last, flags, stamps);
            Spaced(last, d.signals) && d.last == LastOr(last, d.signals)
            && forall t :: t in d.signals ==> exists k :: 0 <= k < |flags| && flags[k] && stamps[k] == t
    decreases |flags|
  {
    if flags != [] {
      var d := Debounce(last, flags, stamps);
      if flags[0] && stamps[0] - last > DEBOUNCE_MS {
        DebounceSpaced(stamps[0], flags[1..], stamps[1..]);
        var rest := Debounce(stamps[0], flags[1..], stamps[1..]);
        assert d.signals == [stamps[0]] + rest.signals;
        assert d.signals[1..] == rest.signals;
        forall t | t in d.signals
          ensures exists k :: 0 <= k < |flags| && flags[k] && stamps[k] == t
        {
          if t != stamps[0] {
            var j :| 0 <= j < |flags[1..]| && flags[1..][j] && stamps[1..][j] == t;
            assert flags[j + 1] && stamps[j + 1] == t;
          }
        }
      } else {
        DebounceSpaced(last, flags[1..], stamps[1..]);
        forall t | t in d.signals
          ensures exists k :: 0 <= k < |flags| && flags[k] && stamps[k] == t
        {
          var j :| 0 <= j < |flags[1..]| && flags[1..][j] && stamps[1..][j] == t;
          assert flags[j + 1] && stamps[j + 1] == t;
        }
      }
    }
  }

  /**
   * One more record after a run: it notifies, at its own time, exactly when
   * it names the tracked file and more than DEBOUNCE_MS have passed since
   * lastEventTime as the run left it; otherwise nothing changes.
   */
  lemma {:induction false} DebounceSnoc(last: int, flags: seq<bool>, stamps: seq<int>, f: bool, t: int)
    requires |stamps| == |flags|
    ensures var d := Debounce(last, flags, stamps);
            Debounce(last, flags + [f], stamps + [t])
            == if f && t - d.last > DEBOUNCE_MS then Debounced(t, d.signals + [t]) else d
    ensures var d := Debounce(last, flags, stamps);
            Debounce(last, flags + [f], stamps + [t]).signals == d.signals + [t] <==> f && t - d.last > DEBOUNCE_MS
    decreases |flags|
  {
    if flags == [] {
      assert flags + [f] == [f] && stamps + [t] == [t];
    } else {
      assert (flags + [f])[1..] == flags[1..] + [f];
      assert (stamps + [t])[1..] == stamps[1..] + [t];
      if flags[0] && stamps[0] - last > DEBOUNCE_MS {
        DebounceSnoc(stamps[0], flags[1..], stamps[1..], f, t);
      } else {
        DebounceSnoc(last, flags[1..], stamps[1..], f, t);
      }
    }
  }

  /** Two spaced runs, the second starting from where the first ended, make one spaced run. */
  lemma {:induction false} SpacedAppend(last: int, a: seq<int>, b: seq<int>)
    requires Spaced(last, a) && Spaced(LastOr(last, a), b)
    ensures Spaced(last, a + b) && LastOr(LastOr(last, a), b) == LastOr(last, a + b)
    decreases |a|
  {
    if a != [] {
      assert (a + b)[1..] == a[1..] + b;
      assert LastOr(a[0], a[1..]) == LastOr(last, a);
      SpacedAppend(a[0], a[1..], b);
    } else {
      assert a + b == b;
    }
  }

  /** Any two notifications, not just consecutive ones, are more than DEBOUNCE_MS apart, the later one last. */
  lemma {:induction false} SpacedPairwise(last: int, signals: seq<int>, i: nat, j: nat)
    requires Spaced(last, signals) && i < j < |signals|
    ensures signals[j] - signals[i] > DEBOUNCE_MS
    decreases j
  {
    assert signals[1..][j - 1] == signals[j];
    if i > 0 {
      assert signals[1..][i - 1] == signals[i];
      SpacedPairwise(signals[0], signals[1..], i - 1, j - 1);
    } else if j > 1 {
      assert signals[1..][0] == signals[1];
      SpacedPairwise(signals[0], signals[1..], 0, j - 1);
    }
  }

  /** Records that do not name the tracked file never notify and never move lastEventTime. */
  lemma {:induction false} NoMatchNoSignal(last: int, flags: seq<bool>, stamps: seq<int>)
    requires |stamps| == |flags|
    requires forall k :: 0 <= k < |flags| ==> !flags[k]
    ensures Debounce(last, flags, stamps) == Debounced(last, [])
    decreases |flags|
  {
    if flags != [] {
      NoMatchNoSignal(last, flags[1..], stamps[1..]);
    }
  }

  /**
   * A burst of named records whose times all lie within DEBOUNCE_MS of the
   * first gives exactly one notification, at the first, when the first is
   * more than DEBOUNCE_MS after the last one.
   */
  lemma BurstSignalsOnce(last: int, flags: seq<bool>, stamps: seq<int>)
    requires |stamps| == |flags| > 0 && flags[0]
    requires forall k :: 0 <= k < |stamps| ==> stamps[0] <= stamps[k] <= stamps[0] + DEBOUNCE_MS
    requires stamps[0] - last > DEBOUNCE_MS
    ensures Debounce(last, flags, stamps) == Debounced(stamps[0], [stamps[0]])
  {
    QuietWithin(stamps[0], flags[1..], stamps[1..]);
  }

  /** No record within DEBOUNCE_MS of the last notification notifies. */
  lemma {:induction false} QuietWithin(last: int, flags: seq<bool>, stamps: seq<int>)
    requires |stamps| == |flags|
    requires forall k :: 0 <= k < |stamps| ==> stamps[k] <= last + DEBOUNCE_MS
    ensures Debounce(last, flags, stamps) == Debounced(last, [])
    decreases |flags|
  {
    if flags != [] {
      QuietWithin(last, flags[1..], stamps[1..]);
    }
  }

  /** Two named records more than DEBOUNCE_MS apart give two notifications. */
  lemma TwoSeparatedSignals(last: int, t1: int, t2: int)
    requires t1 - last > DEBOUNCE_MS && t2 - t1 > DEBOUNCE_MS
    ensures Debounce(last, [true, true], [t1, t2]) == Debounced(t2, [t1, t2])
  {
    assert [true, true][1..] == [true] && [t1, t2][1..] == [t2];
    assert Debounce(t1, [true], [t2]) == Debounced(t2, [t2]) by {
      assert [true][1..] == [] && [t2][1..] == [];
    }
  }

  /** lastEventTime starts one second before the loop, so the first named record at or after the start notifies. */
  lemma FirstMatchNotifies(start: int, now: int, flags: seq<bool>, stamps: seq<int>)
    requires now >= start && |stamps| == |flags|
    ensures Debounce(start - START_OFFSET_MS, [true] + flags, [now] + stamps).signals[0] == now
  {
    assert ([true] + flags)[1..] == flags && ([now] + stamps)[1..] == stamps;
  }

  /** The watcher's state as the poll loop sees it: lastEventTime, the modification times notified, and every notification sent. */
  datatype Polled = Polled(last: int, signals: seq<int>, notes: seq<Notice>)

  function Repeat(s: Notice, n: nat): (r: seq<Notice>)
    ensures |r| == n && forall k :: 0 <= k < n ==> r[k] == s
  {
    if n == 0 then [] else Repeat(s, n - 1) + [s]
  }

  /**
   * One iteration of the poll loop: a buffer of records is walked and
   * debounced, one "modified" notification per signal; a zero-byte read does
   * nothing; a failed read is reported unless it is EAGAIN.
   */
  function PollStep(directory: string, filepath: string, p: Polled, r: ReadOutcome): Polled
    requires ValidOutcome(r)
  {
    match r
    case Records(buf, stamps) =>
      var d := Debounce(p.last, Named(directory, filepath, Decode(buf)), stamps);
      Polled(d.last, p.signals + d.signals, p.notes + Repeat(Modified(filepath), |d.signals|))
    case NoBytes => p
    case ReadFailed(e) =>
      if e.code == EAGAIN then p else Polled(p.last, p.signals, p.notes + [ReadError(e)])
  }

  /** The state after the first n iterations of the poll loop from start, one read outcome each, in order. */
  function AfterPolls(directory: string, filepath: string, start: Polled, outs: seq<ReadOutcome>, n: nat): Polled
    requires ValidOutcomes(outs) && n <= |outs|
  {
    if n == 0 then start else PollStep(directory, filepath, AfterPolls(directory, filepath, start, outs, n - 1), outs[n - 1])
  }

  /** The poll loop is spaced: each notification more than DEBOUNCE_MS after the previous one (the first: after last0). */
  ghost predicate SpacedFrom(last0: int, p: Polled)
  {
    Spaced(last0, p.signals) && p.last == LastOr(last0, p.signals)
  }

  /**
   * One iteration keeps the notifications spaced and lastEventTime at the
   * last of them, only appends to the notifications, and a failed read other
   * than EAGAIN is reported.
   */
  lemma PollStepSpaced(directory: string, filepath: string, last0: int, p: Polled, r: ReadOutcome)
    requires ValidOutcome(r) && SpacedFrom(last0, p)
    ensures var q := PollStep(directory, filepath, p, r);
            SpacedFrom(last0, q) && p.signals <= q.signals && p.notes <= q.notes
            && (r.ReadFailed? && r.err.code != EAGAIN ==> q.notes == p.notes + [ReadError(r.err)])
  {
    if r.Records? {
      var d := Debounce(p.last, Named(directory, filepath, Decode(r.buf)), r.stamps);
      DebounceSpaced(p.last, Named(directory, filepath, Decode(r.buf)), r.stamps);
      SpacedAppend(last0, p.signals, d.signals);
    }
  }

  /**
   * Over the whole loop, notifications are spaced by more than DEBOUNCE_MS,
   * lastEventTime is the time of the last one, and what was notified before
   * is kept.
   */
  lemma {:induction false} AfterPollsSpaced(directory: string, filepath: string, last0: int, start: Polled,
                                            outs: seq<ReadOutcome>, n: nat)
    requires ValidOutcomes(outs) && n <= |outs| && SpacedFrom(last0, start)
    ensures var p := AfterPolls(directory, filepath, start, outs, n);
            SpacedFrom(last0, p) && start.signals <= p.signals && start.notes <= p.notes
  {
    if n > 0 {
      AfterPollsSpaced(directory, filepath, last0, start, outs, n - 1);
      PollStepSpaced(directory, filepath, last0, AfterPolls(directory, filepath, start, outs, n - 1), outs[n - 1]);
    }
  }

  /**
   * The walk from ptr, record by record, as watch() does it: the record at
   * ptr is looked at at time stamps[k]; last is lastEventTime and signals
   * the notification times so far.
   */
  function WalkFrom(directory: string, filepath: string, buf: seq<Byte>, ptr: nat, last: int, signals: seq<int>,
                    stamps: seq<int>, k: nat): Debounced
    requires WellFormedFrom(buf, ptr) && k + |DecodeFrom(buf, ptr)| == |stamps|
    decreases |buf| - ptr
  {
    if ptr == |buf| then Debounced(last, signals)
    else
      var next := NextAt(buf, ptr);
      if NamesFile(directory, filepath, buf[ptr + HEADER_SIZE..next]) && stamps[k] - last > DEBOUNCE_MS then
        WalkFrom(directory, filepath, buf, next, stamps[k], signals + [stamps[k]], stamps, k + 1)
      else
        WalkFrom(directory, filepath, buf, next, last, signals, stamps, k + 1)
  }

  /** One step of the walk stays inside the buffer, leaves one record fewer, and that record's flag comes first. */
  lemma NamedStep(directory: string, filepath: string, buf: seq<Byte>, ptr: nat)
    requires WellFormedFrom(buf, ptr) && ptr < |buf|
    ensures ptr + HEADER_SIZE <= |buf| && NextAt(buf, ptr) <= |buf| && WellFormedFrom(buf, NextAt(buf, ptr))
    ensures |DecodeFrom(buf, ptr)| == 1 + |DecodeFrom(buf, NextAt(buf, ptr))|
    ensures Named(directory, filepath, DecodeFrom(buf, ptr))
            == [NamesFile(directory, filepath, buf[ptr + HEADER_SIZE..NextAt(buf, ptr)])]
               + Named(directory, filepath, DecodeFrom(buf, NextAt(buf, ptr)))
  {
    var events := DecodeFrom(buf, ptr);
    assert events == [EventAt(buf, ptr)] + DecodeFrom(buf, NextAt(buf, ptr));
    assert events[1..] == DecodeFrom(buf, NextAt(buf, ptr));
    NamedCons(directory, filepath, events);
  }

  /** The flags of a non-empty list of records: the first record's flag, then the rest's. */
  lemma NamedCons(directory: string, filepath: string, events: seq<Event>)
    requires events != []
    ensures Named(directory, filepath, events)
            == [Matches(directory, filepath, events[0])] + Named(directory, filepath, events[1..])
  {
  }

  /** Walking the buffer by pointer is the debounce over its decoded records. */
  lemma {:induction false} WalkFromDebounce(directory: string, filepath: string, buf: seq<Byte>, ptr: nat, last: int,
                                            signals: seq<int>, stamps: seq<int>, k: nat)
    requires WellFormedFrom(buf, ptr) && k + |DecodeFrom(buf, ptr)| == |stamps|
    ensures var d := Debounce(last, Named(directory, filepath, DecodeFrom(buf, ptr)), stamps[k..]);
            WalkFrom(directory, filepath, buf, ptr, last, signals, stamps, k) == Debounced(d.last, signals + d.signals)
    decreases |buf| - ptr
  {
    if ptr == |buf| {
      assert signals + [] == signals;
    } else {
      NamedStep(directory, filepath, buf, ptr);
      var next := NextAt(buf, ptr);
      var named := NamesFile(directory, filepath, buf[ptr + HEADER_SIZE..next]);
      var rest := Named(directory, filepath, DecodeFrom(buf, next));
      assert ([named] + rest)[0] == named && ([named] + rest)[1..] == rest;
      assert stamps[k..][0] == stamps[k] && stamps[k..][1..] == stamps[k + 1..];
      if named && stamps[k] - last > DEBOUNCE_MS {
        WalkFromDebounce(directory, filepath, buf, next, stamps[k], signals + [stamps[k]], stamps, k + 1);
        var d := Debounce(stamps[k], rest, stamps[k + 1..]);
        assert (signals + [stamps[k]]) + d.signals == signals + ([stamps[k]] + d.signals);
      } else {
        WalkFromDebounce(directory, filepath, buf, next, last, signals, stamps, k + 1);
      }
    }
  }

  /** The walk over a whole buffer is the debounce over its decoded records. */
  lemma WalkIsDebounce(directory: string, filepath: string, buf: seq<Byte>, last: int, stamps: seq<int>)
    requires WellFormed(buf) && |stamps| == |Decode(buf)|
    ensures WalkFrom(directory, filepath, buf, 0, last, [], stamps, 0)
            == Debounce(last, Named(directory, filepath, Decode(buf)), stamps)
  {
    assert stamps[0..] == stamps;
    WalkFromDebounce(directory, filepath, buf, 0, last, [], stamps, 0);
    var d := Debounce(last, Named(directory, filepath, Decode(buf)), stamps);
    assert [] + d.signals == d.signals;
  }

  /**
   * The test on one record: it has a name, directory + name is the file
   * path, and more than DEBOUNCE_MS have passed since the last notification.
   */
  method CheckRecord(directory: string, filepath: string, nameField: seq<Byte>, now: int, last: int) returns (notify: bool)
    ensures notify <==> NamesFile(directory, filepath, nameField) && now - last > DEBOUNCE_MS
  {
    notify := false;
    if |nameField| > 0 {
      var name := CString(Chars(nameField));
      if directory + name == filepath {
        notify := now - last > DEBOUNCE_MS;
      }
    }
  }

  /**
   * The walk over one buffer: from ptr = 0, take the record at ptr, skip its
   * header and name, and notify for a record naming the tracked file when
   * more than DEBOUNCE_MS have passed since the last notification.
   */
  method WalkRecords(directory: string, filepath: string, last0: int, buf: seq<Byte>, stamps: seq<int>)
    returns (last: int, signals: seq<int>)
    requires WellFormed(buf) && |Decode(buf)| == |stamps|
    ensures Debounced(last, signals) == WalkFrom(directory, filepath, buf, 0, last0, [], stamps, 0)
  {
    ghost var whole := WalkFrom(directory, filepath, buf, 0, last0, [], stamps, 0);
    last, signals := last0, [];
    var ptr: nat, k: nat := 0, 0;
    while ptr < |buf|
      invariant WellFormedFrom(buf, ptr) && k + |DecodeFrom(buf, ptr)| == |stamps|
      invariant whole == WalkFrom(directory, filepath, buf, ptr, last, signals, stamps, k)
      decreases |buf| - ptr
    {
      DecodeStep(buf, ptr);
      var next := NextAt(buf, ptr);  // the header, then len bytes of name
      var notify := CheckRecord(directory, filepath, buf[ptr + HEADER_SIZE..next], stamps[k], last);
      if notify {
        assert whole == WalkFrom(directory, filepath, buf, next, stamps[k], signals + [stamps[k]], stamps, k + 1);
        signals := signals + [stamps[k]];
        last := stamps[k];
      } else {
        assert whole == WalkFrom(directory, filepath, buf, next, last, signals, stamps, k + 1);
      }
      ptr, k := next, k + 1;
    }
  }

  /** Where the watch thread is. */
  datatype Phase =
    | NotStarted
    | Polling               // inside the loop: the descriptor is open and the watch is in place
    | Returned(why: Exit)   // watch() has returned

  datatype Exit =
    | InitFailure           // inotify_init1 failed: nothing to clean up
    | WatchFailure          // inotify_add_watch failed: the descriptor was closed
    | Stopped               // the flag was seen cleared: the watch was removed and the descriptor closed

  class FileWatcher {
    const filepath: string
    const directory: string
    var keepWatching: bool
    var threadJoinable: bool
    var terminated: bool  // std::terminate was called: start() assigned over a joinable thread
    var phase: Phase
    var lastEventTime: int
    var notifications: seq<Notice>
    ghost var signalTimes: seq<int>

    /** The thread is only inside its loop while the flag is set and the thread is not yet joined. */
    ghost predicate Valid()
      reads this
    {
      phase.Polling? ==> keepWatching && threadJoinable
    }

    constructor (filepath: string, directory: string)
      ensures Valid()
      ensures this.filepath == filepath && this.directory == directory
      ensures keepWatching && !threadJoinable && !terminated && phase == NotStarted
      ensures notifications == [] && signalTimes == []
    {
      this.filepath := filepath;
      this.directory := directory;
      keepWatching := true;
      threadJoinable := false;
      terminated := false;
      phase := NotStarted;
      lastEventTime := 0;
      notifications := [];
      signalTimes := [];
    }

    /** One iteration of the loop body: read, walk the records, debounce. */
    method Iterate(r: ReadOutcome)
      requires ValidOutcome(r)
      modifies this
      ensures Polled(lastEventTime, signalTimes, notifications)
              == PollStep(directory, filepath, old(Polled(lastEventTime, signalTimes, notifications)), r)
      ensures keepWatching == old(keepWatching) && threadJoinable == old(threadJoinable) && phase == old(phase)
      ensures terminated == old(terminated)
    {
      match r
      case NoBytes =>
      case ReadFailed(e) =>
        if e.code != EAGAIN {
          notifications := notifications + [ReadError(e)];
        }
      case Records(buf, stamps) =>
        WalkIsDebounce(directory, filepath, buf, lastEventTime, stamps);
        var last, signals := WalkRecords(directory, filepath, lastEventTime, buf, stamps);
        lastEventTime := last;
        signalTimes := signalTimes + signals;
        notifications := notifications + Repeat(Modified(filepath), |signals|);
    }

    /**
     * start(): launch the thread running watch(), followed here up to now:
     * the setup, then one loop iteration per read outcome while the flag
     * stays set. The flag is only ever set by the constructor, so a watcher
     * started again after stop() sets up, finds the flag cleared, and cleans
     * up without polling. Starting while the previous thread is still
     * joinable move-assigns onto it, which calls std::terminate.
     */
    method Start(setup: Setup, startTime: int, outs: seq<ReadOutcome>)
      requires Valid() && ValidOutcomes(outs)
      modifies this
      ensures Valid() && threadJoinable && keepWatching == old(keepWatching)
      ensures old(threadJoinable) ==>
                terminated && phase == old(phase) && notifications == old(notifications)
                && signalTimes == old(signalTimes) && lastEventTime == old(lastEventTime)
      ensures !old(threadJoinable) ==> terminated == old(terminated)
      ensures !old(threadJoinable) && setup.InitFailed? ==>
                phase == Returned(InitFailure) && notifications == old(notifications) + [InitError(setup.err)]
                && signalTimes == old(signalTimes)
      ensures !old(threadJoinable) && setup.AddWatchFailed? ==>
                phase == Returned(WatchFailure)
                && notifications == old(notifications) + [AddWatchError(directory, setup.err)]
                && signalTimes == old(signalTimes)
      ensures !old(threadJoinable) && setup.Ready? ==>
                phase == (if keepWatching then Polling else Returned(Stopped))
                && Polled(lastEventTime, signalTimes, notifications)
                   == AfterPolls(directory, filepath,
                                 Polled(startTime - START_OFFSET_MS, old(signalTimes), old(notifications) + [Monitoring(filepath)]),
                                 outs, if keepWatching then |outs| else 0)
    {
      if threadJoinable {
        terminated := true;
        return;
      }
      threadJoinable := true;
      match setup
      case InitFailed(e) =>
        notifications := notifications + [InitError(e)];
        phase := Returned(InitFailure);
      case AddWatchFailed(e) =>
        notifications := notifications + [AddWatchError(directory, e)];
        phase := Returned(WatchFailure);
      case Ready =>
        notifications := notifications + [Monitoring(filepath)];
        lastEventTime := startTime - START_OFFSET_MS;
        phase := Polling;
        Poll(outs);
    }

    /**
     * The loop of watch(): one iteration per read outcome while the flag stays
     * set; once it is seen cleared, the watch is removed and the descriptor
     * closed.
     */
    method Poll(outs: seq<ReadOutcome>)
      requires ValidOutcomes(outs) && phase == Polling && threadJoinable
      modifies this
      ensures keepWatching == old(keepWatching) && threadJoinable && terminated == old(terminated)
      ensures phase == (if keepWatching then Polling else Returned(Stopped))
      ensures Polled(lastEventTime, signalTimes, notifications)
              == AfterPolls(directory, filepath, old(Polled(lastEventTime, signalTimes, notifications)),
                            outs, if keepWatching then |outs| else 0)
    {
      ghost var start := Polled(lastEventTime, signalTimes, notifications);
      var i := 0;
      while keepWatching && i < |outs|
        invariant 0 <= i <= |outs| && (!keepWatching ==> i == 0)
        invariant keepWatching == old(keepWatching) && threadJoinable && phase == Polling
        invariant terminated == old(terminated)
        invariant Polled(lastEventTime, signalTimes, notifications) == AfterPolls(directory, filepath, start, outs, i)
      {
        Iterate(outs[i]);
        i := i + 1;
      }
      if !keepWatching {
        // inotify_rm_watch and close
        phase := Returned(Stopped);
      }
    }

    /**
     * stop(): clear the flag, then join. Joining lets a thread still in its
     * loop see the cleared flag, leave the loop, remove the watch and close
     * the descriptor; nothing is notified after that.
     */
    method Stop()
      requires Valid()
      modifies this
      ensures Valid() && !keepWatching && !threadJoinable
      ensures old(phase).Polling? ==> phase == Returned(Stopped)
      ensures !old(phase).Polling? ==> phase == old(phase)
      ensures notifications == old(notifications) && signalTimes == old(signalTimes)
      ensures lastEventTime == old(lastEventTime) && terminated == old(terminated)
    {
      keepWatching := false;
      if threadJoinable {
        if phase.Polling? {
          phase := Returned(Stopped);
        }
        threadJoinable := false;
      }
    }
  }
}
