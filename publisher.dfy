/**
 * The progress publisher `event_generator` behind `/api/progress/{id}`: a
 * loop that reads the registry entry of one download every 100 ms and sends
 * server-sent events. Each poll is one tick; what the registry holds for the
 * download at each tick is the input `snaps` (`None`: no entry). A run over
 * a finite window of ticks either ends the stream or is still polling when
 * the window runs out.
 */
module Publisher {
  import opened Wrappers
  import opened Registry

  /** Consecutive empty ticks after which the stream gives up (30 s). */
  const MaxTimeout := 300

  /** The events of the stream, payloads as literal values. */
  datatype Event =
    | ConnectedEvent            // {'status': 'connected'}
    | ProgressEvent(entry: Entry)
    | CompleteEvent             // {"status": "complete", "percentage": 100}
    | TimeoutEvent              // {'status': 'timeout'}

  datatype Ending = EndedComplete | EndedTimeout | StillPolling

  /** The events sent, how the stream ended, and how many ticks it read. */
  datatype Run = Run(events: seq<Event>, ending: Ending, ticks: nat)

  predicate IsCompleteSnapshot(s: Option<Entry>) {
    s.Some? && s.value.status == Complete
  }

  /** The loop from a state with `last` the last percentage sent and
      `counter` the number of consecutive empty ticks (main.py:660-683). */
  function Poll(snaps: seq<Option<Entry>>, last: int, counter: nat): (r: Run)
    ensures r.ticks <= |snaps|
    decreases |snaps|
  {
    if counter >= MaxTimeout then Run([TimeoutEvent], EndedTimeout, 0)
    else if snaps == [] then Run([], StillPolling, 0)
    else match snaps[0]
      case None =>
        var r := Poll(snaps[1..], last, counter + 1);
        Run(r.events, r.ending, r.ticks + 1)
      case Some(e) =>
        var data := if e.percentage != last then [ProgressEvent(e)] else [];
        if e.status == Complete then Run(data + [CompleteEvent], EndedComplete, 1)
        else
          var r := Poll(snaps[1..], e.percentage, 0);
          Run(data + r.events, r.ending, r.ticks + 1)
  }

  /** The whole stream (main.py:650-687). */
  function Publish(snaps: seq<Option<Entry>>): Run {
    var r := Poll(snaps, -1, 0);
    Run([ConnectedEvent] + r.events, r.ending, r.ticks)
  }

  /** `event_generator`, polling once per tick of `snaps`. */
  method EventGenerator(snaps: seq<Option<Entry>>) returns (run: Run)
    ensures run == Publish(snaps)
  {
    var events := [ConnectedEvent];
    var last := -1;
    var counter: nat := 0;
    var i := 0;
    var completed := false;
    while counter < MaxTimeout && i < |snaps|
      invariant 0 <= i <= |snaps| && !completed
      invariant var r := Poll(snaps[i..], last, counter);
        Publish(snaps) == Run(events + r.events, r.ending, i + r.ticks)
      decreases |snaps| - i
    {
      assert snaps[i..][1..] == snaps[i + 1..];
      match snaps[i] {
        case None =>
          counter := counter + 1;
        case Some(e) =>
          if e.percentage != last {
            events := events + [ProgressEvent(e)];
            last := e.percentage;
          }
          if e.status == Complete {
            events := events + [CompleteEvent];
            completed := true;
            i := i + 1;
            break;
          }
          counter := 0;
      }
      i := i + 1;
    }
    if counter >= MaxTimeout {
      events := events + [TimeoutEvent];
    }
    var ending := if completed then EndedComplete else if counter >= MaxTimeout then EndedTimeout else StillPolling;
    if !completed && counter < MaxTimeout {
      assert snaps[i..] == [];
    }
    run := Run(events, ending, i);
  }

  // ---------------------------------------------------------------------------
  // Vocabulary of the properties

  predicate ProgressOnly(evs: seq<Event>) {
    forall k :: 0 <= k < |evs| ==> evs[k].ProgressEvent?
  }

  /** Progress events, then the terminal event matching the ending, if any. */
  predicate WellEnded(evs: seq<Event>, ending: Ending) {
    match ending
    case StillPolling => ProgressOnly(evs)
    case EndedComplete => evs != [] && ProgressOnly(evs[..|evs| - 1]) && evs[|evs| - 1] == CompleteEvent
    case EndedTimeout => evs != [] && ProgressOnly(evs[..|evs| - 1]) && evs[|evs| - 1] == TimeoutEvent
  }

  /** Ticks `lo` up to `hi` (exclusive) found no entry. */
  predicate AbsentBetween(snaps: seq<Option<Entry>>, lo: int, hi: int) {
    0 <= lo <= hi <= |snaps| && forall k :: lo <= k < hi ==> snaps[k].None?
  }

  /** None of the first `n` ticks found a complete entry. */
  predicate NoCompleteBefore(snaps: seq<Option<Entry>>, n: int) {
    0 <= n <= |snaps| && forall k :: 0 <= k < n ==> !IsCompleteSnapshot(snaps[k])
  }

  /** The 300 ticks from tick `j` on found no entry. */
  predicate GapAt(snaps: seq<Option<Entry>>, j: int) {
    AbsentBetween(snaps, j, j + MaxTimeout)
  }

  /** No 300 consecutive ticks among the first `n` found no entry. */
  predicate NoLongGap(snaps: seq<Option<Entry>>, n: int) {
    forall j :: 0 <= j && j + MaxTimeout <= n ==> !GapAt(snaps, j)
  }

  /** Where the last 300 ticks of the first `n` begin. */
  function WindowStart(n: int): int {
    if n >= MaxTimeout then n - MaxTimeout else 0
  }

  /** The percentages carried by the progress events. */
  function ProgressPercents(evs: seq<Event>): seq<int> {
    if evs == [] then []
    else (if evs[0].ProgressEvent? then [evs[0].entry.percentage] else []) + ProgressPercents(evs[1..])
  }

  /** The percentages of the entries found, tick by tick. */
  function PresentPercents(snaps: seq<Option<Entry>>): seq<int> {
    if snaps == [] then []
    else (if snaps[0].Some? then [snaps[0].value.percentage] else []) + PresentPercents(snaps[1..])
  }

  /** The reference for emission: each value of `xs` that differs from the
      value before it, the first compared with `last`. */
  function Changes(last: int, xs: seq<int>): seq<int>
    decreases |xs|
  {
    if xs == [] then []
    else if xs[0] != last then [xs[0]] + Changes(xs[0], xs[1..])
    else Changes(last, xs[1..])
  }

  // ---------------------------------------------------------------------------
  // The loop from any state

  lemma {:induction false} ProgressPercentsAppend(a: seq<Event>, b: seq<Event>)
    ensures ProgressPercents(a + b) == ProgressPercents(a) + ProgressPercents(b)
  {
    if a == [] {
      assert a + b == b;
    } else {
      assert (a + b)[0] == a[0];
      assert (a + b)[1..] == a[1..] + b;
      ProgressPercentsAppend(a[1..], b);
    }
  }

  lemma {:induction false} PollEvents(snaps: seq<Option<Entry>>, last: int, counter: nat)
    ensures var r := Poll(snaps, last, counter); WellEnded(r.events, r.ending)
    decreases |snaps|
  {
    if counter < MaxTimeout && snaps != [] {
      PollEvents(snaps[1..], last, counter + 1);
      if snaps[0].Some? {
        var e := snaps[0].value;
        PollEvents(snaps[1..], e.percentage, 0);
        var data := if e.percentage != last then [ProgressEvent(e)] else [];
        var r := Poll(snaps[1..], e.percentage, 0);
        if e.status == Complete {
          assert (data + [CompleteEvent])[..|data|] == data;
        } else if r.events != [] {
          assert (data + r.events)[..|data| + |r.events| - 1] == data + r.events[..|r.events| - 1];
        }
      }
    }
  }

  lemma {:induction false} PollCompletes(snaps: seq<Option<Entry>>, last: int, counter: nat)
    ensures var r := Poll(snaps, last, counter);
      r.ending == EndedComplete ==>
        1 <= r.ticks && IsCompleteSnapshot(snaps[r.ticks - 1]) && NoCompleteBefore(snaps, r.ticks - 1)
    decreases |snaps|
  {
    if counter < MaxTimeout && snaps != [] {
      PollCompletes(snaps[1..], last, counter + 1);
      if snaps[0].Some? {
        PollCompletes(snaps[1..], snaps[0].value.percentage, 0);
      }
    }
  }

  lemma {:induction false} PollTimesOut(snaps: seq<Option<Entry>>, last: int, counter: nat)
    ensures var r := Poll(snaps, last, counter);
      r.ending == EndedTimeout ==>
        && r.ticks + counter >= MaxTimeout
        && AbsentBetween(snaps, WindowStart(r.ticks), r.ticks)
        && NoCompleteBefore(snaps, r.ticks)
    decreases |snaps|
  {
    if counter < MaxTimeout && snaps != [] {
      var rest := snaps[1..];
      if snaps[0].None? {
        PollTimesOut(rest, last, counter + 1);
        var r := Poll(rest, last, counter + 1);
        if r.ending == EndedTimeout {
          var t := r.ticks;
          forall k | WindowStart(t + 1) <= k < t + 1 ensures snaps[k].None? {
            if k > 0 {
              assert snaps[k] == rest[k - 1];
            }
          }
        }
      } else {
        PollTimesOut(rest, snaps[0].value.percentage, 0);
      }
    }
  }

  lemma {:induction false} PollOpen(snaps: seq<Option<Entry>>, last: int, counter: nat)
    ensures var r := Poll(snaps, last, counter);
      r.ending == StillPolling ==> r.ticks == |snaps| && NoCompleteBefore(snaps, |snaps|)
    decreases |snaps|
  {
    if counter < MaxTimeout && snaps != [] {
      PollOpen(snaps[1..], last, counter + 1);
      if snaps[0].Some? {
        PollOpen(snaps[1..], snaps[0].value.percentage, 0);
      }
    }
  }

  lemma {:induction false} PollProgress(snaps: seq<Option<Entry>>, last: int, counter: nat)
    ensures ProgressMatches(snaps, last, counter)
    decreases |snaps|
  {
    var r := Poll(snaps, last, counter);
    if counter >= MaxTimeout || snaps == [] {
      assert snaps[..r.ticks] == [];
      assert ProgressPercents(r.events) == [] by {
        if r.events != [] {
          assert r.events[1..] == [];
        }
      }
    } else if snaps[0].None? {
      PollProgress(snaps[1..], last, counter + 1);
      PollProgressEmptyTick(snaps, last, counter);
    } else if snaps[0].value.status == Complete {
      PollProgressCompleteTick(snaps, last, counter);
    } else {
      PollProgress(snaps[1..], snaps[0].value.percentage, 0);
      PollProgressEntryTick(snaps, last, counter);
    }
  }

  /** The percentages sent by the loop are the changes among those found. */
  predicate ProgressMatches(snaps: seq<Option<Entry>>, last: int, counter: nat) {
    var r := Poll(snaps, last, counter);
    ProgressPercents(r.events) == Changes(last, PresentPercents(snaps[..r.ticks]))
  }

  lemma PollProgressEmptyTick(snaps: seq<Option<Entry>>, last: int, counter: nat)
    requires counter < MaxTimeout && snaps != [] && snaps[0].None?
    requires ProgressMatches(snaps[1..], last, counter + 1)
    ensures ProgressMatches(snaps, last, counter)
  {
    var r := Poll(snaps, last, counter);
    var r' := Poll(snaps[1..], last, counter + 1);
    assert r.ticks == r'.ticks + 1 && r.events == r'.events;
    PresentPercentsCons(snaps, r.ticks);
    assert PresentPercents(snaps[..r.ticks]) == PresentPercents(snaps[1..][..r'.ticks]);
  }

  lemma PollProgressCompleteTick(snaps: seq<Option<Entry>>, last: int, counter: nat)
    requires counter < MaxTimeout && snaps != [] && snaps[0].Some? && snaps[0].value.status == Complete
    ensures ProgressMatches(snaps, last, counter)
  {
    var r := Poll(snaps, last, counter);
    var e := snaps[0].value;
    var data := if e.percentage != last then [ProgressEvent(e)] else [];
    assert r.ticks == 1 && r.events == data + [CompleteEvent];
    assert ProgressPercents(data) == (if e.percentage != last then [e.percentage] else []);
    ProgressPercentsAppend(data, [CompleteEvent]);
    assert ProgressPercents([CompleteEvent]) == [];
    PresentPercentsCons(snaps, 1);
    assert snaps[1..][..0] == [];
  }

  lemma PollProgressEntryTick(snaps: seq<Option<Entry>>, last: int, counter: nat)
    requires counter < MaxTimeout && snaps != [] && snaps[0].Some? && snaps[0].value.status != Complete
    requires ProgressMatches(snaps[1..], snaps[0].value.percentage, 0)
    ensures ProgressMatches(snaps, last, counter)
  {
    var r := Poll(snaps, last, counter);
    var e := snaps[0].value;
    var r' := Poll(snaps[1..], e.percentage, 0);
    var data := if e.percentage != last then [ProgressEvent(e)] else [];
    assert r.ticks == r'.ticks + 1 && r.events == data + r'.events;
    assert ProgressPercents(data) == (if e.percentage != last then [e.percentage] else []);
    ProgressPercentsAppend(data, r'.events);
    PresentPercentsCons(snaps, r.ticks);
  }

  lemma PresentPercentsCons(snaps: seq<Option<Entry>>, n: int)
    requires 1 <= n <= |snaps|
    ensures PresentPercents(snaps[..n]) ==
      (if snaps[0].Some? then [snaps[0].value.percentage] else []) + PresentPercents(snaps[1..][..n - 1])
  {
    assert snaps[..n][0] == snaps[0];
    assert snaps[..n][1..] == snaps[1..][..n - 1];
  }

  lemma {:induction false} PollNeverCreated(snaps: seq<Option<Entry>>, last: int, counter: nat)
    requires counter <= MaxTimeout && counter + |snaps| >= MaxTimeout
    requires AbsentBetween(snaps, 0, |snaps|)
    ensures Poll(snaps, last, counter) == Run([TimeoutEvent], EndedTimeout, MaxTimeout - counter)
    decreases |snaps|
  {
    if counter < MaxTimeout {
      PollNeverCreated(snaps[1..], last, counter + 1);
    }
  }

  /** Consecutive emitted values differ, and the first differs from `last`. */
  lemma {:induction false} ChangesSpec(last: int, xs: seq<int>)
    ensures var c := Changes(last, xs);
      && (c != [] ==> c[0] != last)
      && forall k :: 0 < k < |c| ==> c[k] != c[k - 1]
    decreases |xs|
  {
    if xs != [] {
      if xs[0] != last {
        ChangesSpec(xs[0], xs[1..]);
      } else {
        ChangesSpec(last, xs[1..]);
      }
    }
  }

  // ---------------------------------------------------------------------------
  // Properties of the stream

  /** The stream opens with `connected`, sends only progress events after
      it, and at most one final `complete` or `timeout`, as its last event,
      exactly when it ended that way. */
  lemma PublishShape(snaps: seq<Option<Entry>>)
    ensures var p := Publish(snaps);
      && p.events[0] == ConnectedEvent
      && (forall k :: 0 < k < |p.events| - 1 ==> p.events[k].ProgressEvent?)
      && (p.ending == StillPolling ==> forall k :: 0 < k < |p.events| ==> p.events[k].ProgressEvent?)
      && (p.ending == EndedComplete <==> |p.events| > 1 && p.events[|p.events| - 1] == CompleteEvent)
      && (p.ending == EndedTimeout <==> |p.events| > 1 && p.events[|p.events| - 1] == TimeoutEvent)
  {
    var r := Poll(snaps, -1, 0);
    PollEvents(snaps, -1, 0);
  }

  /** A data event is sent only when the percentage differs from the last one
      sent: the percentages sent are those of the entries found, with
      repeats of the previous value left out. */
  lemma PublishProgress(snaps: seq<Option<Entry>>)
    ensures var p := Publish(snaps);
      var sent := ProgressPercents(p.events);
      && sent == Changes(-1, PresentPercents(snaps[..p.ticks]))
      && forall k :: 0 < k < |sent| ==> sent[k] != sent[k - 1]
  {
    var r := Poll(snaps, -1, 0);
    PollProgress(snaps, -1, 0);
    ProgressPercentsAppend([ConnectedEvent], r.events);
    assert ProgressPercents([ConnectedEvent]) == [];
    ChangesSpec(-1, PresentPercents(snaps[..r.ticks]));
  }

  /** The stream ends with `complete` only at the first tick that finds a
      complete entry. */
  lemma PublishCompletes(snaps: seq<Option<Entry>>)
    ensures var p := Publish(snaps);
      p.ending == EndedComplete ==>
        1 <= p.ticks && IsCompleteSnapshot(snaps[p.ticks - 1]) && NoCompleteBefore(snaps, p.ticks - 1)
  {
    PollCompletes(snaps, -1, 0);
  }

  /** The stream ends with `timeout` only after 300 consecutive ticks without
      an entry, none of the ticks before having found a complete one. */
  lemma PublishTimesOut(snaps: seq<Option<Entry>>)
    ensures var p := Publish(snaps);
      p.ending == EndedTimeout ==>
        && p.ticks >= MaxTimeout && AbsentBetween(snaps, p.ticks - MaxTimeout, p.ticks)
        && snaps[p.ticks - 1].None? && NoCompleteBefore(snaps, p.ticks)
  {
    PollTimesOut(snaps, -1, 0);
  }

  /** A stream still polling at the end of the window has read every tick
      and found no complete entry. */
  lemma PublishOpen(snaps: seq<Option<Entry>>)
    ensures var p := Publish(snaps);
      p.ending == StillPolling ==> p.ticks == |snaps| && NoCompleteBefore(snaps, |snaps|)
  {
    PollOpen(snaps, -1, 0);
  }

  /** Conversely, a complete entry found at tick `t` ends the stream there
      with `complete`, unless an earlier tick found one or 300 consecutive
      earlier ticks found nothing. */
  lemma PublishCompletesWhenSeen(snaps: seq<Option<Entry>>, t: nat)
    requires t < |snaps| && IsCompleteSnapshot(snaps[t])
    requires NoCompleteBefore(snaps, t) && NoLongGap(snaps, t)
    ensures Publish(snaps).ending == EndedComplete && Publish(snaps).ticks == t + 1
  {
    var p := Publish(snaps);
    PublishCompletes(snaps);
    PublishTimesOut(snaps);
    PublishOpen(snaps);
    if p.ending == EndedTimeout {
      assert GapAt(snaps, p.ticks - MaxTimeout);
    }
  }

  /** A subscription to a download that never appears gets `connected` and,
      after 300 ticks, `timeout`. */
  lemma PublishNeverCreated(snaps: seq<Option<Entry>>)
    requires |snaps| >= MaxTimeout && AbsentBetween(snaps, 0, |snaps|)
    ensures Publish(snaps) == Run([ConnectedEvent, TimeoutEvent], EndedTimeout, MaxTimeout)
  {
    PollNeverCreated(snaps, -1, 0);
  }

  /** An entry that stays present but never completes (a failed download
      leaves its last entry behind) keeps the stream open for as long as it
      is watched: no terminal event is ever sent. */
  lemma PublishStuck(snaps: seq<Option<Entry>>)
    requires forall k :: 0 <= k < |snaps| ==> snaps[k].Some? && snaps[k].value.status != Complete
    ensures var p := Publish(snaps);
      p.ending == StillPolling && p.ticks == |snaps|
      && forall k :: 0 < k < |p.events| ==> p.events[k].ProgressEvent?
  {
    var p := Publish(snaps);
    PublishShape(snaps);
    PublishCompletes(snaps);
    PublishTimesOut(snaps);
    PublishOpen(snaps);
  }
}
