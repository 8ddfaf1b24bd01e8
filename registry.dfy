/**
 * The progress registry `download_progress`: a table from download id to the
 * latest progress entry, overwritten in place by the download handler and by
 * yt-dlp's progress hook, and emptied by a cleanup task.
 */
module Registry {
  import opened Wrappers

  datatype Status = Initializing | Downloading | Processing | Complete

  /** One registry entry. `downloaded` and `total` are present only where the
      source writes them; the speed and ETA fields are not modelled. */
  datatype Entry = Entry(status: Status, percentage: int, downloaded: Option<int>, total: Option<int>)

  /** Written by the download handler before the worker runs (main.py:611). */
  const InitialEntry := Entry(Initializing, 1, None, None)

  /** Written by the download handler after the worker succeeds (main.py:616). */
  const CompleteEntry := Entry(Complete, 100, None, None)

  /** Written by the hook when yt-dlp reports `finished` (main.py:157-160). */
  const ProcessingEntry := Entry(Processing, 100, None, None)

  /** What yt-dlp hands the progress hook; `None` is a missing key. For a
      `downloading` report, `percentage` is the hook's
      `int((downloaded / total) * 100)`, given as an input. */
  datatype HookEvent =
    | DownloadingReport(downloadedBytes: Option<int>, totalBytes: Option<int>, totalBytesEstimate: Option<int>, percentage: int)
    | FinishedReport
    | OtherReport

  /** `d.get('total_bytes') or d.get('total_bytes_estimate', 0)` */
  function ReportTotal(totalBytes: Option<int>, totalBytesEstimate: Option<int>): int {
    if IsTruthy(totalBytes) then totalBytes.value
    else if totalBytesEstimate.Some? then totalBytesEstimate.value
    else 0
  }

  /** The entry the hook writes for a report, if any (main.py:134-160). */
  function HookEntry(ev: HookEvent): Option<Entry> {
    match ev
    case DownloadingReport(downloadedBytes, totalBytes, estimate, percentage) =>
      var total := ReportTotal(totalBytes, estimate);
      var downloaded := if downloadedBytes.Some? then downloadedBytes.value else 0;
      if total > 0 then Some(Entry(Downloading, percentage, Some(downloaded), Some(total)))
      else Some(Entry(Downloading, 0, Some(downloaded), None))
    case FinishedReport => Some(ProcessingEntry)
    case OtherReport => None
  }

  /** The registry after one hook call for `downloadId` (`if download_id:`). */
  function ApplyHook(m: map<string, Entry>, downloadId: Option<string>, ev: HookEvent): map<string, Entry> {
    if IsPresent(downloadId) && HookEntry(ev).Some? then m[downloadId.value := HookEntry(ev).value] else m
  }

  /** The registry after the hook has seen `evs`, in order. */
  function ApplyHooks(m: map<string, Entry>, downloadId: Option<string>, evs: seq<HookEvent>): map<string, Entry> {
    if evs == [] then m
    else ApplyHook(ApplyHooks(m, downloadId, evs[..|evs| - 1]), downloadId, evs[|evs| - 1])
  }

  /** The table `download_progress`. */
  class ProgressRegistry {
    var entries: map<string, Entry>

    /** The empty table of a freshly started server. */
    constructor()
      ensures entries == map[]
    {
      entries := map[];
    }

    /** `download_progress.get(id)` */
    function Lookup(id: string): Option<Entry>
      reads this
    {
      if id in entries then Some(entries[id]) else None
    }

    /** `download_progress[id] = e`, as the download handler does it. */
    method Put(id: string, e: Entry)
      modifies this
      ensures entries == old(entries)[id := e]
    {
      entries := entries[id := e];
    }

    /** `progress_hook` of the download run for `downloadId`. */
    method Hook(downloadId: Option<string>, ev: HookEvent)
      modifies this
      ensures entries == ApplyHook(old(entries), downloadId, ev)
    {
      if downloadId.Some? && downloadId.value != [] {
        var id := downloadId.value;
        match ev {
          case DownloadingReport(downloadedBytes, totalBytes, estimate, percentage) =>
            var total := if totalBytes.Some? && totalBytes.value != 0 then totalBytes.value
                         else if estimate.Some? then estimate.value else 0;
            var downloaded := if downloadedBytes.Some? then downloadedBytes.value else 0;
            if total > 0 {
              entries := entries[id := Entry(Downloading, percentage, Some(downloaded), Some(total))];
            } else {
              entries := entries[id := Entry(Downloading, 0, Some(downloaded), None)];
            }
          case FinishedReport =>
            entries := entries[id := ProcessingEntry];
          case OtherReport =>
        }
      }
    }

    /** `download_progress.pop(id, None)`: the cleanup task (main.py:619-621). */
    method Cleanup(id: string)
      modifies this
      ensures entries == old(entries) - {id}
    {
      entries := entries - {id};
    }
  }

  // ---------------------------------------------------------------------------
  // Properties

  /** Without a download id the hook writes nothing; with one it writes that
      key only, and every other key keeps its entry. */
  lemma HookWritesOnlyItsKey(m: map<string, Entry>, downloadId: Option<string>, ev: HookEvent)
    ensures !IsPresent(downloadId) ==> ApplyHook(m, downloadId, ev) == m
    ensures var r := ApplyHook(m, downloadId, ev);
      forall k :: k != (if downloadId.Some? then downloadId.value else []) ==>
        (k in r <==> k in m) && (k in m ==> r[k] == m[k])
  {
  }

  /** A report replaces the whole entry: what was there before has no
      influence on what is there after. */
  lemma HookReplacesWholeEntry(m1: map<string, Entry>, m2: map<string, Entry>, id: string, ev: HookEvent)
    requires id != [] && !ev.OtherReport?
    ensures id in ApplyHook(m1, Some(id), ev) && id in ApplyHook(m2, Some(id), ev)
    ensures ApplyHook(m1, Some(id), ev)[id] == ApplyHook(m2, Some(id), ev)[id]
  {
  }

  /** What the hook writes: `finished` gives `{processing, 100}`; a
      `downloading` report with no positive total gives percentage 0 and no
      total; with a positive total it gives the reported percentage. */
  lemma HookEntrySpec(ev: HookEvent)
    ensures ev.FinishedReport? ==> HookEntry(ev) == Some(Entry(Processing, 100, None, None))
    ensures ev.OtherReport? ==> HookEntry(ev).None?
    ensures ev.DownloadingReport? ==>
      var total := ReportTotal(ev.totalBytes, ev.totalBytesEstimate);
      && HookEntry(ev).Some? && HookEntry(ev).value.status == Downloading
      && (total <= 0 ==> HookEntry(ev).value.percentage == 0 && HookEntry(ev).value.total.None?)
      && (total > 0 ==> HookEntry(ev).value.percentage == ev.percentage && HookEntry(ev).value.total == Some(total))
  {
  }

  /** Percentages are not clamped: a `downloading` report without totals
      takes an entry from the initial 1 down to 0, whatever it reports. */
  lemma PercentageCanDrop(m: map<string, Entry>, id: string, downloaded: Option<int>, reported: int)
    requires id != []
    ensures var r := ApplyHook(m[id := InitialEntry], Some(id), DownloadingReport(downloaded, None, None, reported));
      id in r && r[id].percentage == 0 < InitialEntry.percentage
  {
  }

  /** Hook calls for a download never remove its entry: once written, the
      key stays in the registry until the cleanup task pops it. */
  lemma {:induction false} ApplyHooksKeepsKey(m: map<string, Entry>, id: string, evs: seq<HookEvent>)
    requires id in m
    ensures id in ApplyHooks(m, Some(id), evs)
  {
    if evs != [] {
      ApplyHooksKeepsKey(m, id, evs[..|evs| - 1]);
    }
  }

  /** Any number of hook calls for one download leave every other key alone. */
  lemma {:induction false} ApplyHooksFrame(m: map<string, Entry>, id: string, evs: seq<HookEvent>)
    ensures var r := ApplyHooks(m, Some(id), evs);
      forall k :: k != id ==> (k in r <==> k in m) && (k in m ==> r[k] == m[k])
  {
    if evs != [] {
      ApplyHooksFrame(m, id, evs[..|evs| - 1]);
      HookWritesOnlyItsKey(ApplyHooks(m, Some(id), evs[..|evs| - 1]), Some(id), evs[|evs| - 1]);
    }
  }
}
