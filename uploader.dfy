/**
 * `upload` and `send_snapshot` (btrtb/upload.py): resolve the requested Snapper snapshot,
 * skip it when the remote side already has its date, otherwise send it (incrementally
 * against the latest common snapshot when there is one) and publish it by renaming the
 * received temporary subvolume to its timestamped path.
 *
 * External effects are inputs and outputs: the local snapshot list, the entries of the
 * remote `ls -1` listing and the exit statuses of the send pipeline and of the remote `mv`
 * are parameters, and the commands the code would run come back as a trace of actions.
 */
module Uploader {
  import opened Wrappers
  import opened Instants
  import opened Helpers
  import opened Reconciler

  /** The exceptions `upload` and `send_snapshot` let escape. */
  datatype Error =
    | NoSnapshotYet                      // RuntimeError: Snapper lists no snapshot
    | SnapshotNotFound                   // IndexError: no snapshot has the requested number
    | UndatedSnapshot                    // ValueError: `fromisoformat('')` on a record without a date
    | MalformedRemotePath(path: string)  // ValueError: a remote entry is not a timestamp
    | SendFailed(status: int)            // CalledProcessError of the send | receive pipeline
    | RenameFailed(status: int)          // CalledProcessError of the remote `mv`

  /** `btrfs send -p {parent}` or a plain `btrfs send`. */
  datatype SendMode = Full | Incremental(parent: int)

  /** The external commands, in the order they are run. */
  datatype Action =
    | Send(snapshot: int, mode: SendMode)
    | Rename(source: string, target: string)

  datatype Outcome = Skipped | Uploaded | Failed(error: Error)

  /** `get_latest_snapshot_obj`: the position of the record with the greatest number, the first such on ties. */
  function LatestIndex(locals: seq<LocalSnapshot>): (r: Option<nat>)
    ensures r.None? <==> |locals| == 0
    ensures r.Some? ==> && r.value < |locals|
                        && (forall j :: 0 <= j < |locals| ==> locals[j].number <= locals[r.value].number)
                        && (forall j :: 0 <= j < r.value ==> locals[j].number < locals[r.value].number)
  {
    if |locals| == 0 then None
    else
      var last := |locals| - 1;
      var front := locals[..last];
      assert forall j :: 0 <= j < last ==> locals[j] == front[j];
      match LatestIndex(front)
      case None => Some(0)
      case Some(k) => if locals[last].number > locals[k].number then Some(last) else Some(k)
  }

  /** `[s for s in list if s['number'] == number][0]`: the first record with that number, None for the IndexError. */
  function FirstIndexOfNumber(locals: seq<LocalSnapshot>, number: int): (r: Option<nat>)
    ensures r.None? <==> forall j :: 0 <= j < |locals| ==> locals[j].number != number
    ensures r.Some? ==> && r.value < |locals| && locals[r.value].number == number
                        && forall j :: 0 <= j < r.value ==> locals[j].number != number
  {
    if |locals| == 0 then None
    else if locals[0].number == number then Some(0)
    else
      match FirstIndexOfNumber(locals[1..], number)
      case None => None
      case Some(k) => Some(k + 1)
  }

  /** A record that no earlier record shares its number with is the one the lookup by number finds. */
  lemma FirstIndexOfNumberAt(locals: seq<LocalSnapshot>, k: nat)
    requires k < |locals|
    requires forall j :: 0 <= j < k ==> locals[j].number != locals[k].number
    ensures FirstIndexOfNumber(locals, locals[k].number) == Some(k)
  {
  }

  /**
   * The first lines of `upload`: number 0 resolves to the latest snapshot by number
   * (RuntimeError when there is none), any other number to the first record carrying it
   * (IndexError when there is none).
   */
  function Resolve(requested: int, locals: seq<LocalSnapshot>): (r: Result<LocalSnapshot, Error>)
    ensures requested == 0 ==> (r.Failure? <==> |locals| == 0)
    ensures requested != 0 ==> (r.Failure? <==> forall j :: 0 <= j < |locals| ==> locals[j].number != requested)
    ensures r.Failure? ==> r.error == (if requested == 0 then NoSnapshotYet else SnapshotNotFound)
    ensures r.Success? && requested != 0 ==> r.value.number == requested
    ensures r.Success? && requested == 0 ==> forall j :: 0 <= j < |locals| ==> locals[j].number <= r.value.number
    ensures r.Success? ==> var f := FirstIndexOfNumber(locals, r.value.number);
                           f.Some? && locals[f.value] == r.value
  {
    if requested == 0 then
      match LatestIndex(locals)
      case None => Failure(NoSnapshotYet)
      case Some(k) =>
        assert forall j :: 0 <= j < k ==> locals[j].number != locals[k].number;
        FirstIndexOfNumberAt(locals, k);
        Success(locals[k])
    else
      match FirstIndexOfNumber(locals, requested)
      case None => Failure(SnapshotNotFound)
      case Some(k) => Success(locals[k])
  }

  /** `get_datetime_from_local_snapshot`: the date of the first record with that number. */
  function LocalSnapshotDate(locals: seq<LocalSnapshot>, number: int): (r: Result<Instant, Error>)
    ensures (forall j :: 0 <= j < |locals| ==> locals[j].number != number) ==> r == Failure(SnapshotNotFound)
    ensures forall k :: && 0 <= k < |locals| && locals[k].number == number
                        && (forall j :: 0 <= j < k ==> locals[j].number != number)
                        ==> r == (if locals[k].date.Some? then Success(locals[k].date.value) else Failure(UndatedSnapshot))
  {
    match FirstIndexOfNumber(locals, number)
    case None => Failure(SnapshotNotFound)
    case Some(k) =>
      assert forall k' :: (&& 0 <= k' < |locals| && locals[k'].number == number
                           && (forall j :: 0 <= j < k' ==> locals[j].number != number)) ==> k' == k;
      if locals[k].date.Some? then Success(locals[k].date.value) else Failure(UndatedSnapshot)
  }

  /** A list comprehension that decodes every element, stopping at the first one `decode` rejects. */
  function DecodeEach(paths: seq<string>, decode: string -> Option<Instant>): (r: Result<seq<Instant>, nat>)
    ensures r.Success? ==> |r.value| == |paths| && forall i :: 0 <= i < |paths| ==> decode(paths[i]) == Some(r.value[i])
    ensures r.Failure? ==> && r.error < |paths| && decode(paths[r.error]).None?
                           && forall j :: 0 <= j < r.error ==> decode(paths[j]).Some?
  {
    if |paths| == 0 then Success([])
    else
      var head := decode(paths[0]);
      if head.None? then Failure(0)
      else
        var rest := DecodeEach(paths[1..], decode);
        assert forall i :: 1 <= i < |paths| ==> paths[i] == paths[1..][i - 1];
        if rest.Success? then
          var ts := [head.value] + rest.value;
          assert forall i :: 1 <= i < |paths| ==> ts[i] == rest.value[i - 1];
          Success(ts)
        else
          assert paths[rest.error + 1] == paths[1..][rest.error];
          Failure(rest.error + 1)
  }

  /** Decoding one more element: the list still decodes exactly when the new element does. */
  lemma {:induction false} DecodeEachAppend(paths: seq<string>, x: string, decode: string -> Option<Instant>)
    requires DecodeEach(paths, decode).Success?
    ensures DecodeEach(paths + [x], decode)
            == if decode(x).Some? then Success(DecodeEach(paths, decode).value + [decode(x).value])
               else Failure(|paths|)
    decreases |paths|
  {
    if |paths| == 0 {
      assert paths + [x] == [x] && [x][1..] == [];
      assert DecodeEach([x][1..], decode) == Success([]);
      if decode(x).Some? {
        assert [decode(x).value] + [] == [] + [decode(x).value];
      }
    } else {
      assert (paths + [x])[0] == paths[0] && (paths + [x])[1..] == paths[1..] + [x];
      var head := decode(paths[0]).value;
      DecodeEachAppend(paths[1..], x, decode);
      if decode(x).Some? {
        assert [head] + (DecodeEach(paths[1..], decode).value + [decode(x).value])
               == ([head] + DecodeEach(paths[1..], decode).value) + [decode(x).value];
      }
    }
  }

  /**
   * `[get_datetime_from_remote_snapshot_path(p) for p in paths]`: every path decoded, or
   * the position of the first one that raises ValueError.
   */
  function DecodeAll(paths: seq<string>): (r: Result<seq<Instant>, nat>)
    ensures r.Success? ==> |r.value| == |paths| && forall i :: 0 <= i < |paths| ==> Decode(paths[i]) == Some(r.value[i])
    ensures r.Failure? ==> && r.error < |paths| && Decode(paths[r.error]).None?
                           && forall j :: 0 <= j < r.error ==> Decode(paths[j]).Some?
  {
    DecodeEach(paths, Decode)
  }

  /** The entry `btrfs receive` creates: `snapshot`. */
  const TempName: string := "snapshot"

  /**
   * Where `btrfs receive` puts the incoming snapshot, before it is renamed: `{root}/{config}/snapshot`.
   * Its last segment is the temporary name, which is never read as a published snapshot.
   */
  function TempPath(backupRoot: string, config: string): (path: string)
    ensures path == backupRoot + "/" + config + "/" + LastSegment(path)
    ensures LastSegment(path) == TempName
    ensures Decode(path) == None
  {
    LastSegmentAfterSlash(backupRoot + "/" + config, TempName);
    LastSegmentOfBare(TempName);
    TempNameIsNotATimestamp();
    backupRoot + "/" + config + "/" + TempName
  }

  lemma TempNameIsNotATimestamp()
    ensures Decode(TempName) == None
  {
    DecodeBare(TempName);
  }

  /**
   * A listing that still holds the temporary name of an interrupted upload does not decode:
   * `snapshot` is not a timestamp, so the path decoder fails at that entry.
   */
  lemma OrphanedTempName(names: seq<string>)
    requires DecodeAll(names).Success?
    ensures DecodeAll(names + [TempName]) == Failure(|names|)
  {
    TempNameIsNotATimestamp();
    DecodeEachAppend(names, TempName, Decode);
  }

  /** Every rename in the trace comes right after a send. */
  ghost predicate PublishedAfterSend(trace: seq<Action>) {
    forall k :: 0 <= k < |trace| && trace[k].Rename? ==> k > 0 && trace[k - 1].Send?
  }

  /**
   * `send_snapshot`: send in full, or incrementally when `parent > 0`; when the send
   * exits with a non-zero status, stop there; otherwise look up the snapshot's date again
   * and rename the received temporary subvolume to the timestamped path.
   */
  method SendSnapshot(number: int, config: string, backupRoot: string, parent: int, locals: seq<LocalSnapshot>,
                      sendStatus: int, renameStatus: int)
    returns (outcome: Outcome, trace: seq<Action>)
    ensures |trace| >= 1 && trace[0] == Send(number, if parent > 0 then Incremental(parent) else Full)
    ensures sendStatus != 0 ==> trace == [trace[0]] && outcome == Failed(SendFailed(sendStatus))
    ensures sendStatus == 0 ==>
              match LocalSnapshotDate(locals, number)
              case Failure(e) => trace == [trace[0]] && outcome == Failed(e)
              case Success(d) =>
                && trace == [trace[0], Rename(TempPath(backupRoot, config), Encode(backupRoot, config, d))]
                && outcome == (if renameStatus == 0 then Uploaded else Failed(RenameFailed(renameStatus)))
    ensures PublishedAfterSend(trace)
    ensures forall k :: 0 <= k < |trace| && trace[k].Rename? ==>
              sendStatus == 0 && LocalSnapshotDate(locals, number).Success?
  {
    var mode := if parent > 0 then Incremental(parent) else Full;
    trace := [Send(number, mode)];
    if sendStatus != 0 {
      return Failed(SendFailed(sendStatus)), trace;
    }
    var date := LocalSnapshotDate(locals, number);
    if date.Failure? {
      return Failed(date.error), trace;
    }
    var target := Encode(backupRoot, config, date.value);
    trace := trace + [Rename(TempPath(backupRoot, config), target)];
    if renameStatus != 0 {
      outcome := Failed(RenameFailed(renameStatus));
    } else {
      outcome := Uploaded;
    }
  }

  /**
   * What `upload` decides before it runs any command: abort with the exception it raises,
   * skip because the remote side has the snapshot's date, or transfer a snapshot with the
   * parent the reconciler picks.
   */
  datatype Decision = Skip | Abort(error: Error) | Transfer(number: int, date: Instant, parent: nat)

  /**
   * The decision of `upload`: resolve, read the snapshot's date, decode the remote listing,
   * skip when the date is already there, otherwise take the latest common snapshot no later
   * than the snapshot's own date as parent.
   */
  function Decide(requested: int, locals: seq<LocalSnapshot>, paths: seq<string>): (d: Decision)
    ensures var resolved := Resolve(requested, locals);
            resolved.Failure? ==> d == Abort(resolved.error)
    ensures var resolved := Resolve(requested, locals);
            resolved.Success? && resolved.value.date.None? ==> d == Abort(UndatedSnapshot)
    ensures var resolved := Resolve(requested, locals);
            resolved.Success? && resolved.value.date.Some? && DecodeAll(paths).Failure? ==>
              d == Abort(MalformedRemotePath(paths[DecodeAll(paths).error]))
    ensures var resolved, decoded := Resolve(requested, locals), DecodeAll(paths);
            resolved.Success? && resolved.value.date.Some? && decoded.Success? ==>
              (d == Skip <==> resolved.value.date.value in decoded.value)
    ensures var resolved, decoded := Resolve(requested, locals), DecodeAll(paths);
            d.Transfer? ==>
              && resolved.Success? && d.number == resolved.value.number && resolved.value.date == Some(d.date)
              && decoded.Success? && d.date !in decoded.value
              && d.parent == LatestCommonNumber(locals, decoded.value, d.date)
  {
    match Resolve(requested, locals)
    case Failure(e) => Abort(e)
    case Success(snapshot) =>
      match snapshot.date
      case None => Abort(UndatedSnapshot)
      case Some(date) =>
        match DecodeAll(paths)
        case Failure(at) => Abort(MalformedRemotePath(paths[at]))
        case Success(remoteDates) =>
          if date in remoteDates then Skip
          else Transfer(snapshot.number, date, LatestCommonNumber(locals, remoteDates, date))
  }

  /**
   * `upload`: make the decision, running the reconciler's merge loop for the parent, then
   * `send_snapshot` when there is something to transfer.
   */
  method Upload(requested: int, config: string, backupRoot: string, locals: seq<LocalSnapshot>, paths: seq<string>,
                sendStatus: int, renameStatus: int)
    returns (outcome: Outcome, trace: seq<Action>)
    ensures match Decide(requested, locals, paths)
            case Skip => outcome == Skipped && trace == []
            case Abort(e) => outcome == Failed(e) && trace == []
            case Transfer(number, date, parent) =>
              && |trace| >= 1
              && trace[0] == Send(number, if parent > 0 then Incremental(parent) else Full)
              && (sendStatus != 0 ==> trace == [trace[0]] && outcome == Failed(SendFailed(sendStatus)))
              && (sendStatus == 0 ==>
                    && trace == [trace[0], Rename(TempPath(backupRoot, config), Encode(backupRoot, config, date))]
                    && outcome == (if renameStatus == 0 then Uploaded else Failed(RenameFailed(renameStatus))))
    ensures PublishedAfterSend(trace)
    ensures forall k :: 0 <= k < |trace| && trace[k].Rename? ==> sendStatus == 0
  {
    var resolved := Resolve(requested, locals);
    if resolved.Failure? {
      return Failed(resolved.error), [];
    }
    var snapshot := resolved.value;
    if snapshot.date.None? {
      return Failed(UndatedSnapshot), [];
    }
    var snapshotDate := snapshot.date.value;
    var decoded := DecodeAll(paths);
    if decoded.Failure? {
      return Failed(MalformedRemotePath(paths[decoded.error])), [];
    }
    var remoteDates := decoded.value;
    if snapshotDate in remoteDates {
      return Skipped, [];
    }
    var parent;
    ghost var iterations;
    parent, iterations := LatestCommonSnapshotNumber(locals, remoteDates, snapshotDate);
    assert Decide(requested, locals, paths) == Transfer(snapshot.number, snapshotDate, parent);
    assert LocalSnapshotDate(locals, snapshot.number) == Success(snapshotDate);
    outcome, trace := SendSnapshot(snapshot.number, config, backupRoot, parent, locals, sendStatus, renameStatus);
  }

  /** The entry a published snapshot adds to the `ls -1` listing is its timestamp. */
  lemma PublishedEntry(backupRoot: string, config: string, t: Instant)
    ensures LastSegment(Encode(backupRoot, config, t)) == FormatTimestamp(t)
    ensures IsEntryName(FormatTimestamp(t)) && Decode(FormatTimestamp(t)) == Some(t)
  {
    var ts := FormatTimestamp(t);
    assert Encode(backupRoot, config, t) == (backupRoot + "/" + config) + "/" + ts;
    LastSegmentAfterSlash(backupRoot + "/" + config, ts);
    WellFormedIsOneSegment(ts);
    LastSegmentOfBare(ts);
    DecodeBare(ts);
    ParseFormat(t);
  }

  /** The entry of a published snapshot adds exactly its date to the decoded listing. */
  lemma PublishedIsListed(names: seq<string>, backupRoot: string, config: string, t: Instant)
    requires DecodeAll(names).Success?
    ensures var after := DecodeAll(names + [LastSegment(Encode(backupRoot, config, t))]);
            after == Success(DecodeAll(names).value + [t]) && t in after.value
  {
    PublishedEntry(backupRoot, config, t);
    DecodeEachAppend(names, FormatTimestamp(t), Decode);
    assert (DecodeAll(names).value + [t])[|names|] == t;
  }

  /** After a transfer is published, the same request on the new listing decides to skip. */
  lemma SkipAfterPublish(requested: int, locals: seq<LocalSnapshot>, names: seq<string>,
                         backupRoot: string, config: string)
    requires Decide(requested, locals, names).Transfer?
    ensures var published := Encode(backupRoot, config, Decide(requested, locals, names).date);
            Decide(requested, locals, names + [LastSegment(published)]) == Skip
  {
    PublishedIsListed(names, backupRoot, config, Decide(requested, locals, names).date);
  }

  /** A transfer whose rename failed leaves `snapshot` behind: the same request then aborts on it. */
  lemma AbortOnOrphan(requested: int, locals: seq<LocalSnapshot>, names: seq<string>)
    requires Decide(requested, locals, names).Transfer?
    ensures Decide(requested, locals, names + [TempName]) == Abort(MalformedRemotePath(TempName))
  {
    OrphanedTempName(names);
    assert (names + [TempName])[|names|] == TempName;
  }

  /** `upload` again after the transfer it decided was published: it skips, running nothing. */
  method RerunAfterPublish(requested: int, config: string, backupRoot: string, locals: seq<LocalSnapshot>,
                           names: seq<string>, sendStatus: int, renameStatus: int)
    returns (outcome: Outcome, trace: seq<Action>)
    requires Decide(requested, locals, names).Transfer?
    ensures outcome == Skipped && trace == []
  {
    SkipAfterPublish(requested, locals, names, backupRoot, config);
    var entry := LastSegment(Encode(backupRoot, config, Decide(requested, locals, names).date));
    outcome, trace := Upload(requested, config, backupRoot, locals, names + [entry], sendStatus, renameStatus);
  }

  /** `upload` again after the transfer it decided was received but not renamed: it aborts on `snapshot`. */
  method RerunAfterOrphan(requested: int, config: string, backupRoot: string, locals: seq<LocalSnapshot>,
                          names: seq<string>, sendStatus: int, renameStatus: int)
    returns (outcome: Outcome, trace: seq<Action>)
    requires Decide(requested, locals, names).Transfer?
    ensures outcome == Failed(MalformedRemotePath(TempName)) && trace == []
  {
    AbortOnOrphan(requested, locals, names);
    outcome, trace := Upload(requested, config, backupRoot, locals, names + [TempName], sendStatus, renameStatus);
  }

  /** `upload` again when the first run skipped: nothing has changed, so it skips again. */
  method RerunAfterSkip(requested: int, config: string, backupRoot: string, locals: seq<LocalSnapshot>,
                        names: seq<string>, sendStatus: int, renameStatus: int)
    returns (outcome: Outcome, trace: seq<Action>)
    requires Decide(requested, locals, names).Skip?
    ensures outcome == Skipped && trace == []
  {
    outcome, trace := Upload(requested, config, backupRoot, locals, names, sendStatus, renameStatus);
  }

  /**
   * One `upload`, seen only through its outcome: an upload that published, or whose rename
   * failed, decided a transfer; one that skipped decided to skip.
   */
  method UploadOutcome(requested: int, config: string, backupRoot: string, locals: seq<LocalSnapshot>,
                       names: seq<string>, sendStatus: int, renameStatus: int)
    returns (outcome: Outcome)
    ensures outcome == Uploaded ==> Decide(requested, locals, names).Transfer? && sendStatus == 0 && renameStatus == 0
    ensures outcome.Failed? && outcome.error.RenameFailed? ==>
              Decide(requested, locals, names).Transfer? && sendStatus == 0 && renameStatus != 0
    ensures outcome == Skipped <==> Decide(requested, locals, names).Skip?
  {
    var trace;
    outcome, trace := Upload(requested, config, backupRoot, locals, names, sendStatus, renameStatus);
    var decision := Decide(requested, locals, names);
    if decision.Abort? {
      var resolved := Resolve(requested, locals);
      assert resolved.Failure? ==> resolved.error.NoSnapshotYet? || resolved.error.SnapshotNotFound?;
      assert !decision.error.RenameFailed?;
    }
  }

  /**
   * Two runs of `upload` for the same request and the same local snapshots, the second
   * listing the remote directory as the first run's commands left it: a completed send
   * leaves the received subvolume under the name `snapshot` until the rename replaces it
   * by the timestamp. A completed upload makes the next run a skip; a failed rename leaves
   * an entry that makes the next run fail before any transfer.
   */
  method UploadAgain(requested: int, config: string, backupRoot: string, locals: seq<LocalSnapshot>,
                     names: seq<string>, sendStatus: int, renameStatus: int)
    returns (first: Outcome, second: Outcome, secondTrace: seq<Action>)
    ensures first == Uploaded ==> second == Skipped && secondTrace == []
    ensures first.Failed? && first.error.RenameFailed? ==>
              second == Failed(MalformedRemotePath(TempName)) && secondTrace == []
    ensures first == Skipped ==> second == Skipped && secondTrace == []
  {
    first := UploadOutcome(requested, config, backupRoot, locals, names, sendStatus, renameStatus);
    if first == Uploaded {
      second, secondTrace := RerunAfterPublish(requested, config, backupRoot, locals, names, sendStatus, renameStatus);
    } else if first.Failed? && first.error.RenameFailed? {
      second, secondTrace := RerunAfterOrphan(requested, config, backupRoot, locals, names, sendStatus, renameStatus);
    } else if first == Skipped {
      second, secondTrace := RerunAfterSkip(requested, config, backupRoot, locals, names, sendStatus, renameStatus);
    } else {
      second, secondTrace := Upload(requested, config, backupRoot, locals, names, sendStatus, renameStatus);
    }
  }
}
