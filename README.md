# btrtb upload core in Dafny

btrtb copies Btrfs snapshots made by Snapper to a remote host over SSH. This project
models the part of it that decides what to send and where to publish it:

- **The remote naming scheme** (`btrtb/helpers.py`). A published remote snapshot lives at
  `{REMOTE_BACKUP_PATH}/{config}/{timestamp}`. The timestamp is the snapshot's UTC creation
  time written as `%Y-%m-%d_%H:%M:%S`. Decoding takes the text after the last `/` and parses
  it back, failing with ValueError on anything else. The splitter turns the bytes printed by
  `ls -1` into entry names.
- **The reconciler** `get_latest_common_snapshot_number` (`btrtb/upload.py`). It finds the
  most recent snapshot, no later than a cutoff, whose creation date is present both
  locally and on the remote side. That snapshot is the parent of an incremental send.
  The source runs this as a two-cursor merge over two lists sorted most recent first, and
  the model keeps that loop.
- **The orchestration** `upload` and `send_snapshot`. They resolve the requested snapshot,
  skip it when the remote side already has its date, and otherwise send it (incrementally
  when a common parent exists). After a successful send they rename the received
  temporary subvolume `{root}/{config}/snapshot` to its timestamped path.

Modules, one per concern:

- `instants.dfy` (`Instants`): Python `datetime` values at second precision, valid
  Gregorian dates only, with the chronological order and its laws.
- `helpers.dfy` (`Helpers`): the timestamp format, the path codec and the listing splitter.
- `sorting.dfy` (`Sorting`): the descending sort that `list.sort(key=…, reverse=True)`
  performs. Its contract is the permutation and the order; of stability it proves what the
  reconciler relies on, that the first element with each key stays first.
- `reconciler.dfy` (`Reconciler`): an independent reference definition of the answer, and
  the merge loop proved equal to it.
- `uploader.dfy` (`Uploader`): `upload` and `send_snapshot` as methods.
- `wrappers.dfy` (`Wrappers`): `Option` and `Result`.

External effects are parameters. The local snapshot list is a sequence of records: number,
plus an optional date (absent when Snapper prints an empty date). The remote listing is a
sequence of entry names. The exit statuses of the send pipeline and of the remote `mv` are
integers. The commands the code would run come back as a trace of `Send` and `Rename`
actions. Every exception that the modelled inputs can cause is an `Error` value in the outcome.

Where the code and its documentation disagree, the model follows the code:

- `get_latest_snapshot_obj` takes the maximum of **all** records by number, undated ones
  included. On ties Python's `max` keeps the first, so the model returns the first maximum.
- When the resolved snapshot has no date, `fromisoformat('')` raises ValueError before
  anything is sent (`UndatedSnapshot`).
- RuntimeError ("no snapshot yet") is raised only when Snapper lists no record at all.
- `send_snapshot` looks the snapshot's date up again by number. It finds the first
  record with that number; `upload` resolves to that same record.

## Model

| member | source | states |
|---|---|---|
| Helpers.FormatTimestamp | btrtb/helpers.py:27 | The rendering of an instant is a well-formed 19-character timestamp whose fields read back as that instant |
| Helpers.ParseTimestamp | btrtb/helpers.py:66-67 | `strptime` accepts a string exactly when it is the formatting of some instant, and then returns that instant |
| Helpers.Encode | btrtb/helpers.py:30-47 | The remote path is the instant's timestamp as an entry of the directory `{root}/{config}`, and it decodes back to the instant |
| Helpers.Decode | btrtb/helpers.py:50-67 | When a path decodes, the instant it gives is the one whose timestamp is the path's last segment |
| Helpers.ParseFormat | btrtb/helpers.py:46-67 | Parsing the formatted timestamp of any instant gives that instant back |
| Helpers.FormatParse | btrtb/helpers.py:27 | Any string that parses is exactly the formatting of what it parses to, so the accepted format is canonical |
| Helpers.SameFieldsSameText | btrtb/helpers.py:27 | Two well-formed timestamps that spell the same six fields are the same string |
| Helpers.LastSegment | btrtb/helpers.py:63 | `rpartition('/')[2]` is a suffix of the path that holds no `/`, and it is preceded by `/` whenever it is shorter than the path |
| Helpers.DecodeIgnoresPrefix | btrtb/helpers.py:63 | Decoding a path looks only at the text after its last `/` |
| Helpers.DecodeBare | btrtb/helpers.py:63-66 | A path without `/` is parsed as the timestamp itself |
| Helpers.DecodeEncode | btrtb/helpers.py:46-67 | Decoding the remote path built for an instant gives that instant, for every backup root and configuration name |
| Helpers.DecodeExactlyFormatted | btrtb/helpers.py:63-67 | A path decodes to an instant exactly when its last segment is the formatting of that instant |
| Helpers.DecodeRejectsLength | btrtb/helpers.py:60-66 | Whatever precedes it, a last segment that is not 19 characters long raises ValueError (None) |
| Helpers.DecodeSpelled | btrtb/helpers.py:66-67 | Six fields written in the format's widths decode exactly when they form a valid date and time, and then to those fields |
| Helpers.DecodeRejectsCalendar | btrtb/helpers.py:60-66 | A well-formed timestamp naming 29 February of a common year raises ValueError |
| Helpers.DecodeAcceptsLeapDay | btrtb/helpers.py:66-67 | 29 February of a leap year is accepted, up to its last second, and read field by field |
| Helpers.SplitLines | btrtb/helpers.py:93 | `split(b'\n')` yields at least one piece, no piece holds a newline, and joining the pieces with newlines gives the input back |
| Helpers.NonEmpty | btrtb/helpers.py:94 | Keeps non-empty pieces of the input, keeps every non-empty piece, keeps a list without empty pieces whole, and is never longer than its input |
| Helpers.NonEmptyOfOne | btrtb/helpers.py:94 | A single piece is kept exactly when it is not empty |
| Helpers.NonEmptyAppend | btrtb/helpers.py:93-94 | Filtering distributes over concatenation, so the kept pieces keep their order |
| Helpers.ListingEntries | btrtb/helpers.py:92-94 | Entries are non-empty and newline-free; output of one line, with no newline at all, gives that line, or nothing when it is empty |
| Helpers.ListingAppend | btrtb/helpers.py:92-94 | The entries of two outputs joined by a newline are the entries of the first followed by those of the second |
| Helpers.ListingSkipsBlankLine | btrtb/helpers.py:92-94 | A blank line in the middle and a missing final newline are ignored: `a\n\nb` gives `a`, then `b` |
| Helpers.ListingOfLines | btrtb/helpers.py:92-94 | For names that are non-empty and newline-free, the entries read from the `ls -1` output of those names are exactly those names, in order |
| Helpers.SplitJoin | btrtb/helpers.py:93 | Splitting newline-joined pieces gives the pieces back, so split and join are inverse |
| Instants.OrderIsOrdinalOrder | btrtb/upload.py:199-219 | The `<` and `<=` of UTC datetimes used by the filters, the sorts and the merge are `<` and `<=` on one count of the instant's fields, most significant first |
| Instants.AtOrBeforeAntisymmetric | btrtb/upload.py:199-207 | Two instants, each no later than the other, are equal, which makes the `<=` used by the filters and sorts an order |
| Instants.BeforeTotal | btrtb/upload.py:216-222 | Two instants are equal or one is earlier: the three branches of the merge cover every case |
| Sorting.SortDescending | btrtb/upload.py:200-207 | The sort result is a permutation of its input, ordered most recent first |
| Sorting.SortFirstWithKey | btrtb/upload.py:200 | The sort is stable: among elements with equal dates the first one stays first |
| Reconciler.EligibleLocal | btrtb/upload.py:192-199 | Keeps exactly the dated records no later than the cutoff, each with its number and date |
| Reconciler.EligibleRemote | btrtb/upload.py:204-206 | Keeps exactly the remote dates no later than the cutoff |
| Reconciler.LatestCommonDate | btrtb/upload.py:176-187 | Returns a date that is common to both sides and within the cutoff, and no common date is later; None when no date is common |
| Reconciler.LatestCommonNumber | btrtb/upload.py:171-225 | The answer is the number of the chosen record, or 0 with no date common. The chosen record carries the latest common date and is the first record with that date. |
| Reconciler.ChosenUnique | btrtb/upload.py:176-187 | At most one record meets the definition of the answer |
| Reconciler.ChosenOnly | btrtb/upload.py:176-187 | A record that meets the definition is the one whose number is returned |
| Reconciler.LatestCommonSound | btrtb/upload.py:185-187 | A nonzero answer is the number of a dated local record, no later than the cutoff, whose date the remote side has |
| Reconciler.ZeroIffNoCommon | btrtb/upload.py:224-225 | When dated records have positive numbers, the answer is 0 exactly when no date is common |
| Reconciler.CutoffInclusive | btrtb/upload.py:199-206 | The cutoff is inclusive: a local snapshot dated exactly at the cutoff and present remotely is the answer |
| Reconciler.ChosenWithoutUndated | btrtb/upload.py:192-195 | The record chosen after an undated record is inserted is not the inserted one, and removing the insertion leaves it chosen |
| Reconciler.UndatedIgnored | btrtb/upload.py:192-195 | Inserting an undated record anywhere in the local list leaves the answer unchanged |
| Reconciler.ParentOfThirdSnapshot | btrtb/upload.py:171-225 | Concrete run: with snapshots 1, 2, 3 at t1 < t2 < t3 and t1, t2 remote, the parent of 3 is 2, and with cutoff t1 it is 1 |
| Reconciler.EligibleFirst | btrtb/upload.py:192-199 | Filtering keeps the first local record with a given eligible date first |
| Reconciler.LatestCommonSnapshotNumber | btrtb/upload.py:190-225 | The merge loop returns exactly the reference answer. It makes at most as many passes as there are dated local records and remote dates no later than the cutoff, so never more than both lists' lengths together |
| Uploader.LatestIndex | btrtb/upload.py:155-168 | None exactly for an empty list; otherwise a record with the greatest number, and no earlier record has that number |
| Uploader.FirstIndexOfNumber | btrtb/upload.py:275-277 | None exactly when no record has the number; otherwise the first record with it |
| Uploader.Resolve | btrtb/upload.py:56-65 | Number 0 fails with RuntimeError exactly on an empty list and otherwise gives a record of greatest number. Another number fails with IndexError exactly when no record has it. The result is the first record with its number. |
| Uploader.LocalSnapshotDate | btrtb/upload.py:261-278 | Gives the date of the first record with the number. It fails with IndexError when no record has the number and with ValueError when that record is undated. |
| Uploader.DecodeEach | btrtb/upload.py:67-69 | Decoding a list gives one date per path in order, or the position of the first path that fails, all earlier paths decoding |
| Uploader.DecodeEachAppend | btrtb/upload.py:67-69 | Appending a path to a decodable list appends its date, or makes decoding fail at the new position |
| Uploader.DecodeAll | btrtb/upload.py:67-69 | The list comprehension over `get_datetime_from_remote_snapshot_path`: every path decoded, or the first failing position |
| Uploader.TempPath | btrtb/upload.py:122 | The temporary receive path is the entry `snapshot` of the directory `{root}/{config}`, and it does not decode as a timestamp |
| Uploader.TempNameIsNotATimestamp | btrtb/upload.py:121-123 | The entry name `snapshot` that `btrfs receive` creates does not decode |
| Uploader.OrphanedTempName | btrtb/upload.py:67-69 | A listing that still holds the entry `snapshot` fails to decode at that entry |
| Uploader.SendSnapshot | btrtb/upload.py:98-127 | The first action is a send: incremental exactly when the parent is positive. A failed send stops there with CalledProcessError. Otherwise the date is looked up again. A single rename then moves the temporary subvolume to the timestamped path of that date, which decodes back to the date (Helpers.DecodeEncode). The outcome follows the rename's status. |
| Uploader.Decide | btrtb/upload.py:56-75 | Every error path is covered: no snapshot, unknown number, undated snapshot, undecodable remote entry (the first one). With a decodable listing, it skips exactly when the snapshot's date is already remote. A transfer carries the resolved number and date and, as parent, the reconciler's answer with the snapshot's date as cutoff. |
| Uploader.Upload | btrtb/upload.py:44-77 | An abort or a skip runs no command and reports that outcome. A transfer sends with the decided parent (a full send when it is 0), then gives the send/rename outcome. Every rename follows a successful send. |
| Uploader.SkipAfterPublish | btrtb/upload.py:67-72 | Once the entry of the transferred snapshot is added to the listing, the decision for the same request is a skip |
| Uploader.AbortOnOrphan | btrtb/upload.py:67-69 | Once the entry `snapshot` is added to the listing, the decision for the same request is to fail on that entry |
| Uploader.RerunAfterPublish | btrtb/upload.py:44-77 | `upload` run on the listing after a completed transfer skips and runs nothing |
| Uploader.RerunAfterOrphan | btrtb/upload.py:44-77 | `upload` run on the listing after a failed rename fails on the entry `snapshot` and runs nothing |
| Uploader.RerunAfterSkip | btrtb/upload.py:70-72 | `upload` run again after a skip skips again |
| Uploader.UploadOutcome | btrtb/upload.py:44-77 | An upload that published, or whose rename failed, decided a transfer, with the send succeeding and the rename's status; a skip happens exactly when the decision is to skip |
| Uploader.PublishedEntry | btrtb/helpers.py:46-47 | The entry a published snapshot adds to the remote listing is its timestamp: a one-line name that decodes to its date |
| Uploader.PublishedIsListed | btrtb/upload.py:67-70 | Adding a published snapshot's entry to a decodable listing appends exactly its date, so the date is then listed |
| Uploader.UploadAgain | btrtb/upload.py:44-77 | Runs `upload` twice on the listing the first run leaves behind. A completed upload makes the second run a skip. A failed rename makes it fail on the entry `snapshot` before sending. A skip stays a skip. |

## Left out

- `btrtb/config.py` (command names, remote host, backup root) is not part of this model.
  The backup root is a parameter.
- Running commands (`subprocess.run`, `os.system`, `ssh`, `snapper`, `btrfs`, `ls`, `mv`)
  is not modelled. Their outputs and exit statuses are parameters, and the commands run are
  the trace of actions. The exact command strings are not modelled.
- A `ls` or `snapper` call that fails (`check=True`) is not modelled: the listings are inputs.
- `get_subvolume_from_snapper_config` and `get_snapper_configs` are not modelled. They only
  feed command strings.
- `snapshot_obj_to_utc_datetime_fn` is not modelled as ISO-8601 parsing of Snapper's date
  text. A record carries its date already parsed, or none for the empty string.
- Helpers.ParseTimestamp: accepts only the canonical 19-character form. `strptime` also
  accepts non-canonical spellings, such as unpadded fields (`2020-1-2_3:4:5`), and that
  leniency is not modelled.
- Helpers.FormatTimestamp: writes the year with four digits, as Python documents `%Y`.
  glibc's `strftime` does not pad years below 1000, and that is not modelled.
- Decoding bytes to `str` (`file_name.decode()`) is not modelled. Listings are strings.
- Upload takes the remote entry names; that the names come from splitting the
  `ls -1` output is stated separately (`Helpers.ListingEntries`, `Helpers.ListingOfLines`).
- `get_latest_common_snapshot_number` re-reads both lists itself. The model passes it the
  lists `upload` already read, so the listings cannot change between the two queries.
  Changes to the local or remote state while `upload` runs are not modelled.
- Sorting.SortDescending: states the permutation and the order but not full stability. Of
  stability only SortFirstWithKey is proved: the first element with each key stays first,
  which is all the reconciler needs. The in-place steps of Python's Timsort are not modelled.
- The TypeError for an offset-naive `until` cannot arise here: every instant is UTC.
- Default arguments (`datetime.now()`, `'root'`) and the `print` calls are not modelled.
  The clock is not an input of the core.
