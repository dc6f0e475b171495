/**
 * `get_latest_common_snapshot_number` (btrtb/upload.py): the number of the most recent
 * snapshot, no later than a cutoff, whose date is present both among the local Snapper
 * snapshots and among the decoded remote snapshot paths; 0 when there is none.
 */
module Reconciler {
  import opened Wrappers
  import opened Instants
  import opened Sorting

  /**
   * A record of `snapper --jsonout --utc list`: the snapshot number and its creation date,
   * None when Snapper reports the empty string (no creation time, as for the "current"
   * pseudo-snapshot). The `date` field plays the part of `snapshot_obj_to_utc_datetime_fn`.
   */
  datatype LocalSnapshot = LocalSnapshot(number: nat, date: Option<Instant>)

  /** A local record that survived the reconciler's filters, with its date read. */
  datatype DatedSnapshot = DatedSnapshot(number: nat, date: Instant)

  /** Sort key of `local_snapshots`. */
  function DateKey(s: DatedSnapshot): Instant {
    s.date
  }

  /** Sort key of `remote_dates`: the dates themselves. */
  function InstantKey(t: Instant): Instant {
    t
  }

  // ---------------------------------------------------------------------------
  // The reference definition: what the merge loop must compute

  ghost predicate HasLocalDate(locals: seq<LocalSnapshot>, d: Instant) {
    exists i :: 0 <= i < |locals| && locals[i].date == Some(d)
  }

  /** A date no later than `until` that some local record carries and some remote path names. */
  ghost predicate IsCommon(locals: seq<LocalSnapshot>, remote: seq<Instant>, until: Instant, d: Instant) {
    AtOrBefore(d, until) && d in remote && HasLocalDate(locals, d)
  }

  /**
   * Record `k` is what the reconciler must answer with: its date is common, no common
   * date is later, and no earlier record carries the same date.
   */
  ghost predicate IsChosen(locals: seq<LocalSnapshot>, remote: seq<Instant>, until: Instant, k: int) {
    && 0 <= k < |locals|
    && locals[k].date.Some?
    && IsCommon(locals, remote, until, locals[k].date.value)
    && (forall d :: IsCommon(locals, remote, until, d) ==> AtOrBefore(d, locals[k].date.value))
    && (forall j :: 0 <= j < k ==> locals[j].date != locals[k].date)
  }

  lemma CommonOfTail(locals: seq<LocalSnapshot>, remote: seq<Instant>, until: Instant, d: Instant)
    requires |locals| > 0
    ensures IsCommon(locals[1..], remote, until, d) ==> IsCommon(locals, remote, until, d)
    ensures IsCommon(locals, remote, until, d) && locals[0].date != Some(d)
            ==> IsCommon(locals[1..], remote, until, d)
  {
    if HasLocalDate(locals[1..], d) {
      var i :| 0 <= i < |locals[1..]| && locals[1..][i].date == Some(d);
      assert locals[i + 1].date == Some(d);
    }
    if HasLocalDate(locals, d) && locals[0].date != Some(d) {
      var i :| 0 <= i < |locals| && locals[i].date == Some(d);
      assert locals[1..][i - 1].date == Some(d);
    }
  }

  /** The latest common date, by a plain scan of the local records. */
  function LatestCommonDate(locals: seq<LocalSnapshot>, remote: seq<Instant>, until: Instant): (r: Option<Instant>)
    ensures r.Some? ==> IsCommon(locals, remote, until, r.value)
    ensures forall d :: IsCommon(locals, remote, until, d) ==> r.Some? && AtOrBefore(d, r.value)
  {
    if |locals| == 0 then None
    else
      var rest := LatestCommonDate(locals[1..], remote, until);
      var head := locals[0].date;
      assert forall d :: IsCommon(locals[1..], remote, until, d) ==> IsCommon(locals, remote, until, d) by {
        forall d ensures IsCommon(locals[1..], remote, until, d) ==> IsCommon(locals, remote, until, d) {
          CommonOfTail(locals, remote, until, d);
        }
      }
      assert forall d :: IsCommon(locals, remote, until, d) && head != Some(d)
                         ==> IsCommon(locals[1..], remote, until, d) by {
        forall d ensures IsCommon(locals, remote, until, d) && head != Some(d)
                         ==> IsCommon(locals[1..], remote, until, d) {
          CommonOfTail(locals, remote, until, d);
        }
      }
      if head.Some? && AtOrBefore(head.value, until) && head.value in remote then
        assert HasLocalDate(locals, head.value) by {
          assert locals[0].date == Some(head.value);
        }
        if rest.None? then head
        else if AtOrBefore(rest.value, head.value) then head
        else
          NotAtOrBeforeIsAfter(rest.value, head.value);
          rest
      else
        rest
  }

  /** The position of the first local record dated `d`. */
  function FirstIndexWithDate(locals: seq<LocalSnapshot>, d: Instant): (k: nat)
    requires HasLocalDate(locals, d)
    ensures k < |locals| && locals[k].date == Some(d)
    ensures forall j :: 0 <= j < k ==> locals[j].date != Some(d)
  {
    if locals[0].date == Some(d) then 0
    else
      assert HasLocalDate(locals[1..], d) by {
        var i :| 0 <= i < |locals| && locals[i].date == Some(d);
        assert locals[1..][i - 1].date == Some(d);
      }
      1 + FirstIndexWithDate(locals[1..], d)
  }

  /**
   * What `get_latest_common_snapshot_number` returns: the number of the first record
   * carrying the latest common date, or 0 when no date is common.
   */
  function LatestCommonNumber(locals: seq<LocalSnapshot>, remote: seq<Instant>, until: Instant): (n: nat)
    ensures || (exists k :: IsChosen(locals, remote, until, k) && n == locals[k].number)
            || (n == 0 && forall d :: !IsCommon(locals, remote, until, d))
  {
    match LatestCommonDate(locals, remote, until)
    case None => 0
    case Some(d) =>
      var k := FirstIndexWithDate(locals, d);
      assert IsChosen(locals, remote, until, k);
      locals[k].number
  }

  /** The answer is determined: at most one record is the chosen one. */
  lemma {:induction false} ChosenUnique(locals: seq<LocalSnapshot>, remote: seq<Instant>, until: Instant, k1: int, k2: int)
    requires IsChosen(locals, remote, until, k1) && IsChosen(locals, remote, until, k2)
    ensures k1 == k2
  {
    var d1, d2 := locals[k1].date.value, locals[k2].date.value;
    assert AtOrBefore(d1, d2) && AtOrBefore(d2, d1);
    AtOrBeforeAntisymmetric(d1, d2);
  }

  /** A nonzero answer names a dated record, no later than the cutoff, whose date is on the remote side. */
  lemma LatestCommonSound(locals: seq<LocalSnapshot>, remote: seq<Instant>, until: Instant)
    ensures var n := LatestCommonNumber(locals, remote, until);
            n > 0 ==> exists i :: && 0 <= i < |locals| && locals[i].number == n && locals[i].date.Some?
                                  && AtOrBefore(locals[i].date.value, until) && locals[i].date.value in remote
  {
  }

  /**
   * When every dated record has a positive number (Snapper numbers its snapshots from 1;
   * only the undated "current" entry has number 0), the answer is 0 exactly when no date
   * is common.
   */
  lemma ZeroIffNoCommon(locals: seq<LocalSnapshot>, remote: seq<Instant>, until: Instant)
    requires forall i :: 0 <= i < |locals| && locals[i].date.Some? ==> locals[i].number > 0
    ensures LatestCommonNumber(locals, remote, until) == 0 <==> forall d :: !IsCommon(locals, remote, until, d)
  {
  }

  /** The cutoff is inclusive: a snapshot dated exactly `until` that the remote side has is the answer. */
  lemma {:induction false} CutoffInclusive(locals: seq<LocalSnapshot>, remote: seq<Instant>, until: Instant)
    requires HasLocalDate(locals, until) && until in remote
    ensures LatestCommonNumber(locals, remote, until) == locals[FirstIndexWithDate(locals, until)].number
  {
    assert IsCommon(locals, remote, until, until);
    var latest := LatestCommonDate(locals, remote, until);
    AtOrBeforeAntisymmetric(latest.value, until);
  }

  lemma {:induction false} WithUndatedCommon(locals: seq<LocalSnapshot>, i: nat, m: nat, remote: seq<Instant>,
                                             until: Instant, d: Instant)
    requires i <= |locals|
    ensures IsCommon(locals[..i] + [LocalSnapshot(m, None)] + locals[i..], remote, until, d)
            <==> IsCommon(locals, remote, until, d)
  {
    var more := locals[..i] + [LocalSnapshot(m, None)] + locals[i..];
    if HasLocalDate(more, d) {
      var j :| 0 <= j < |more| && more[j].date == Some(d);
      if j < i {
        assert locals[j] == more[j];
      } else {
        assert locals[j - 1] == more[j];
      }
    }
    if HasLocalDate(locals, d) {
      var j :| 0 <= j < |locals| && locals[j].date == Some(d);
      if j < i {
        assert more[j] == locals[j];
      } else {
        assert more[j + 1] == locals[j];
      }
    }
  }

  /** Records without a date play no part: adding one anywhere leaves the answer unchanged. */
  lemma {:induction false} UndatedIgnored(locals: seq<LocalSnapshot>, i: nat, m: nat, remote: seq<Instant>, until: Instant)
    requires i <= |locals|
    ensures LatestCommonNumber(locals[..i] + [LocalSnapshot(m, None)] + locals[i..], remote, until)
            == LatestCommonNumber(locals, remote, until)
  {
    var more := locals[..i] + [LocalSnapshot(m, None)] + locals[i..];
    var n' := LatestCommonNumber(more, remote, until);
    if k' :| IsChosen(more, remote, until, k') && n' == more[k'].number {
      ChosenWithoutUndated(locals, i, m, remote, until, k');
      ChosenOnly(locals, remote, until, if k' < i then k' else k' - 1);
    } else {
      forall d ensures !IsCommon(locals, remote, until, d) {
        WithUndatedCommon(locals, i, m, remote, until, d);
      }
    }
  }

  /** The record chosen once an undated record is inserted is the one chosen without it. */
  lemma {:induction false} ChosenWithoutUndated(locals: seq<LocalSnapshot>, i: nat, m: nat, remote: seq<Instant>,
                                                until: Instant, k': int)
    requires i <= |locals|
    requires IsChosen(locals[..i] + [LocalSnapshot(m, None)] + locals[i..], remote, until, k')
    ensures k' != i
    ensures var k := if k' < i then k' else k' - 1;
            IsChosen(locals, remote, until, k) && locals[k] == (locals[..i] + [LocalSnapshot(m, None)] + locals[i..])[k']
  {
    var more := locals[..i] + [LocalSnapshot(m, None)] + locals[i..];
    forall d ensures IsCommon(more, remote, until, d) <==> IsCommon(locals, remote, until, d) {
      WithUndatedCommon(locals, i, m, remote, until, d);
    }
    assert k' != i;
    var k := if k' < i then k' else k' - 1;
    assert locals[k] == more[k'];
    forall j | 0 <= j < k ensures locals[j].date != locals[k].date {
      if j < i {
        assert locals[j] == more[j];
      } else {
        assert locals[j] == more[j + 1];
      }
    }
  }

  /**
   * A concrete run: snapshots 1, 2 and 3 taken at t1 < t2 < t3, the remote side holding
   * t1 and t2, plus the undated "current" entry 0. Sending snapshot 3 (cutoff t3) goes
   * incrementally against 2; with cutoff t1 the parent is 1.
   */
  lemma {:induction false} ParentOfThirdSnapshot()
    ensures var t1, t2, t3 := DateTime(2020, 1, 1, 0, 0, 0), DateTime(2020, 1, 2, 0, 0, 0),
                              DateTime(2020, 1, 3, 0, 0, 0);
            var locals := [LocalSnapshot(0, None), LocalSnapshot(1, Some(t1)),
                           LocalSnapshot(2, Some(t2)), LocalSnapshot(3, Some(t3))];
            && LatestCommonNumber(locals, [t1, t2], t3) == 2
            && LatestCommonNumber(locals, [t1, t2], t1) == 1
  {
    var t1, t2, t3 := DateTime(2020, 1, 1, 0, 0, 0), DateTime(2020, 1, 2, 0, 0, 0),
                      DateTime(2020, 1, 3, 0, 0, 0);
    var locals := [LocalSnapshot(0, None), LocalSnapshot(1, Some(t1)),
                   LocalSnapshot(2, Some(t2)), LocalSnapshot(3, Some(t3))];
    var remote := [t1, t2];
    assert IsCommon(locals, remote, t3, t2) by { assert locals[2].date == Some(t2); }
    assert IsChosen(locals, remote, t3, 2);
    ChosenOnly(locals, remote, t3, 2);
    assert IsCommon(locals, remote, t1, t1) by { assert locals[1].date == Some(t1); }
    assert IsChosen(locals, remote, t1, 1);
    ChosenOnly(locals, remote, t1, 1);
  }

  /** Once a record is known to be the chosen one, it is the answer. */
  lemma {:induction false} ChosenOnly(locals: seq<LocalSnapshot>, remote: seq<Instant>, until: Instant, k: int)
    requires IsChosen(locals, remote, until, k)
    ensures LatestCommonNumber(locals, remote, until) == locals[k].number
  {
    var n := LatestCommonNumber(locals, remote, until);
    assert IsCommon(locals, remote, until, locals[k].date.value);
    var k' :| IsChosen(locals, remote, until, k') && n == locals[k'].number;
    ChosenUnique(locals, remote, until, k, k');
  }

  // ---------------------------------------------------------------------------
  // The filters and the merge loop

  /**
   * `local_snapshots` before sorting: the records with a date (first comprehension)
   * whose date is no later than `until` (second comprehension), in their original order.
   */
  function EligibleLocal(locals: seq<LocalSnapshot>, until: Instant): (r: seq<DatedSnapshot>)
    ensures |r| <= |locals|
    ensures forall x :: x in r ==> AtOrBefore(x.date, until) && LocalSnapshot(x.number, Some(x.date)) in locals
    ensures forall i :: 0 <= i < |locals| && locals[i].date.Some? && AtOrBefore(locals[i].date.value, until)
                        ==> DatedSnapshot(locals[i].number, locals[i].date.value) in r
  {
    if |locals| == 0 then []
    else
      var rest := EligibleLocal(locals[1..], until);
      assert forall x :: x in locals[1..] ==> x in locals;
      assert forall i :: 1 <= i < |locals| ==> locals[i] == locals[1..][i - 1];
      match locals[0].date
      case Some(d) =>
        if AtOrBefore(d, until) then [DatedSnapshot(locals[0].number, d)] + rest else rest
      case None => rest
  }

  /** `remote_dates` before sorting: the decoded remote dates no later than `until`. */
  function EligibleRemote(remote: seq<Instant>, until: Instant): (r: seq<Instant>)
    ensures |r| <= |remote|
    ensures forall d :: d in r <==> d in remote && AtOrBefore(d, until)
  {
    if |remote| == 0 then []
    else
      var rest := EligibleRemote(remote[1..], until);
      assert remote == [remote[0]] + remote[1..];
      if AtOrBefore(remote[0], until) then [remote[0]] + rest else rest
  }

  /** The first eligible record dated `d` is the first local record dated `d`. */
  lemma {:induction false} EligibleFirst(locals: seq<LocalSnapshot>, until: Instant, d: Instant)
    requires HasLocalDate(locals, d) && AtOrBefore(d, until)
    ensures FirstWithKey(EligibleLocal(locals, until), DateKey, d)
            == Some(DatedSnapshot(locals[FirstIndexWithDate(locals, d)].number, d))
    decreases |locals|
  {
    var rest := EligibleLocal(locals[1..], until);
    if locals[0].date == Some(d) {
      assert EligibleLocal(locals, until) == [DatedSnapshot(locals[0].number, d)] + rest;
    } else {
      assert HasLocalDate(locals[1..], d) by {
        var i :| 0 <= i < |locals| && locals[i].date == Some(d);
        assert locals[1..][i - 1].date == Some(d);
      }
      var k := FirstIndexWithDate(locals[1..], d);
      assert FirstIndexWithDate(locals, d) == k + 1 && locals[k + 1] == locals[1..][k];
      EligibleFirst(locals[1..], until, d);
      var all := EligibleLocal(locals, until);
      if all != rest {
        assert all == [DatedSnapshot(locals[0].number, locals[0].date.value)] + rest;
        assert DateKey(all[0]) != d && all[1..] == rest;
      }
    }
  }

  ghost predicate HasDate(s: seq<DatedSnapshot>, d: Instant) {
    exists m :: 0 <= m < |s| && s[m].date == d
  }

  /** The loop's invariant: no date strictly in front of either cursor is common to both lists. */
  ghost predicate Scanned(l: seq<DatedSnapshot>, r: seq<Instant>, iLocal: int, iRemote: int) {
    && 0 <= iLocal <= |l| && 0 <= iRemote <= |r|
    && (forall k :: 0 <= k < iLocal ==> l[k].date !in r)
    && (forall k :: 0 <= k < iRemote ==> !HasDate(l, r[k]))
  }

  /** Both cursors walk lists that are the filtered inputs, sorted most recent first. */
  ghost predicate MergeInputs(locals: seq<LocalSnapshot>, remote: seq<Instant>, until: Instant,
                              l: seq<DatedSnapshot>, r: seq<Instant>) {
    && l == SortDescending(EligibleLocal(locals, until), DateKey)
    && r == SortDescending(EligibleRemote(remote, until), InstantKey)
  }

  /** A common date is present in both sorted lists. */
  lemma CommonInBoth(locals: seq<LocalSnapshot>, remote: seq<Instant>, until: Instant,
                     l: seq<DatedSnapshot>, r: seq<Instant>, e: Instant)
    requires MergeInputs(locals, remote, until, l, r)
    requires IsCommon(locals, remote, until, e)
    ensures HasDate(l, e) && e in r
  {
    var eligible := EligibleLocal(locals, until);
    var i :| 0 <= i < |locals| && locals[i].date == Some(e);
    var x := DatedSnapshot(locals[i].number, e);
    assert x in eligible;
    assert x in multiset(l);
    var m :| 0 <= m < |l| && l[m] == x;
    assert e in EligibleRemote(remote, until);
    assert e in multiset(r);
  }

  /** Equal dates under the two cursors: that local record is the reference answer. */
  lemma {:induction false} MatchIsLatest(locals: seq<LocalSnapshot>, remote: seq<Instant>, until: Instant,
                                         l: seq<DatedSnapshot>, r: seq<Instant>, iLocal: nat, iRemote: nat)
    requires MergeInputs(locals, remote, until, l, r)
    requires Scanned(l, r, iLocal, iRemote) && iLocal < |l| && iRemote < |r|
    requires l[iLocal].date == r[iRemote]
    ensures l[iLocal].number == LatestCommonNumber(locals, remote, until)
  {
    var eligible := EligibleLocal(locals, until);
    var d := l[iLocal].date;
    // d is common
    assert l[iLocal] in multiset(eligible);
    assert d in multiset(EligibleRemote(remote, until));
    assert LocalSnapshot(l[iLocal].number, Some(d)) in locals;
    assert IsCommon(locals, remote, until, d);
    // and no common date is later
    forall e | IsCommon(locals, remote, until, e) ensures AtOrBefore(e, d) {
      CommonInBoth(locals, remote, until, l, r, e);
      var m :| 0 <= m < |l| && l[m].date == e;
      if m < iLocal {
        assert false;
      } else if m > iLocal {
        assert AtOrBefore(DateKey(l[m]), DateKey(l[iLocal]));
      }
    }
    var latest := LatestCommonDate(locals, remote, until);
    AtOrBeforeAntisymmetric(latest.value, d);
    // the record under the cursor is the first dated d, in sorted and in original order
    FirstWithKeyAt(l, DateKey, iLocal);
    SortFirstWithKey(eligible, DateKey, d);
    EligibleFirst(locals, until, d);
  }

  /** A cursor ran off its list: nothing is common. */
  lemma NoMatchLeft(locals: seq<LocalSnapshot>, remote: seq<Instant>, until: Instant,
                    l: seq<DatedSnapshot>, r: seq<Instant>, iLocal: nat, iRemote: nat)
    requires MergeInputs(locals, remote, until, l, r)
    requires Scanned(l, r, iLocal, iRemote) && (iLocal == |l| || iRemote == |r|)
    ensures LatestCommonNumber(locals, remote, until) == 0
  {
    forall e | IsCommon(locals, remote, until, e) ensures false {
      CommonInBoth(locals, remote, until, l, r, e);
    }
  }

  /** The local date is earlier than the remote one: the remote date is common to nobody. */
  lemma {:induction false} AdvanceRemote(l: seq<DatedSnapshot>, r: seq<Instant>, iLocal: nat, iRemote: nat)
    requires SortedDescending(l, DateKey) && SortedDescending(r, InstantKey)
    requires Scanned(l, r, iLocal, iRemote) && iLocal < |l| && iRemote < |r|
    requires Before(l[iLocal].date, r[iRemote])
    ensures Scanned(l, r, iLocal, iRemote + 1)
  {
    forall m | 0 <= m < |l| ensures l[m].date != r[iRemote] {
      if m < iLocal {
        assert l[m].date !in r;
      } else if m > iLocal {
        assert AtOrBefore(DateKey(l[m]), DateKey(l[iLocal]));
        AtOrBeforeThenBefore(l[m].date, l[iLocal].date, r[iRemote]);
        BeforeIrreflexive(l[m].date);
      } else {
        BeforeIrreflexive(r[iRemote]);
      }
    }
  }

  /** The local date is later than the remote one: the local date is common to nobody. */
  lemma {:induction false} AdvanceLocal(l: seq<DatedSnapshot>, r: seq<Instant>, iLocal: nat, iRemote: nat)
    requires SortedDescending(l, DateKey) && SortedDescending(r, InstantKey)
    requires Scanned(l, r, iLocal, iRemote) && iLocal < |l| && iRemote < |r|
    requires Before(r[iRemote], l[iLocal].date)
    ensures Scanned(l, r, iLocal + 1, iRemote)
  {
    forall k | 0 <= k < |r| ensures r[k] != l[iLocal].date {
      if k < iRemote {
        assert !HasDate(l, r[k]);
      } else if k > iRemote {
        assert AtOrBefore(InstantKey(r[k]), InstantKey(r[iRemote]));
        AtOrBeforeThenBefore(r[k], r[iRemote], l[iLocal].date);
        BeforeIrreflexive(r[k]);
      } else {
        BeforeIrreflexive(r[iRemote]);
      }
    }
  }

  /**
   * The two-cursor merge of `get_latest_common_snapshot_number`. `iterations` counts the
   * passes through the loop.
   */
  method LatestCommonSnapshotNumber(locals: seq<LocalSnapshot>, remoteDates: seq<Instant>, until: Instant)
    returns (n: nat, ghost iterations: nat)
    ensures n == LatestCommonNumber(locals, remoteDates, until)
    ensures iterations <= |EligibleLocal(locals, until)| + |EligibleRemote(remoteDates, until)|
    ensures iterations <= |locals| + |remoteDates|
  {
    var localSnapshots := SortDescending(EligibleLocal(locals, until), DateKey);
    var remote := SortDescending(EligibleRemote(remoteDates, until), InstantKey);
    assert |localSnapshots| == |EligibleLocal(locals, until)| by {
      assert |multiset(localSnapshots)| == |multiset(EligibleLocal(locals, until))|;
    }
    assert |remote| == |EligibleRemote(remoteDates, until)| by {
      assert |multiset(remote)| == |multiset(EligibleRemote(remoteDates, until))|;
    }
    var iLocal, iRemote := 0, 0;
    iterations := 0;
    while iLocal < |localSnapshots| && iRemote < |remote|
      invariant Scanned(localSnapshots, remote, iLocal, iRemote)
      invariant iterations == iLocal + iRemote
      decreases |localSnapshots| - iLocal + |remote| - iRemote
    {
      iterations := iterations + 1;
      var localDate := localSnapshots[iLocal].date;
      var remoteDate := remote[iRemote];
      if localDate == remoteDate {
        MatchIsLatest(locals, remoteDates, until, localSnapshots, remote, iLocal, iRemote);
        return localSnapshots[iLocal].number, iterations;
      } else if Before(localDate, remoteDate) {
        AdvanceRemote(localSnapshots, remote, iLocal, iRemote);
        iRemote := iRemote + 1;
      } else {
        NotAtOrBeforeIsAfter(localDate, remoteDate);
        AdvanceLocal(localSnapshots, remote, iLocal, iRemote);
        iLocal := iLocal + 1;
      }
    }
    NoMatchLeft(locals, remoteDates, until, localSnapshots, remote, iLocal, iRemote);
    n := 0;
  }
}
