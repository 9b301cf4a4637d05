/**
 * Bulk deletion with per-key failures, and deletion in rounds, for any type of key.
 * `app` holds the keys as a caller names them, `stored` the same keys as they are
 * stored, and `denied` the stored keys a provider refuses to delete, with its reasons.
 */
module BulkDeletion {
  import opened Wrappers
  import opened Sequences

  datatype Failure<K> = Failure(key: K, error: string)

  datatype DeleteReport<K> = DeleteReport(deleted: seq<K>, failed: seq<Failure<K>>)

  /** A report with one more outcome: of key `k`, stored as `stored`. */
  function WithOutcome<K(==)>(r: DeleteReport<K>, k: K, stored: K, denied: map<K, string>): DeleteReport<K> {
    if stored in denied then DeleteReport(r.deleted, r.failed + [Failure(k, denied[stored])])
    else DeleteReport(r.deleted + [k], r.failed)
  }

  /** Which of the first `n` keys are reported deleted and which failed, both in the order submitted. */
  function ReportOf<K(==)>(app: seq<K>, stored: seq<K>, n: nat, denied: map<K, string>): DeleteReport<K>
    requires |app| == |stored| && n <= |stored|
  {
    if n == 0 then DeleteReport([], [])
    else WithOutcome(ReportOf(app, stored, n - 1, denied), app[n - 1], stored[n - 1], denied)
  }

  function Add<K>(r: DeleteReport<K>, s: DeleteReport<K>): DeleteReport<K> {
    DeleteReport(r.deleted + s.deleted, r.failed + s.failed)
  }

  /** What is left after the first `n` keys. */
  ghost function LeftOf<K, V>(objects: map<K, V>, stored: seq<K>, n: nat, denied: map<K, string>): map<K, V>
    requires n <= |stored|
  {
    objects - (Members(stored[..n]) - denied.Keys)
  }

  lemma MembersNext<K>(stored: seq<K>, n: nat)
    requires n < |stored|
    ensures Members(stored[..n + 1]) == Members(stored[..n]) + {stored[n]}
  {
    assert stored[..n + 1] == stored[..n] + [stored[n]];
  }

  lemma LeftNext<K, V>(objects: map<K, V>, stored: seq<K>, n: nat, denied: map<K, string>)
    requires n < |stored|
    ensures LeftOf(objects, stored, n + 1, denied)
         == if stored[n] in denied then LeftOf(objects, stored, n, denied)
            else LeftOf(objects, stored, n, denied) - {stored[n]}
  {
    MembersNext(stored, n);
  }

  lemma AddWithOutcome<K>(r: DeleteReport<K>, s: DeleteReport<K>, k: K, stored: K, denied: map<K, string>)
    ensures Add(r, WithOutcome(s, k, stored, denied)) == WithOutcome(Add(r, s), k, stored, denied)
  {
  }

  /** Deleting everything up to `n`, then the next `m` keys, is deleting everything up to `n + m`. */
  lemma {:induction false} ReportGrows<K>(app: seq<K>, stored: seq<K>, n: nat, m: nat, keys: seq<K>, slice: seq<K>, denied: map<K, string>)
    requires |app| == |stored| && n + m <= |stored| && m <= |keys| == |slice|
    requires forall i :: 0 <= i < m ==> keys[i] == app[n + i] && slice[i] == stored[n + i]
    ensures ReportOf(app, stored, n + m, denied) == Add(ReportOf(app, stored, n, denied), ReportOf(keys, slice, m, denied))
  {
    var r := ReportOf(app, stored, n, denied);
    if m == 0 {
      assert Add(r, DeleteReport([], [])) == r;
    } else {
      ReportGrows(app, stored, n, m - 1, keys, slice, denied);
      AddWithOutcome(r, ReportOf(keys, slice, m - 1, denied), keys[m - 1], slice[m - 1], denied);
    }
  }

  lemma LeftShrinks<K, V>(objects: map<K, V>, stored: seq<K>, n: nat, m: nat, denied: map<K, string>)
    requires n + m <= |stored|
    ensures LeftOf(LeftOf(objects, stored, n, denied), stored[n..n + m], m, denied) == LeftOf(objects, stored, n + m, denied)
  {
    var slice := stored[n..n + m];
    assert slice[..m] == slice;
    assert stored[..n + m] == stored[..n] + slice;
    assert Members(stored[..n + m]) == Members(stored[..n]) + Members(slice);
  }

  /**
   * How far a deletion in rounds has come: after the first `n` of the keys, what is
   * left, what has been reported, and what has been submitted.
   */
  datatype Rounds<K, V> = Rounds(n: nat, left: map<K, V>, report: DeleteReport<K>, submitted: seq<K>)

  ghost predicate IsAt<K, V>(r: Rounds<K, V>, objects: map<K, V>, app: seq<K>, stored: seq<K>, denied: map<K, string>) {
    && r.n <= |stored| == |app|
    && r.left == LeftOf(objects, stored, r.n, denied)
    && r.report == ReportOf(app, stored, r.n, denied)
    && r.submitted == app[..r.n]
  }

  /** One round: bulk deletion of some keys. */
  ghost function NextRound<K, V>(r: Rounds<K, V>, keys: seq<K>, slice: seq<K>, denied: map<K, string>): Rounds<K, V>
    requires |keys| == |slice|
  {
    Rounds(r.n + |keys|, LeftOf(r.left, slice, |slice|, denied),
           Add(r.report, ReportOf(keys, slice, |slice|, denied)), r.submitted + keys)
  }

  lemma RoundMovesOn<K, V>(r: Rounds<K, V>, objects: map<K, V>, app: seq<K>, stored: seq<K>, denied: map<K, string>,
                           keys: seq<K>, slice: seq<K>)
    requires IsAt(r, objects, app, stored, denied)
    requires |keys| == |slice| && r.n + |keys| <= |stored|
    requires keys == app[r.n..r.n + |keys|] && slice == stored[r.n..r.n + |keys|]
    ensures IsAt(NextRound(r, keys, slice, denied), objects, app, stored, denied)
  {
    var m := |keys|;
    LeftShrinks(objects, stored, r.n, m, denied);
    ReportGrows(app, stored, r.n, m, keys, slice, denied);
    assert app[..r.n + m] == app[..r.n] + keys;
  }

  /** The last of the first `n` keys: where a listing goes on after them. */
  function CursorAt<K>(all: seq<K>, n: nat): Option<K>
    requires n <= |all|
  {
    if n == 0 then None else Some(all[n - 1])
  }

  /** A round as its caller sees it: a page of the keys still to come, their report, what is left, and where to go on. */
  lemma RoundOver<K, V>(r: Rounds<K, V>, objects: map<K, V>, app: seq<K>, stored: seq<K>, denied: map<K, string>, pageSize: nat,
                        keys: seq<K>, slice: seq<K>, outcome: DeleteReport<K>, left: map<K, V>, next: Option<K>)
    returns (r': Rounds<K, V>)
    requires IsAt(r, objects, app, stored, denied) && 1 <= pageSize
    requires slice == Prefix(stored[r.n..], pageSize) && keys == app[r.n..r.n + |slice|]
    requires outcome == ReportOf(keys, slice, |slice|, denied) && left == LeftOf(r.left, slice, |slice|, denied)
    requires next == if r.n + |slice| == |stored| then None else CursorAt(slice, |slice|)
    ensures IsAt(r', objects, app, stored, denied)
    ensures r'.left == left && r'.report == Add(r.report, outcome) && r'.submitted == r.submitted + keys
    ensures if next.None? then r'.n == |stored| else r'.n > r.n && next == CursorAt(stored, r'.n)
  {
    RoundMovesOn(r, objects, app, stored, denied, keys, slice);
    r' := NextRound(r, keys, slice, denied);
  }

  /** The failures name refused keys, with the provider's reason. */
  ghost predicate AreRefusals<K(!new)>(failed: seq<Failure<K>>, stored: set<K>, denied: map<K, string>, name: K -> K) {
    forall f :: f in failed ==> name(f.key) in stored && name(f.key) in denied && f.error == denied[name(f.key)]
  }

  lemma MeetAdd<K>(a: set<K>, k: K, d: set<K>)
    requires k !in a
    ensures |(a + {k}) * d| == |a * d| + if k in d then 1 else 0
  {
    assert (a + {k}) * d == a * d + (if k in d then {k} else {});
  }

  /** Every key is either deleted or failed. */
  lemma {:induction false} EveryKeyIsReported<K>(app: seq<K>, stored: seq<K>, n: nat, denied: map<K, string>)
    requires |app| == |stored| && n <= |stored|
    ensures var report := ReportOf(app, stored, n, denied); |report.deleted| + |report.failed| == n
  {
    if n > 0 {
      EveryKeyIsReported(app, stored, n - 1, denied);
    }
  }

  lemma FreshMember<K>(stored: seq<K>, n: nat)
    requires n < |stored| && Distinct(stored)
    ensures stored[n] !in Members(stored[..n])
  {
  }

  /** One more key meets the refused keys in one more exactly when it is refused. */
  lemma MeetNext<K>(stored: seq<K>, n: nat, d: set<K>)
    requires n < |stored| && Distinct(stored)
    ensures |Members(stored[..n + 1]) * d| == |Members(stored[..n]) * d| + if stored[n] in d then 1 else 0
  {
    MembersNext(stored, n);
    FreshMember(stored, n);
    MeetAdd(Members(stored[..n]), stored[n], d);
  }

  function Refused<K(==)>(stored: seq<K>, n: nat, denied: set<K>): nat
    requires n <= |stored|
  {
    if n == 0 then 0 else Refused(stored, n - 1, denied) + if stored[n - 1] in denied then 1 else 0
  }

  lemma {:induction false} FailuresCount<K>(app: seq<K>, stored: seq<K>, n: nat, denied: map<K, string>)
    requires |app| == |stored| && n <= |stored|
    ensures |ReportOf(app, stored, n, denied).failed| == Refused(stored, n, denied.Keys)
  {
    if n > 0 {
      FailuresCount(app, stored, n - 1, denied);
    }
  }

  lemma {:induction false} RefusedMembers<K>(stored: seq<K>, n: nat, denied: set<K>)
    requires n <= |stored| && Distinct(stored)
    ensures Refused(stored, n, denied) == |Members(stored[..n]) * denied|
  {
    if n == 0 {
      assert Members(stored[..0]) * denied == {};
    } else {
      RefusedMembers(stored, n - 1, denied);
      MeetNext(stored, n - 1, denied);
    }
  }

  /** Every key is either deleted or failed, and as many failed as the provider refused. */
  lemma ReportCounts<K>(app: seq<K>, stored: seq<K>, n: nat, denied: map<K, string>)
    requires |app| == |stored| && n <= |stored| && Distinct(stored)
    ensures var report := ReportOf(app, stored, n, denied);
            |report.deleted| + |report.failed| == n && |report.failed| == |Members(stored[..n]) * denied.Keys|
  {
    EveryKeyIsReported(app, stored, n, denied);
    FailuresCount(app, stored, n, denied);
    RefusedMembers(stored, n, denied.Keys);
  }

  /** The i-th key was deleted, and is named `k`. */
  ghost predicate DeletedAt<K>(app: seq<K>, stored: seq<K>, denied: map<K, string>, i: int, k: K)
    requires |app| == |stored|
  {
    0 <= i < |app| && app[i] == k && stored[i] !in denied
  }

  /** The i-th key was refused, and `f` says so. */
  ghost predicate FailedAt<K>(app: seq<K>, stored: seq<K>, denied: map<K, string>, i: int, f: Failure<K>)
    requires |app| == |stored|
  {
    0 <= i < |app| && app[i] == f.key && stored[i] in denied && f.error == denied[stored[i]]
  }

  /** The report names exactly the deleted keys as deleted. */
  lemma {:induction false} DeletedAreNamed<K>(app: seq<K>, stored: seq<K>, n: nat, denied: map<K, string>, k: K)
    requires |app| == |stored| && n <= |stored|
    ensures k in ReportOf(app, stored, n, denied).deleted <==> exists i :: i < n && DeletedAt(app, stored, denied, i, k)
  {
    if n > 0 {
      DeletedAreNamed(app, stored, n - 1, denied, k);
      if i :| i < n && DeletedAt(app, stored, denied, i, k) {
        assert i == n - 1 || i < n - 1;
      }
      if app[n - 1] == k && stored[n - 1] !in denied {
        assert DeletedAt(app, stored, denied, n - 1, k);
      }
    }
  }

  /** The report names exactly the refused keys as failed, with their reasons. */
  lemma {:induction false} FailedAreNamed<K>(app: seq<K>, stored: seq<K>, n: nat, denied: map<K, string>, f: Failure<K>)
    requires |app| == |stored| && n <= |stored|
    ensures f in ReportOf(app, stored, n, denied).failed <==> exists i :: i < n && FailedAt(app, stored, denied, i, f)
  {
    if n > 0 {
      FailedAreNamed(app, stored, n - 1, denied, f);
      if i :| i < n && FailedAt(app, stored, denied, i, f) {
        assert i == n - 1 || i < n - 1;
      }
      if app[n - 1] == f.key && stored[n - 1] in denied && f.error == denied[stored[n - 1]] {
        assert FailedAt(app, stored, denied, n - 1, f);
        assert f == Failure(app[n - 1], denied[stored[n - 1]]);
      }
    }
  }
}
