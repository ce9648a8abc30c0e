/**
 Choosing the entry a "latest" request redirects to, from a directory
 listing. The handler's loop compares every entry's modification time with
 a baseline that starts at the zero time and is never updated, so the entry
 it keeps is the LAST one whose time is after the zero time, or entry 0 when
 none is. `SelectIndex` and `LastAfterZero` model that loop as written;
 `SelectNewest` and `NewestIndex` model the selection the surrounding
 comments describe (the most recently modified entry, the first one on a
 tie), obtained by moving the baseline forward with every entry kept.
 */
module Selection {

  /** One entry of a directory listing: its name and its modification time.
      Times are whole numbers; `ZeroTime` stands for Go's zero `time.Time`. */
  datatype FileInfo = FileInfo(name: string, modTime: int)

  const ZeroTime: int := 0

  /** Go's `t.After(u)`: `t` is strictly later than `u`. */
  predicate After(t: int, u: int)
  {
    t > u
  }

  /** No entry of the listing carries a time after the zero time. */
  predicate NoneAfterZero(infos: seq<FileInfo>)
  {
    forall j | 0 <= j < |infos| :: !After(infos[j].modTime, ZeroTime)
  }

  /** `k` is the greatest index whose time is after the zero time, or 0 when
      there is no such index. */
  predicate IsLastAfterZero(infos: seq<FileInfo>, k: nat)
  {
    && (forall j | k < j < |infos| :: !After(infos[j].modTime, ZeroTime))
    && (if NoneAfterZero(infos) then k == 0
        else k < |infos| && After(infos[k].modTime, ZeroTime))
  }

  /** `k` is the index of the most recently modified entry, the first one
      among entries with equal times, in a listing with a time after zero. */
  predicate IsFirstNewest(infos: seq<FileInfo>, k: nat)
  {
    && k < |infos|
    && (forall j | 0 <= j < |infos| :: infos[j].modTime <= infos[k].modTime)
    && (forall j | 0 <= j < k :: infos[j].modTime < infos[k].modTime)
  }

  lemma LastAfterZeroUnique(infos: seq<FileInfo>, k1: nat, k2: nat)
    requires IsLastAfterZero(infos, k1) && IsLastAfterZero(infos, k2)
    ensures k1 == k2
  {
  }

  lemma FirstNewestUnique(infos: seq<FileInfo>, k1: nat, k2: nat)
    requires IsFirstNewest(infos, k1) && IsFirstNewest(infos, k2)
    ensures k1 == k2
  {
    // Both are maximal, so their times agree, and neither can come first.
    assert infos[k2].modTime <= infos[k1].modTime;
    assert infos[k1].modTime <= infos[k2].modTime;
  }

  /** The loop as written, as a function over the listing: the entry kept
      after the last iteration. */
  function LastAfterZero(infos: seq<FileInfo>): (k: nat)
    ensures IsLastAfterZero(infos, k)
    ensures |infos| > 0 ==> k < |infos|
  {
    if |infos| == 0 then 0
    else if After(infos[|infos| - 1].modTime, ZeroTime) then |infos| - 1
    else LastAfterZero(infos[..|infos| - 1])
  }

  /** The selection loop of the handler, statement for statement: `k` and
      the baseline `t` start at zero, and `t` is never reassigned. */
  method SelectIndex(infos: seq<FileInfo>) returns (k: nat)
    ensures IsLastAfterZero(infos, k)
    ensures |infos| > 0 ==> k < |infos|
  {
    k := 0;
    var t := ZeroTime;
    for i := 0 to |infos|
      invariant IsLastAfterZero(infos[..i], k)
      invariant i > 0 ==> k < i
    {
      if After(infos[i].modTime, t) {
        k := i;
      }
    }
    assert infos[..|infos|] == infos;
  }

  /** The loop state of the corrected selection after scanning the whole
      listing: the index kept and the baseline, which follows the kept
      entry's time once an entry after the zero time has been seen. */
  function NewestState(infos: seq<FileInfo>): (s: (nat, int))
    ensures |infos| > 0 ==> s.0 < |infos|
    ensures NoneAfterZero(infos) ==> s == (0, ZeroTime)
    ensures !NoneAfterZero(infos) ==> IsFirstNewest(infos, s.0) && s.1 == infos[s.0].modTime
  {
    if |infos| == 0 then (0, ZeroTime)
    else
      var prev := infos[..|infos| - 1];
      var (k, t) := NewestState(prev);
      var last := infos[|infos| - 1];
      assert forall j | 0 <= j < |prev| :: prev[j] == infos[j];
      if After(last.modTime, t) then (|infos| - 1, last.modTime) else (k, t)
  }

  /** Index of the most recently modified entry, first on a tie; 0 when no
      entry has a time after the zero time. */
  function NewestIndex(infos: seq<FileInfo>): (k: nat)
    ensures |infos| > 0 ==> k < |infos|
    ensures NoneAfterZero(infos) ==> k == 0
    ensures !NoneAfterZero(infos) ==> IsFirstNewest(infos, k)
  {
    NewestState(infos).0
  }

  /** The selection loop with the baseline moved forward whenever an entry
      is kept, so that it keeps the newest entry. */
  method SelectNewest(infos: seq<FileInfo>) returns (k: nat)
    ensures |infos| > 0 ==> k < |infos|
    ensures NoneAfterZero(infos) ==> k == 0
    ensures !NoneAfterZero(infos) ==> IsFirstNewest(infos, k)
  {
    k := 0;
    var t := ZeroTime;
    for i := 0 to |infos|
      invariant (k, t) == NewestState(infos[..i])
    {
      assert infos[..i + 1][..i] == infos[..i];
      if After(infos[i].modTime, t) {
        k := i;
        t := infos[i].modTime;
      }
    }
    assert infos[..|infos|] == infos;
  }

  /** The as-written selection keeps the last entry whose time is after the
      zero time even when an earlier entry is newer: with times 5, 9, 9, 3
      it keeps index 3 (time 3) where the newest entry is index 1. */
  lemma AsWrittenIsNotNewest()
    ensures var infos := [FileInfo("a", 5), FileInfo("b", 9), FileInfo("c", 9), FileInfo("d", 3)];
      && LastAfterZero(infos) == 3
      && NewestIndex(infos) == 1
      && !IsFirstNewest(infos, LastAfterZero(infos))
  {
    var infos := [FileInfo("a", 5), FileInfo("b", 9), FileInfo("c", 9), FileInfo("d", 3)];
    assert !NoneAfterZero(infos) by { assert After(infos[0].modTime, ZeroTime); }
    assert IsLastAfterZero(infos, 3);
    LastAfterZeroUnique(infos, 3, LastAfterZero(infos));
    assert IsFirstNewest(infos, 1);
    var n := NewestIndex(infos);
    assert n == 1 by {
      assert IsFirstNewest(infos, n);
      assert infos[n].modTime == 9;
    }
  }

  /** Entries before the kept one play no part in the as-written choice:
      changing their names, their times or their order leaves the chosen
      index unchanged. (When no entry is after the zero time the kept index
      is 0 and the two listings are equal.) */
  lemma {:induction false} SelectionIgnoresEarlierEntries(a: seq<FileInfo>, b: seq<FileInfo>)
    requires |a| == |b|
    requires a[LastAfterZero(a)..] == b[LastAfterZero(a)..]
    ensures LastAfterZero(b) == LastAfterZero(a)
  {
    var k := LastAfterZero(a);
    forall j | k <= j < |b|
      ensures b[j] == a[j]
    {
      assert b[k..][j - k] == a[k..][j - k];
    }
    assert IsLastAfterZero(b, k);
    LastAfterZeroUnique(b, k, LastAfterZero(b));
  }

  /** Names play no part in either selection: listings whose times agree
      entry by entry select the same index. */
  lemma {:induction false} SelectionIgnoresNames(a: seq<FileInfo>, b: seq<FileInfo>)
    requires |a| == |b|
    requires forall j | 0 <= j < |a| :: a[j].modTime == b[j].modTime
    ensures LastAfterZero(a) == LastAfterZero(b)
    ensures NewestIndex(a) == NewestIndex(b)
  {
    if |a| > 0 {
      var a', b' := a[..|a| - 1], b[..|b| - 1];
      SelectionIgnoresNames(a', b');
      assert NewestState(a') == NewestState(b');
    }
  }
}
