/**
  The bookkeeping of the Visual History viewer as values: the session counter
  `SESSION[:states_count]` and the snapshot directory under the host's temp
  directory. Each operation of the viewer is a function from the old `Store`
  to the new one; the `Viewer.Session` class is proved against them.
 */
module History {
  import opened Wrappers
  import opened SnapshotNames

  /** The largest number of snapshots kept: `add_state` treats a count above it as the undo-stack limit. */
  const Capacity: nat := 99

  /**
    `count` is `SESSION[:states_count]` (`None` for nil); `dir` is the
    snapshot directory, `None` when it does not exist and otherwise the set
    of file names in it.
   */
  datatype Store = Store(count: Option<nat>, dir: Option<set<string>>)

  /** A fresh session: counter unset, no snapshot directory. */
  const Initial: Store := Store(None, None)

  /** The snapshot files present (none when the directory does not exist). */
  function Files(s: Store): set<string> {
    if s.dir.Some? then s.dir.value else {}
  }

  /** The counter as `add_state` reads it: an unset counter counts as 0. */
  function CountOf(s: Store): nat {
    if s.count.Some? then s.count.value else 0
  }

  /** The names of snapshots `1..c`. */
  function Names(c: nat): set<string>
    decreases c
  {
    if c == 0 then {} else Names(c - 1) + {FileName(c)}
  }

  /**
    The session invariant: with the counter unset there is no directory;
    with counter `c` it is at most `Capacity` and the directory holds
    exactly the files for indices `1..c`.
   */
  ghost predicate Inv(s: Store) {
    match s.count
    case None => s.dir.None?
    case Some(c) => c <= Capacity && s.dir == Some(Names(c))
  }

  /** The guard of the viewer dialog and of the GIF export: no counter, or a zero one. */
  predicate HistoryIsEmpty(count: Option<nat>) {
    count.None? || count.value == 0
  }

  /**
    `add_state`: count one more snapshot and write its file; past `Capacity`
    the history is recycled instead (the directory is removed and the counter
    unset), and when the host has an entity to toggle, the null operation it
    commits records one state again through a nested `add_state`.
   */
  function AddState(s: Store, hostHasEntity: bool): Store
    decreases if CountOf(s) >= Capacity then 1 else 0
  {
    var n := CountOf(s) + 1;
    if n > Capacity then
      if hostHasEntity then AddState(Initial, hostHasEntity) else Initial
    else
      var dir := if s.dir.Some? then s.dir.value else {};
      Store(Some(n), Some(dir + {FileName(n)}))
  }

  /**
    `remove_last_state`: nothing on an unset counter; otherwise delete the
    file named for the counter, if present, and lower the counter, never
    below 0.
   */
  function RemoveLastState(s: Store): Store {
    match s.count
    case None => s
    case Some(c) =>
      var lowered := c - 1;
      var dir := if s.dir.Some? then Some(s.dir.value - {FileName(c)}) else None;
      Store(Some(if lowered < 0 then 0 else lowered), dir)
  }

  /**
    The number of undo requests `go_back_to_state` issues for an Integer
    index: none with the counter unset, and `count - index` otherwise, where
    Ruby's `Integer#times` runs no iteration for a count that is not positive.
   */
  function UndoCount(count: Option<nat>, stateIndex: int): nat {
    match count
    case None => 0
    case Some(c) => if c - stateIndex > 0 then c - stateIndex else 0
  }

  /** The store after `k` undo notifications, each of which runs `remove_last_state`. */
  function Undo(s: Store, k: nat): Store
    decreases k
  {
    if k == 0 then s else Undo(RemoveLastState(s), k - 1)
  }

  /** The store after `k` consecutive `add_state` calls. */
  function AddTimes(s: Store, k: nat, hostHasEntity: bool): Store
    decreases k
  {
    if k == 0 then s else AddState(AddTimes(s, k - 1, hostHasEntity), hostHasEntity)
  }

  // ---------------------------------------------------------------------------
  // The snapshot names of a history

  /** The file for index `n` is among the names of `1..c` exactly when `1 <= n <= c`. */
  lemma {:induction false} NamesMember(c: nat, n: nat)
    ensures FileName(n) in Names(c) <==> 1 <= n <= c
    decreases c
  {
    if c > 0 {
      NamesMember(c - 1, n);
      FileNameInjective(n, c);
    }
  }

  /** A history of `c` states has exactly `c` snapshot files. */
  lemma {:induction false} NamesCardinality(c: nat)
    ensures |Names(c)| == c
  {
    if c > 0 {
      NamesCardinality(c - 1);
      NamesMember(c - 1, c);
    }
  }

  /** The empty-history guard holds exactly when there is no snapshot file. */
  lemma EmptyGuardMeansNoSnapshots(s: Store)
    requires Inv(s)
    ensures HistoryIsEmpty(s.count) <==> Files(s) == {}
  {
    if s.count.Some? && s.count.value > 0 {
      NamesMember(s.count.value, 1);
    }
  }

  // ---------------------------------------------------------------------------
  // add_state

  /** `add_state` keeps the invariant, so the counter never exceeds `Capacity`. */
  lemma AddStatePreservesInv(s: Store, hostHasEntity: bool)
    requires Inv(s)
    ensures Inv(AddState(s, hostHasEntity))
    ensures CountOf(AddState(s, hostHasEntity)) <= Capacity
  {
    var r := AddState(s, hostHasEntity);
    if CountOf(s) < Capacity {
      assert r.dir.value == Names(CountOf(s) + 1);
    } else {
      AddStateAtCapacity(s, hostHasEntity);
      assert Names(1) == {FileName(1)};
    }
  }

  /**
    Below capacity, `add_state` (reading an unset counter as 0) raises the
    counter by one and adds exactly one file, a new one, named for the new
    count.
   */
  lemma AddStateBelowCapacity(s: Store, hostHasEntity: bool)
    requires Inv(s) && CountOf(s) < Capacity
    ensures var r := AddState(s, hostHasEntity);
      && r.count == Some(CountOf(s) + 1)
      && Files(r) == Files(s) + {FileName(CountOf(s) + 1)}
      && FileName(CountOf(s) + 1) !in Files(s)
      && |Files(r)| == |Files(s)| + 1
  {
    var n := CountOf(s) + 1;
    NamesMember(CountOf(s), n);
    NamesCardinality(CountOf(s));
    NamesCardinality(n);
  }

  /**
    At capacity, `add_state` never writes the file for index 100: it wipes
    the directory and unsets the counter, and the only state left is the one
    the optional re-recording adds, snapshot 1.
   */
  lemma AddStateAtCapacity(s: Store, hostHasEntity: bool)
    requires s.count == Some(Capacity)
    ensures var r := AddState(s, hostHasEntity);
      && FileName(Capacity + 1) !in Files(r)
      && r == (if hostHasEntity then Store(Some(1), Some({FileName(1)})) else Initial)
  {
    FileNameInjective(1, Capacity + 1);
    assert AddState(Initial, hostHasEntity).dir.value == {FileName(1)};
  }

  // ---------------------------------------------------------------------------
  // remove_last_state

  /**
    `remove_last_state` does nothing on an unset counter; otherwise it
    deletes only the file named for the counter, keeps every lower-indexed
    file, lowers the counter by one with a floor at 0, and keeps the invariant.
   */
  lemma RemoveLastStateSpec(s: Store)
    requires Inv(s)
    ensures var r := RemoveLastState(s);
      && Inv(r)
      && (s.count.None? ==> r == s)
      && (s.count.Some? ==>
            && r.count == Some(if s.count.value == 0 then 0 else s.count.value - 1)
            && Files(r) == Files(s) - {FileName(s.count.value)}
            && forall j :: 1 <= j < s.count.value ==> FileName(j) in Files(r))
  {
    if s.count.Some? {
      var c := s.count.value;
      if c > 0 {
        NamesMember(c - 1, c);
        assert RemoveLastState(s).dir.value == Names(c - 1);
      } else {
        assert RemoveLastState(s).dir.value == Names(0);
      }
      forall j | 1 <= j < c
        ensures FileName(j) in Files(RemoveLastState(s))
      {
        NamesMember(c, j);
        FileNameInjective(j, c);
      }
    }
  }

  /** Below capacity, `remove_last_state` undoes `add_state` exactly. */
  lemma AddThenRemove(s: Store, hostHasEntity: bool)
    requires Inv(s) && s.count.Some? && s.count.value < Capacity
    ensures RemoveLastState(AddState(s, hostHasEntity)) == s
  {
    var c := s.count.value;
    NamesMember(c, c + 1);
    assert Names(c) + {FileName(c + 1)} - {FileName(c + 1)} == Names(c);
  }

  /**
    From an unset counter the same round trip restores the files but leaves
    the counter at 0 and the (empty) directory in place.
   */
  lemma AddThenRemoveFromUnset(s: Store, hostHasEntity: bool)
    requires Inv(s) && s.count.None?
    ensures RemoveLastState(AddState(s, hostHasEntity)) == Store(Some(0), Some({}))
  {
    assert {FileName(1)} - {FileName(1)} == {};
  }

  // ---------------------------------------------------------------------------
  // go_back_to_state, composed with one remove_last_state per undo

  /** `k` undos from counter `c` leave `max(0, c - k)` states and exactly their files. */
  lemma {:induction false} UndoFrom(s: Store, k: nat)
    requires Inv(s) && s.count.Some?
    ensures var t := if s.count.value - k < 0 then 0 else s.count.value - k;
      Undo(s, k) == Store(Some(t), Some(Names(t)))
    decreases k
  {
    if k > 0 {
      RemoveLastStateSpec(s);
      UndoFrom(RemoveLastState(s), k - 1);
    }
  }

  /**
    When each undo request of `go_back_to_state(i)` removes the last state,
    the history ends at state `i` clamped into `0..count`, with exactly the
    files for `1..i`; with the counter unset nothing happens.
   */
  lemma GoBackToStateOutcome(s: Store, stateIndex: int)
    requires Inv(s)
    ensures var r := Undo(s, UndoCount(s.count, stateIndex));
      match s.count
      case None => r == s
      case Some(c) =>
        var t := if stateIndex < 0 then 0 else if stateIndex > c then c else stateIndex;
        r == Store(Some(t), Some(Names(t)))
  {
    if s.count.Some? {
      UndoFrom(s, UndoCount(s.count, stateIndex));
    }
  }

  /** For an index in `0..count`, exactly `count - i` undos bring the history back to `i`. */
  lemma GoBackToStateExact(s: Store, stateIndex: int)
    requires Inv(s) && s.count.Some? && 0 <= stateIndex <= s.count.value
    ensures UndoCount(s.count, stateIndex) == s.count.value - stateIndex
    ensures Undo(s, UndoCount(s.count, stateIndex)) == Store(Some(stateIndex), Some(Names(stateIndex)))
    ensures |Files(Undo(s, UndoCount(s.count, stateIndex)))| == stateIndex
  {
    GoBackToStateOutcome(s, stateIndex);
    NamesCardinality(stateIndex);
  }

  // ---------------------------------------------------------------------------
  // Sequences of add_state

  /** Up to capacity, `k` adds from a fresh session leave `k` states and their `k` files. */
  lemma {:induction false} AddTimesFromInitial(k: nat, hostHasEntity: bool)
    requires 1 <= k <= Capacity
    ensures AddTimes(Initial, k, hostHasEntity) == Store(Some(k), Some(Names(k)))
    ensures |Files(AddTimes(Initial, k, hostHasEntity))| == k
  {
    var prior := AddTimes(Initial, k - 1, hostHasEntity);
    if k > 1 {
      AddTimesFromInitial(k - 1, hostHasEntity);
    } else {
      assert prior == Initial;
    }
    assert Inv(prior) && CountOf(prior) == k - 1;
    AddStatePreservesInv(prior, hostHasEntity);
    AddStateBelowCapacity(prior, hostHasEntity);
    var r := AddTimes(Initial, k, hostHasEntity);
    assert r == AddState(prior, hostHasEntity);
    assert r.count == Some(k) && r.dir == Some(Names(k));
    NamesCardinality(k);
  }

  /**
    The 100th consecutive add recycles: one snapshot is left when the host
    can re-record, none otherwise.
   */
  lemma HundredthAddRecycles(hostHasEntity: bool)
    ensures var r := AddTimes(Initial, Capacity + 1, hostHasEntity);
      r == (if hostHasEntity then Store(Some(1), Some({FileName(1)})) else Initial)
      && |Files(r)| == (if hostHasEntity then 1 else 0)
  {
    AddTimesFromInitial(Capacity, hostHasEntity);
    AddStateAtCapacity(AddTimes(Initial, Capacity, hostHasEntity), hostHasEntity);
  }
}
