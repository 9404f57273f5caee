/**
  `VisualHistory::Viewer` as an object: the session storage it updates in
  place, the snapshot directory it writes and deletes files in, and the
  requests it sends to the host (undo actions, message boxes, the viewer
  dialog), kept in order in `requests`. Rendering a snapshot is modelled as
  adding its file name to the directory.
 */
module Viewer {
  import opened Wrappers
  import opened SnapshotNames
  import History

  /** The argument `go_back_to_state` receives: a Ruby Integer or any other object. */
  datatype Argument = Integer(value: int) | NotAnInteger

  /** How a call ends: normally, or by raising `ArgumentError`. */
  datatype Outcome = Done | ArgumentError(message: string)

  /** What the viewer asks of the host. */
  datatype HostRequest =
    | EditUndo                     // one `Sketchup.send_action('editUndo:')`
    | NullOperation(name: string)  // the empty operation `force_state_recording` commits
    | HistoryEmptyMessage          // the "History is empty." message box
    | OpenDialog                   // a new "Visual History Viewer" dialog is shown
    | CloseDialog                  // the stored dialog is closed

  const RecycleOperation: string := "Recycle Visual History"

  /** `k` undo requests. */
  function Undos(k: nat): (r: seq<HostRequest>)
    ensures |r| == k && forall i :: 0 <= i < k ==> r[i] == EditUndo
  {
    seq(k, _ => EditUndo)
  }

  /** The requests `show_html_dialog` makes for a given counter. */
  function ShowRequests(count: Option<nat>): seq<HostRequest> {
    if History.HistoryIsEmpty(count) then [HistoryEmptyMessage] else [OpenDialog]
  }

  class Session {
    /** `SESSION[:states_count]`. */
    var count: Option<nat>
    /** The snapshot directory: `None` when it does not exist, else the file names in it. */
    var dir: Option<set<string>>
    /** Whether `SESSION[:html_dialog]` holds a dialog. */
    var hasDialog: bool
    /** Every request made to the host, oldest first. */
    var requests: seq<HostRequest>

    ghost function Store(): History.Store
      reads this
    {
      History.Store(count, dir)
    }

    ghost predicate Valid()
      reads this
    {
      History.Inv(Store())
    }

    /** Plugin load: an empty session and no snapshot directory yet. */
    constructor ()
      ensures Valid() && Store() == History.Initial
      ensures !hasDialog && requests == []
    {
      count := None;
      dir := None;
      hasDialog := false;
      requests := [];
    }

    /** `cleanup_and_reset`: remove the directory, unset the counter, close any dialog. */
    method CleanupAndReset()
      modifies this
      ensures Valid() && Store() == History.Initial
      ensures History.HistoryIsEmpty(count) && History.Files(Store()) == {}
      ensures !hasDialog
      ensures requests == old(requests) + (if old(hasDialog) then [CloseDialog] else [])
    {
      if dir.Some? {
        dir := None;
      }
      count := None;
      if hasDialog {
        requests := requests + [CloseDialog];
        hasDialog := false;
      }
    }

    /** `show_html_dialog`: refuse with a message on an empty history, else open the viewer. */
    method ShowHtmlDialog()
      modifies this
      ensures Store() == old(Store())
      ensures requests == old(requests) + ShowRequests(old(count))
      ensures hasDialog == (old(hasDialog) || !History.HistoryIsEmpty(old(count)))
    {
      if count.None? || count.value == 0 {
        requests := requests + [HistoryEmptyMessage];
        return;
      }
      requests := requests + [OpenDialog];
      hasDialog := true;
    }

    /**
      `export_to_gif` up to its guard: on an empty history it shows the
      message and stops; otherwise the export goes on (`proceeds`).
     */
    method ExportToGif() returns (proceeds: bool)
      modifies this
      ensures proceeds == !History.HistoryIsEmpty(old(count))
      ensures Store() == old(Store()) && hasDialog == old(hasDialog)
      ensures requests == old(requests) + (if proceeds then [] else [HistoryEmptyMessage])
    {
      if count.None? || count.value == 0 {
        requests := requests + [HistoryEmptyMessage];
        return false;
      }
      return true;
    }

    /**
      `add_state`. Below capacity it records one snapshot. Past capacity it
      recycles: cleanup, then (when the host model has an entity) the null
      operation of `force_state_recording`, whose commit records a state
      again, then the viewer dialog.
     */
    method AddState(hostHasEntity: bool)
      requires Valid()
      modifies this
      ensures Valid()
      ensures Store() == History.AddState(old(Store()), hostHasEntity)
      ensures old(History.CountOf(Store())) < History.Capacity ==>
        requests == old(requests) && hasDialog == old(hasDialog)
      ensures old(History.CountOf(Store())) >= History.Capacity ==>
        && hasDialog == hostHasEntity
        && requests == old(requests) + (if old(hasDialog) then [CloseDialog] else [])
                       + (if hostHasEntity then [NullOperation(RecycleOperation), OpenDialog]
                          else [HistoryEmptyMessage])
      decreases if History.CountOf(Store()) >= History.Capacity then 1 else 0
    {
      ghost var s0 := Store();
      if count.None? {
        count := Some(0);
      }
      if dir.None? {
        dir := Some({});
      }
      count := Some(count.value + 1);
      if count.value > History.Capacity {
        CleanupAndReset();
        if hostHasEntity {
          requests := requests + [NullOperation(RecycleOperation)];
          AddState(hostHasEntity);
        }
        ShowHtmlDialog();
        return;
      }
      dir := Some(dir.value + {FileName(count.value)});
      History.AddStatePreservesInv(s0, hostHasEntity);
    }

    /** `remove_last_state`. */
    method RemoveLastState()
      requires Valid()
      modifies this
      ensures Valid()
      ensures Store() == History.RemoveLastState(old(Store()))
      ensures hasDialog == old(hasDialog) && requests == old(requests)
    {
      ghost var s0 := Store();
      if count.None? {
        return;
      }
      var name := FileName(count.value);
      if dir.Some? && name in dir.value {
        dir := Some(dir.value - {name});
      }
      var lowered := count.value - 1;
      if lowered < 0 {
        lowered := 0;
      }
      count := Some(lowered);
      History.RemoveLastStateSpec(s0);
    }

    /**
      `go_back_to_state`: raise on a non-Integer index, do nothing with the
      counter unset, and otherwise request `count - index` undos (none when
      that is not positive). The history itself is left to the host's undo
      notifications.
     */
    method GoBackToState(stateIndex: Argument) returns (outcome: Outcome)
      modifies this
      ensures outcome == if stateIndex.Integer? then Done
                         else ArgumentError("State Index must be an Integer.")
      ensures Store() == old(Store()) && hasDialog == old(hasDialog)
      ensures requests == old(requests) +
        (if stateIndex.Integer? then Undos(History.UndoCount(old(count), stateIndex.value)) else [])
    {
      if !stateIndex.Integer? {
        return ArgumentError("State Index must be an Integer.");
      }
      if count.None? {
        return Done;
      }
      var statesToRemove := count.value - stateIndex.value;
      var k := 0;
      while k < statesToRemove
        invariant 0 <= k <= (if statesToRemove > 0 then statesToRemove else 0)
        invariant requests == old(requests) + Undos(k)
        invariant Store() == old(Store()) && hasDialog == old(hasDialog)
      {
        requests := requests + [EditUndo];
        k := k + 1;
      }
      assert k == History.UndoCount(count, stateIndex.value);
      return Done;
    }

    /**
      The host's undo notification, one `remove_last_state` per undo: the
      `k` undos `go_back_to_state` requested, delivered in turn.
     */
    method DeliverUndos(k: nat)
      requires Valid()
      modifies this
      ensures Valid()
      ensures Store() == History.Undo(old(Store()), k)
      ensures hasDialog == old(hasDialog) && requests == old(requests)
    {
      var i := 0;
      while i < k
        invariant i <= k
        invariant Valid()
        invariant History.Undo(old(Store()), k) == History.Undo(Store(), k - i)
        invariant hasDialog == old(hasDialog) && requests == old(requests)
      {
        RemoveLastState();
        i := i + 1;
      }
    }
  }

  /**
    Going back from state 5 to state 2 requests three undos, and once each
    of them has removed the last state the history holds states 1 and 2.
   */
  method GoBackScenario(session: Session)
    requires session.Valid() && session.count == Some(5) && session.requests == []
    modifies session
    ensures session.Valid() && session.count == Some(2)
    ensures session.requests == [EditUndo, EditUndo, EditUndo]
    ensures session.dir == Some(History.Names(2)) && |History.Names(2)| == 2
  {
    ghost var before := session.Store();
    var outcome := session.GoBackToState(Integer(2));
    History.GoBackToStateExact(before, 2);
    session.DeliverUndos(|session.requests|);
  }
}
