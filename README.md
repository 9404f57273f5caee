# Visual History viewer: a Dafny model of its snapshot bookkeeping

Visual History is a SketchUp plugin. Each time the user commits an edit, it
renders a 320×240 JPEG thumbnail into a folder under the host's temp directory.
The user can browse the thumbnails, click one to undo back to that state, or
export them all as an animated GIF. This project models the bookkeeping in
`VisualHistory::Viewer`:

- the session counter `SESSION[:states_count]`, which is nil until the first
  snapshot and is capped at 99;
- the snapshot directory as a set of file names, plus the zero-padded name rule;
- `add_state`, which recycles the whole history when the counter passes 99;
- `remove_last_state`, `cleanup_and_reset` and `go_back_to_state`;
- the empty-history guards of the viewer dialog and of the GIF export.

Files:

- `wrappers.dfy`: `Option`, used for Ruby's nil.
- `snapshot_names.dfy` (`SnapshotNames`): the file-name rule, with Ruby's
  `Integer#to_s` for non-negative integers. A parser reads a name back into its
  index. The lemmas cover the round trip, injectivity, the two-digit stem, and
  the fact that lexicographic order of the names equals index order.
- `history.dfy` (`History`): each viewer operation as a function on a value
  `Store` (counter and directory). It also states the session invariant and
  proves the lemmas about the operations.
- `viewer.dfy` (`Viewer`): the class `Session`, with the fields the Ruby code
  updates in place. Every method is proved against the matching `History`
  function. Requests to the host are appended to the `requests` log: undo
  actions, message boxes, opening and closing the dialog, and the recycle null
  operation.

The invariant every operation keeps (`History.Inv`):

- when the counter is unset, no directory exists;
- when the counter is `c`, then `c <= 99` and the directory holds exactly the
  files for indices `1..c`.

Two links live in a host observer that is not part of this model: a commit
triggers `add_state`, and an undo triggers `remove_last_state`. Both are modelled
as explicit calls:

- `force_state_recording`, called from the recycle branch, becomes the parameter
  `hostHasEntity`. When it is true, `add_state` calls itself once more on the
  cleared session. When it is false, the model has no entity to toggle and
  nothing is re-recorded.
- Each undo that `go_back_to_state` requests becomes one `remove_last_state`.
  The function `History.Undo` and the method `Session.DeliverUndos` apply it.

Two behaviours of the code worth knowing:

- `cleanup_and_reset` sets the counter to nil, not to 0 (viewer.rb line 190).
- After a recycle, one snapshot exists only when the host model has an entity
  (viewer.rb line 50). Otherwise the history is left empty.

## Model

| member | source | states |
|---|---|---|
| SnapshotNames.NatToString | source/visual_history/viewer.rb:99-107 | Ruby's `to_s` for an index: only digits; one digit below 10, two digits from 10 to 99; no leading zero from 10 up |
| SnapshotNames.NatToStringRoundTrip | source/visual_history/viewer.rb:99-107 | reading the numeral back as decimal digits gives the index |
| SnapshotNames.FileName | source/visual_history/viewer.rb:99-107 | every snapshot name is a digit stem followed by `.jpg`, six characters long for indices up to 99 |
| SnapshotNames.FileNameRoundTrip | source/visual_history/viewer.rb:99-107 | reading a snapshot name back gives its own index, zero padding included |
| SnapshotNames.FileNameInjective | source/visual_history/viewer.rb:131-139 | two indices share a file name exactly when they are equal, so `remove_last_state` deletes no other snapshot |
| SnapshotNames.FileNameTwoDigitStem | source/visual_history/viewer.rb:99-107 | for indices 0 to 99 the stem is exactly two digits, the tens and the units of the index, then `.jpg` |
| SnapshotNames.FileNameOrder | source/visual_history/imagemagick.rb:66 | for indices up to 99, the lexicographic order of the names (the order the converter is assumed to take the `*.jpg` frames in) equals the order of the indices |
| History.NamesMember | source/visual_history/viewer.rb:99-118 | the file for index `n` is among the snapshots of a history of `c` states exactly when `1 <= n <= c` |
| History.NamesCardinality | source/visual_history/viewer.rb:83-118 | a history of `c` states holds exactly `c` snapshot files |
| History.EmptyGuardMeansNoSnapshots | source/visual_history/viewer.rb:210-216 | under the invariant, the guard "counter nil or zero" holds exactly when no snapshot file exists |
| History.AddStatePreservesInv | source/visual_history/viewer.rb:75-97 | `add_state` keeps the invariant, so the counter never exceeds 99 and the files are always those for `1..count` |
| History.AddStateBelowCapacity | source/visual_history/viewer.rb:75-118 | below 99, `add_state` reads nil as 0, raises the counter by one, and adds exactly one new file, named for the new count |
| History.AddStateAtCapacity | source/visual_history/viewer.rb:86-95 | at 99, `add_state` writes no file for index 100; it ends with an empty, unset history, or with snapshot 1 alone when the host re-records |
| History.RemoveLastStateSpec | source/visual_history/viewer.rb:127-153 | no-op on nil; otherwise deletes only the file for the current count, keeps every lower file, lowers the count with a floor at 0, and keeps the invariant |
| History.AddThenRemove | source/visual_history/viewer.rb:99-147 | below capacity, `remove_last_state` after `add_state` restores the prior counter and directory exactly |
| History.AddThenRemoveFromUnset | source/visual_history/viewer.rb:75-149 | from a nil counter the same round trip leaves no files but a counter of 0 and an empty directory |
| History.UndoFrom | source/visual_history/viewer.rb:143-149 | `k` successive `remove_last_state` calls from count `c` leave `max(0, c - k)` states and exactly their files |
| History.GoBackToStateOutcome | source/visual_history/viewer.rb:166-177 | when each requested undo removes the last state, `go_back_to_state(i)` ends at `i` clamped into `0..count` with exactly the files for `1..i`; with a nil counter nothing changes |
| History.GoBackToStateExact | source/visual_history/viewer.rb:168-177 | for `0 <= i <= count` exactly `count - i` undos are requested, and they leave `i` states and `i` files |
| History.AddTimesFromInitial | source/visual_history/viewer.rb:73-122 | from a fresh session, `k <= 99` consecutive `add_state` calls leave counter `k` and the `k` files for `1..k` |
| History.HundredthAddRecycles | source/visual_history/viewer.rb:83-95 | the 100th consecutive `add_state` recycles: one snapshot remains if the host re-records, none otherwise |
| Viewer.Session.constructor | source/visual_history.rb:39 | a new session has an unset counter, no snapshot directory, no dialog and no host requests |
| Viewer.Session.CleanupAndReset | source/visual_history/viewer.rb:186-203 | from any state: no directory, no files, a nil counter (so the history counts as empty), and a close request for a stored dialog, which is then dropped |
| Viewer.Session.ShowHtmlDialog | source/visual_history/viewer.rb:208-249 | on a nil or zero counter it only shows "History is empty."; otherwise it opens and stores the viewer dialog; the history is untouched |
| Viewer.Session.ExportToGif | source/visual_history/viewer.rb:274-282 | the export goes past its guard exactly when the counter is neither nil nor zero; otherwise only the empty-history message is shown |
| Viewer.Session.AddState | source/visual_history/viewer.rb:73-122 | the new state is `History.AddState` of the old one, and the invariant is kept; on recycle it closes a stored dialog, commits the null operation when there is an entity, and shows the dialog or the empty-history message |
| Viewer.Session.RemoveLastState | source/visual_history/viewer.rb:127-153 | the new state is `History.RemoveLastState` of the old one, the invariant is kept, and no host request is made |
| Viewer.Session.GoBackToState | source/visual_history/viewer.rb:161-181 | a non-Integer argument raises `ArgumentError`; otherwise exactly `max(0, count - i)` undo requests are appended (none with a nil counter), and the history is untouched |
| Viewer.Session.DeliverUndos | source/visual_history/viewer.rb:170-177 | delivering `k` undo notifications, one `remove_last_state` each, gives `History.Undo` of the old state |
| Viewer.GoBackScenario | source/visual_history/viewer.rb:161-181 | from 5 states, going back to state 2 requests three undos; once delivered, they leave counter 2 and the two files for states 1 and 2 |

## Left out

- `temp_dir` (viewer.rb:37-41): the directory's path comes from the host. The model has a single abstract directory, and file names are relative to it.
- `write_image` (viewer.rb:109-118): the rendering and its size, antialiasing and compression settings. Writing a snapshot is modelled as adding its name to the directory.
- `force_state_recording` (viewer.rb:46-68) when called on its own from the menu. Inside `add_state` it is the parameter `hostHasEntity`. The hidden-flag trick and the host observer are not in the model.
- The host observers (commit triggers `add_state`, undo triggers `remove_last_state`) are not part of this model. They are replaced by explicit calls.
- Viewer.Session.ShowHtmlDialog: the dialog contents and its click callback are not modelled. `SESSION[:html_dialog]` is the flag `hasDialog`, so opening a second dialog while one is stored is not distinguished from opening the first.
- `reload_html_dialog` (viewer.rb:256-269): dialog plumbing only.
- Viewer.Session.ExportToGif: models only the empty-history guard. The directory picker, the delay input box and the ImageMagick call that follow are host UI and an external process.
- File-system failures: a directory that cannot be created or a file that cannot be deleted are not modelled.
- Leftover snapshots: the directory is assumed absent when the plugin loads. Files left from an earlier session are not modelled.
- `grouponents.rb`, `menu.rb`, `imagemagick.rb` and `visual_history.rb` (apart from the empty session hash) are not part of this model. They hold host geometry, menu wiring, the external converter and extension registration.
