/** The home screen (views/Home.tsx): creating and cloning workouts, pairing
    and removing displays with a six-slot code, the list of scheduled days, the
    folder filter and the "recently modified" order. New ids and the clock
    reading are parameters. */
module Home {
  import opened Types
  import Text
  import Seqs
  import WorkoutEditor

  /** `handleCreateWorkout`: an empty, unscheduled workout. */
  function CreateWorkout(newId: string, now: int): (w: Workout)
    ensures w.id == newId && w.name == "New Workout" && w.lastModified == now
    ensures w.modules == [] && w.scheduledDays == []
  {
    Workout(newId, "New Workout", [], now, [])
  }

  /** The copy of a template: its modules and days, a new id, the current time
      and the name with " (Copy)" appended. */
  function Clone(template: Workout, newId: string, now: int): (c: Workout)
    ensures c.modules == template.modules && c.scheduledDays == template.scheduledDays
    ensures c.id == newId && c.lastModified == now
    ensures c.name == template.name + " (Copy)"
  {
    template.(id := newId, lastModified := now, name := template.name + " (Copy)")
  }

  /** `handleCloneTemplate`: the copy is appended to the saved workouts. */
  function CloneTemplate(workouts: seq<Workout>, template: Workout, newId: string, now: int): (r: seq<Workout>)
    ensures |r| == |workouts| + 1 && r[..|workouts|] == workouts
    ensures r[|workouts|] == Clone(template, newId, now)
  {
    workouts + [Clone(template, newId, now)]
  }

  /** The six empty slots of the pairing dialog. */
  const BlankCode: seq<string> := ["", "", "", "", "", ""]

  /** Every slot holds at most one character and none is a lower-case letter. */
  predicate WellFormedCode(code: seq<string>)
  {
    |code| == 6
    && (forall i :: 0 <= i < |code| ==> |code[i]| <= 1)
    && (forall i, j :: 0 <= i < |code| && 0 <= j < |code[i]| ==> !Text.IsLowerLetter(code[i][j]))
  }

  /** `handleCodeChange`: the upper-cased input goes into slot `index` unless it
      is longer than one character, in which case nothing changes. */
  function CodeChange(code: seq<string>, index: nat, val: string): (r: seq<string>)
    requires index < |code|
    ensures |Text.ToUpper(val)| > 1 ==> r == code
    ensures |Text.ToUpper(val)| <= 1 ==> r == code[index := Text.ToUpper(val)]
    ensures WellFormedCode(code) ==> WellFormedCode(r)
  {
    var v := Text.ToUpper(val);
    if |v| > 1 then code else code[index := v]
  }

  /** The "Link Device" button is enabled when no slot is empty. */
  predicate CanLink(code: seq<string>)
  {
    forall i :: 0 <= i < |code| ==> code[i] != ""
  }

  /** A well-formed code that can be linked joins to six upper-case characters,
      which `toUpperCase` leaves as they are. */
  lemma LinkedCodeShape(code: seq<string>)
    requires WellFormedCode(code) && CanLink(code)
    ensures |Text.Join(code)| == 6
    ensures Text.ToUpper(Text.Join(code)) == Text.Join(code)
  {
    Text.JoinOfSingletons(code);
    Text.JoinNoLower(code);
    Text.ToUpperOfUpper(Text.Join(code));
  }

  /** The display record `handlePair` adds for a joined code. */
  function NewDisplay(displays: seq<Display>, code: string, now: int): (d: Display)
    ensures d.id == Text.ToUpper(code) && d.isActive && d.pairedAt == now
    ensures d.name == "TV Display " + Text.Decimal(|displays| + 1)
  {
    Display(Text.ToUpper(code), "TV Display " + Text.Decimal(|displays| + 1), true, now)
  }

  /** The home screen's pairing state: the paired displays, the six code
      slots and whether the pairing dialog is open. */
  datatype Pairing = Pairing(displays: seq<Display>, code: seq<string>, dialogOpen: bool)

  /** `handlePair`: the new display is appended; the code goes back to
      `BlankCode` and the dialog closes. */
  function Pair(p: Pairing, code: string, now: int): (r: Pairing)
    ensures |r.displays| == |p.displays| + 1 && r.displays[..|p.displays|] == p.displays
    ensures r.displays[|p.displays|] == NewDisplay(p.displays, code, now)
    ensures r.code == BlankCode && !r.dialogOpen
  {
    Pairing(p.displays + [NewDisplay(p.displays, code, now)], BlankCode, false)
  }

  /** `handleRemoveDisplay`: every display with the id goes, the others stay in order. */
  function RemoveDisplay(displays: seq<Display>, id: string): (r: seq<Display>)
    ensures forall d :: d in r <==> d in displays && d.id != id
    ensures forall d :: multiset(r)[d] == if d.id != id then multiset(displays)[d] else 0
    ensures Seqs.IsSubseq(r, displays)
  {
    Seqs.FilterIsSubseq(displays, (d: Display) => d.id != id);
    Seqs.Filter(displays, (d: Display) => d.id != id)
  }

  /** Removing a freshly paired display restores the list, when no display
      had that id before. */
  lemma PairThenRemove(p: Pairing, code: string, now: int)
    requires forall d :: d in p.displays ==> d.id != Text.ToUpper(code)
    ensures RemoveDisplay(Pair(p, code, now).displays, Text.ToUpper(code)) == p.displays
  {
    var keep := (d: Display) => d.id != Text.ToUpper(code);
    Seqs.FilterAppend(p.displays, [NewDisplay(p.displays, code, now)], keep);
    Seqs.FilterKeepsAll(p.displays, keep);
  }

  /** `workouts.flatMap(w => w.scheduledDays)`. */
  function AllScheduledDays(workouts: seq<Workout>): (days: seq<int>)
    ensures forall d :: d in days <==> exists w :: w in workouts && d in w.scheduledDays
  {
    if workouts == [] then [] else workouts[0].scheduledDays + AllScheduledDays(workouts[1..])
  }

  /** `scheduledDaysList`: each day on which some workout is scheduled, once,
      in order of first appearance. */
  function ScheduledDays(workouts: seq<Workout>): (days: seq<int>)
    ensures Seqs.NoDuplicates(days)
    ensures forall d :: d in days <==> exists w :: w in workouts && d in w.scheduledDays
  {
    Seqs.Dedup(AllScheduledDays(workouts))
  }

  /** `filteredBySchedule`: the workouts scheduled on `day`. */
  function ScheduledOn(workouts: seq<Workout>, day: int): (r: seq<Workout>)
    ensures forall w :: w in r <==> w in workouts && day in w.scheduledDays
  {
    Seqs.Filter(workouts, (w: Workout) => day in w.scheduledDays)
  }

  /** A day is in the scheduled-days list exactly when its own list is not empty. */
  lemma ScheduledDaysAgree(workouts: seq<Workout>, day: int)
    ensures day in ScheduledDays(workouts) <==> ScheduledOn(workouts, day) != []
  {
    var on := ScheduledOn(workouts, day);
    if day in ScheduledDays(workouts) {
      var w :| w in workouts && day in w.scheduledDays;
      assert w in on;
    }
  }

  /** Position `i` holds the first folder with the id. */
  predicate FirstFolderWithId(folders: seq<Folder>, id: string, i: int)
  {
    0 <= i < |folders| && folders[i].id == id && forall j :: 0 <= j < i ==> folders[j].id != id
  }

  /** `folders.find(f => f.id === id)`: the first folder with the id. */
  function FindFolder(folders: seq<Folder>, id: string): (r: Option<Folder>)
    ensures r.Some? ==> r.value in folders && r.value.id == id
    ensures r.None? <==> forall f :: f in folders ==> f.id != id
    ensures r.Some? ==> exists i :: FirstFolderWithId(folders, id, i) && r.value == folders[i]
  {
    if folders == [] then None
    else if folders[0].id == id then Some(folders[0])
    else FindFolder(folders[1..], id)
  }

  /** `filteredByFolder`: with no active folder (null or the empty string) every
      workout; otherwise the workouts listed by the first folder with that id,
      and none when there is no such folder. */
  function FilteredByFolder(workouts: seq<Workout>, folders: seq<Folder>, activeFolderId: Option<string>): (r: seq<Workout>)
    ensures activeFolderId.None? || activeFolderId.value == "" ==> r == workouts
    ensures activeFolderId.Some? && activeFolderId.value != "" ==>
      forall w :: w in r <==>
        w in workouts && FindFolder(folders, activeFolderId.value).Some?
        && w.id in FindFolder(folders, activeFolderId.value).value.workoutIds
    ensures activeFolderId.Some? && activeFolderId.value != "" ==>
      forall w :: multiset(r)[w] ==
        if FindFolder(folders, activeFolderId.value).Some? && w.id in FindFolder(folders, activeFolderId.value).value.workoutIds
        then multiset(workouts)[w] else 0
    ensures Seqs.IsSubseq(r, workouts)
  {
    if activeFolderId.None? || activeFolderId.value == "" then
      assert Seqs.IsSubseq(workouts, workouts) by { SubseqRefl(workouts); }
      workouts
    else
      match FindFolder(folders, activeFolderId.value)
      case None => []
      case Some(f) =>
        Seqs.FilterIsSubseq(workouts, (w: Workout) => w.id in f.workoutIds);
        Seqs.Filter(workouts, (w: Workout) => w.id in f.workoutIds)
  }

  lemma {:induction false} SubseqRefl<T>(s: seq<T>)
    ensures Seqs.IsSubseq(s, s)
  {
    if s != [] {
      SubseqRefl(s[1..]);
    }
  }

  /** The editor's folder toggle and the home filter agree: after adding a
      workout to a folder it is listed under that folder, and after removing it
      it is not. */
  lemma FolderToggleShows(workouts: seq<Workout>, folders: seq<Folder>, folderId: string, w: Workout)
    requires w in workouts && folderId != ""
    requires FindFolder(folders, folderId).Some?
    ensures var toggled := WorkoutEditor.ToggleFolderMembership(folders, folderId, w.id);
      var shown := w in FilteredByFolder(workouts, toggled, Some(folderId));
      shown <==> w.id !in FindFolder(folders, folderId).value.workoutIds
  {
    var toggled := WorkoutEditor.ToggleFolderMembership(folders, folderId, w.id);
    FindFolderToggled(folders, folderId, w.id);
  }

  lemma FindFolderToggled(folders: seq<Folder>, folderId: string, workoutId: string)
    requires FindFolder(folders, folderId).Some?
    ensures var found := FindFolder(WorkoutEditor.ToggleFolderMembership(folders, folderId, workoutId), folderId);
      found.Some? && (workoutId in found.value.workoutIds <==> workoutId !in FindFolder(folders, folderId).value.workoutIds)
  {
    var toggled := WorkoutEditor.ToggleFolderMembership(folders, folderId, workoutId);
    var i :| FirstFolderWithId(folders, folderId, i) && FindFolder(folders, folderId).value == folders[i];
    assert FirstFolderWithId(toggled, folderId, i);
    FindFolderAt(toggled, folderId, i);
  }

  /** `find` returns the folder at the first position with the id. */
  lemma {:induction false} FindFolderAt(folders: seq<Folder>, id: string, i: int)
    requires FirstFolderWithId(folders, id, i)
    ensures FindFolder(folders, id) == Some(folders[i])
  {
    if i > 0 {
      assert FirstFolderWithId(folders[1..], id, i - 1);
      FindFolderAt(folders[1..], id, i - 1);
    }
  }

  /** Most recently modified first. */
  predicate SortedByRecent(ws: seq<Workout>)
  {
    forall i, j :: 0 <= i < j < |ws| ==> ws[i].lastModified >= ws[j].lastModified
  }

  /** Places `w` in front of the first workout it is at least as recent as. */
  function Insert(w: Workout, sorted: seq<Workout>): seq<Workout>
  {
    if sorted == [] then [w]
    else if w.lastModified >= sorted[0].lastModified then [w] + sorted
    else [sorted[0]] + Insert(w, sorted[1..])
  }

  lemma {:induction false} InsertKeepsOrder(w: Workout, sorted: seq<Workout>)
    requires SortedByRecent(sorted)
    ensures SortedByRecent(Insert(w, sorted))
    ensures multiset(Insert(w, sorted)) == multiset(sorted) + multiset{w}
  {
    InsertPermutes(w, sorted);
    if sorted != [] && w.lastModified < sorted[0].lastModified {
      var tail := sorted[1..];
      InsertKeepsOrder(w, tail);
      var rest := Insert(w, tail);
      var r := Insert(w, sorted);
      assert r == [sorted[0]] + rest;
      forall i, j | 0 <= i < j < |r|
        ensures r[i].lastModified >= r[j].lastModified
      {
        if i == 0 {
          InsertFrom(w, tail, j - 1);
        } else {
          assert r[i] == rest[i - 1] && r[j] == rest[j - 1];
        }
      }
    }
  }

  lemma {:induction false} InsertPermutes(w: Workout, s: seq<Workout>)
    ensures multiset(Insert(w, s)) == multiset(s) + multiset{w}
  {
    if s != [] && w.lastModified < s[0].lastModified {
      InsertPermutes(w, s[1..]);
      assert s == [s[0]] + s[1..];
    }
  }

  /** Every element of an insertion is the inserted workout or one of the list's. */
  lemma {:induction false} InsertFrom(w: Workout, s: seq<Workout>, k: int)
    requires 0 <= k < |Insert(w, s)|
    ensures Insert(w, s)[k] == w || exists j :: 0 <= j < |s| && s[j] == Insert(w, s)[k]
  {
    if s != [] && w.lastModified < s[0].lastModified && k > 0 {
      InsertFrom(w, s[1..], k - 1);
      if Insert(w, s)[k] != w {
        var j :| 0 <= j < |s[1..]| && s[1..][j] == Insert(w, s[1..])[k - 1];
        assert s[j + 1] == Insert(w, s)[k];
      }
    } else if s != [] && k > 0 {
      assert Insert(w, s)[k] == s[k - 1];
    }
  }

  /** `.sort((a, b) => b.lastModified - a.lastModified)`: the same workouts,
      most recently modified first. */
  function SortByRecent(ws: seq<Workout>): (r: seq<Workout>)
    ensures SortedByRecent(r)
    ensures multiset(r) == multiset(ws)
  {
    if ws == [] then []
    else
      assert ws == [ws[0]] + ws[1..];
      InsertKeepsOrder(ws[0], SortByRecent(ws[1..]));
      Insert(ws[0], SortByRecent(ws[1..]))
  }
}
