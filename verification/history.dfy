/** The send log (`HistoryManager`): an append-only JSON list of entries, one
    per send attempt, whose `read` and `replied` flags are set later by the
    tracking handler and the reply scan.

    Every call re-reads the file, so the log is the `file` field of the
    manager and each method states the file it leaves behind.
 */
module History {
  import opened Storage

  /** One record of the log. `read` and `replied` are `None` when the key is
      missing, as in entries written before those keys existed. */
  datatype Entry = Entry(
    date: string,
    email: string,
    variable: string,
    uuid: string,
    status: string,
    read: Option<bool>,
    replied: Option<bool>)

  /** The status `add_entry` records when its caller gives none. */
  const DefaultStatus: string := "Sent"

  /** The statuses the send flow records: "Envoyé" after a successful send,
      "Échec" after a failed one. */
  const StatusSent: string := "Envoy\U{E9}"
  const StatusFailed: string := "\U{C9}chec"

  /** The record `add_entry` builds: both flags present and false. */
  function NewEntry(now: string, email: string, variable: string, uuid: string, status: string): Entry {
    Entry(now, email, variable, uuid, status, Some(false), Some(false))
  }

  /** The list `add_entry` starts from: the stored list, or the empty list when
      the file is missing or cannot be decoded. */
  function Stored(f: FileState<seq<Entry>>): seq<Entry> {
    if f.Ok? then f.data else []
  }

  /** `get_history`'s normalisation of one entry: a missing flag becomes
      false, a present flag is kept. */
  function Normalize(e: Entry): (n: Entry)
    ensures n.read.Some? && n.replied.Some?
    ensures e.read.Some? ==> n.read == e.read
    ensures e.replied.Some? ==> n.replied == e.replied
    ensures e.read.None? ==> n.read == Some(false)
    ensures e.replied.None? ==> n.replied == Some(false)
    ensures n.(read := e.read, replied := e.replied) == e
  {
    e.(read := Some(e.read.GetOr(false)), replied := Some(e.replied.GetOr(false)))
  }

  predicate Normalized(h: seq<Entry>) {
    forall i :: 0 <= i < |h| ==> h[i].read.Some? && h[i].replied.Some?
  }

  function NormalizeAll(h: seq<Entry>): (r: seq<Entry>)
    ensures |r| == |h| && Normalized(r)
    ensures forall i :: 0 <= i < |h| ==> r[i] == Normalize(h[i])
  {
    seq(|h|, i requires 0 <= i < |h| => Normalize(h[i]))
  }

  /** Normalising a list that has every flag changes nothing. */
  lemma NormalizeAllNormalized(h: seq<Entry>)
    requires Normalized(h)
    ensures NormalizeAll(h) == h
  {
    assert forall i :: 0 <= i < |h| ==> Normalize(h[i]) == h[i];
  }

  /** What `get_history` returns for a file state: nothing for a missing or
      undecodable file, otherwise every entry with its missing flags set to false. */
  function Snapshot(f: FileState<seq<Entry>>): (h: seq<Entry>)
    ensures f.Absent? || f.Corrupt? ==> h == []
    ensures f.Ok? ==> |h| == |f.data|
    ensures Normalized(h)
  {
    if f.Ok? then NormalizeAll(f.data) else []
  }

  /** The index of the first entry whose uuid is `uuid`, if there is one. */
  function FirstMatch(h: seq<Entry>, uuid: string): (r: Option<nat>)
    ensures r.Some? ==> r.value < |h| && h[r.value].uuid == uuid
    ensures r.Some? ==> forall j :: 0 <= j < r.value ==> h[j].uuid != uuid
    ensures r.None? <==> forall j :: 0 <= j < |h| ==> h[j].uuid != uuid
  {
    if h == [] then None
    else if h[0].uuid == uuid then Some(0)
    else match FirstMatch(h[1..], uuid)
      case None => None
      case Some(k) => Some(k + 1)
  }

  /** Whether the log holds an entry with this uuid. */
  predicate Known(h: seq<Entry>, uuid: string) {
    exists i :: 0 <= i < |h| && h[i].uuid == uuid
  }

  /** `update_status` on one entry: each flag given is assigned, not OR-ed. */
  function SetFlags(e: Entry, replied: Option<bool>, read: Option<bool>): (n: Entry)
    ensures n.(read := e.read, replied := e.replied) == e
    ensures n.replied == (if replied.Some? then replied else e.replied)
    ensures n.read == (if read.Some? then read else e.read)
  {
    e.(replied := if replied.Some? then replied else e.replied,
       read := if read.Some? then read else e.read)
  }

  /** The list `update_status` computes: the first entry with the uuid gets
      the given flags, every other entry stays as it was. */
  function Updated(h: seq<Entry>, uuid: string, replied: Option<bool>, read: Option<bool>): (u: seq<Entry>)
    ensures |u| == |h|
    ensures !Known(h, uuid) ==> u == h
  {
    match FirstMatch(h, uuid)
    case None => h
    case Some(i) => h[i := SetFlags(h[i], replied, read)]
  }

  /** The file `update_status` leaves: rewritten from the normalised snapshot
      when the uuid is known, untouched otherwise. */
  function AfterUpdate(f: FileState<seq<Entry>>, uuid: string, replied: Option<bool>, read: Option<bool>): (g: FileState<seq<Entry>>)
    ensures !Known(Snapshot(f), uuid) ==> g == f
    ensures Known(Snapshot(f), uuid) ==> g.Ok? && |g.data| == |Snapshot(f)|
  {
    if Known(Snapshot(f), uuid) then Ok(Updated(Snapshot(f), uuid, replied, read)) else f
  }

  /** `update_status` touches only the first entry with the uuid, and only the
      flags it is given; length, order, every other entry and every other
      field of that entry stay the same. */
  lemma UpdatedChangesOnlyFirstMatch(h: seq<Entry>, uuid: string, replied: Option<bool>, read: Option<bool>)
    ensures var u := Updated(h, uuid, replied, read);
      && |u| == |h|
      && (forall j :: 0 <= j < |h| && Some(j) != FirstMatch(h, uuid) ==> u[j] == h[j])
      && (forall j :: 0 <= j < |h| ==> u[j].(read := h[j].read, replied := h[j].replied) == h[j])
      && (FirstMatch(h, uuid).Some? ==>
            var i := FirstMatch(h, uuid).value;
            && u[i].replied == (if replied.Some? then replied else h[i].replied)
            && u[i].read == (if read.Some? then read else h[i].read))
  {
  }

  /** Two logs with the same uuids at the same places have the same first match. */
  lemma {:induction false} FirstMatchByUuids(h: seq<Entry>, g: seq<Entry>, uuid: string)
    requires |h| == |g|
    requires forall j :: 0 <= j < |h| ==> h[j].uuid == g[j].uuid
    ensures FirstMatch(h, uuid) == FirstMatch(g, uuid)
  {
    if h != [] && h[0].uuid != uuid {
      FirstMatchByUuids(h[1..], g[1..], uuid);
    }
  }

  /** Updating never changes which uuid sits where. */
  lemma UpdatedKeepsUuids(h: seq<Entry>, uuid: string, replied: Option<bool>, read: Option<bool>)
    ensures var u := Updated(h, uuid, replied, read);
      |u| == |h| && forall j :: 0 <= j < |h| ==> u[j].uuid == h[j].uuid
  {
  }

  /** Applying the same update twice gives the same list as applying it once. */
  lemma UpdatedIdempotent(h: seq<Entry>, uuid: string, replied: Option<bool>, read: Option<bool>)
    ensures Updated(Updated(h, uuid, replied, read), uuid, replied, read) == Updated(h, uuid, replied, read)
  {
    var u := Updated(h, uuid, replied, read);
    UpdatedKeepsUuids(h, uuid, replied, read);
    FirstMatchByUuids(u, h, uuid);
  }

  /** The set of uuids a file state knows is the same after an update. */
  lemma AfterUpdateKeepsUuids(f: FileState<seq<Entry>>, uuid: string, replied: Option<bool>, read: Option<bool>)
    ensures var g := AfterUpdate(f, uuid, replied, read);
      && |Snapshot(g)| == |Snapshot(f)|
      && forall j :: 0 <= j < |Snapshot(f)| ==> Snapshot(g)[j].uuid == Snapshot(f)[j].uuid
  {
    var h := Snapshot(f);
    if Known(h, uuid) {
      UpdatedKeepsUuids(h, uuid, replied, read);
    }
  }

  /** Applying the same `update_status` to the file twice leaves the same file
      as applying it once. */
  lemma AfterUpdateIdempotent(f: FileState<seq<Entry>>, uuid: string, replied: Option<bool>, read: Option<bool>)
    ensures AfterUpdate(AfterUpdate(f, uuid, replied, read), uuid, replied, read) == AfterUpdate(f, uuid, replied, read)
  {
    var h := Snapshot(f);
    if Known(h, uuid) {
      var u := Updated(h, uuid, replied, read);
      UpdatedKeepsUuids(h, uuid, replied, read);
      FirstMatchByUuids(u, h, uuid);
      assert Normalized(u);
      NormalizeAllNormalized(u);
      assert Snapshot(Ok(u)) == u;
      assert Known(u, uuid) by {
        var i := FirstMatch(h, uuid).value;
        assert u[i].uuid == uuid;
      }
      UpdatedIdempotent(h, uuid, replied, read);
    }
  }

  /** When the callers pass only `True` (as the tracking handler and the reply
      scan do) a flag that is true stays true, and the first entry with the
      uuid ends with the flags that were set. */
  lemma AfterUpdateMonotone(f: FileState<seq<Entry>>, uuid: string, replied: Option<bool>, read: Option<bool>)
    requires replied == None || replied == Some(true)
    requires read == None || read == Some(true)
    ensures var g := AfterUpdate(f, uuid, replied, read);
      && |Snapshot(g)| == |Snapshot(f)|
      && (forall j :: 0 <= j < |Snapshot(f)| && Snapshot(f)[j].read == Some(true) ==> Snapshot(g)[j].read == Some(true))
      && (forall j :: 0 <= j < |Snapshot(f)| && Snapshot(f)[j].replied == Some(true) ==> Snapshot(g)[j].replied == Some(true))
      && (Known(Snapshot(f), uuid) ==>
            var i := FirstMatch(Snapshot(f), uuid).value;
            && FirstMatch(Snapshot(g), uuid) == FirstMatch(Snapshot(f), uuid)
            && (read.Some? ==> Snapshot(g)[i].read == Some(true))
            && (replied.Some? ==> Snapshot(g)[i].replied == Some(true)))
  {
    var h := Snapshot(f);
    if Known(h, uuid) {
      var u := Updated(h, uuid, replied, read);
      UpdatedKeepsUuids(h, uuid, replied, read);
      FirstMatchByUuids(u, h, uuid);
      NormalizeAllNormalized(u);
      assert Snapshot(Ok(u)) == u;
    }
  }

  /** The code assigns the flag it is passed: a caller passing `False` would
      clear a flag that was true. */
  lemma UpdateAssignsFalse(e: Entry)
    requires e.read == Some(true)
    ensures var g := AfterUpdate(Ok([e]), e.uuid, None, Some(false));
      g.Ok? && |g.data| == 1 && g.data[0].read == Some(false)
  {
    assert Snapshot(Ok([e]))[0].uuid == e.uuid;
  }

  class HistoryManager {
    var file: FileState<seq<Entry>>

    /** `__init__` with `_ensure_file_exists`: a missing file is created
        holding the empty list; any other file is left as it is. */
    constructor (initial: FileState<seq<Entry>>)
      ensures file == (if initial.Absent? then Ok([]) else initial)
    {
      file := if initial.Absent? then Ok([]) else initial;
    }

    /** `add_entry`: read the stored list (empty when missing or undecodable),
        append one fresh entry, and write the list back. */
    method AddEntry(email: string, variable: string, uuid: string, status: string, now: string)
      modifies this
      ensures file == Ok(Stored(old(file)) + [NewEntry(now, email, variable, uuid, status)])
    {
      var history := Stored(file);
      history := history + [NewEntry(now, email, variable, uuid, status)];
      file := Ok(history);
    }

    /** `get_history`: the stored list with each missing flag set to false,
        or the empty list when the file is missing or undecodable. */
    method GetHistory() returns (history: seq<Entry>)
      ensures history == Snapshot(file)
    {
      if !file.Ok? {
        return [];
      }
      var stored := file.data;
      history := stored;
      for i := 0 to |stored|
        invariant |history| == |stored|
        invariant forall j :: 0 <= j < i ==> history[j] == Normalize(stored[j])
        invariant forall j :: i <= j < |stored| ==> history[j] == stored[j]
      {
        var entry := history[i];
        if entry.read.None? {
          entry := entry.(read := Some(false));
        }
        if entry.replied.None? {
          entry := entry.(replied := Some(false));
        }
        history := history[i := entry];
      }
    }

    /** `update_status`: find the first entry with the uuid in the normalised
        snapshot, assign the flags given, and write the list back only if an
        entry was found. */
    method UpdateStatus(uuid: string, replied: Option<bool>, read: Option<bool>) returns (updated: bool)
      modifies this
      ensures updated == Known(Snapshot(old(file)), uuid)
      ensures file == AfterUpdate(old(file), uuid, replied, read)
    {
      var history := GetHistory();
      updated := false;
      var i := 0;
      while i < |history|
        invariant 0 <= i <= |history|
        invariant history == Snapshot(old(file))
        invariant forall j :: 0 <= j < i ==> history[j].uuid != uuid
      {
        if history[i].uuid == uuid {
          assert FirstMatch(history, uuid) == Some(i);
          history := history[i := SetFlags(history[i], replied, read)];
          updated := true;
          break;
        }
        i := i + 1;
      }
      if updated {
        file := Ok(history);
      }
    }
  }
}
