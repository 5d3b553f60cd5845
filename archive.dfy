/**
 * The archive (Archive.cs), which the model changes only by appending, and the cursors that read it (Listener.cs). They share a
 * module because each refers to the other: a listener scans `Archive.log`, and `Archive.GetListener`
 * creates listeners.
 */
module Archives {
  import opened Basics
  import opened Actions

  /** `Archive.Entry`: an immutable record of an action at a time, with tags. */
  datatype Entry = Entry(action: Action, timestamp: real, tags: seq<string>)

  /** The `Entry` constructor: a null tag list becomes an empty one. */
  function NewEntry(action: Action, timestamp: real, tags: Option<seq<string>>): (e: Entry)
    ensures e.action == action && e.timestamp == timestamp
    ensures tags.None? ==> e.tags == []
    ensures tags.Some? ==> e.tags == tags.value
  {
    Entry(action, timestamp, if tags.Some? then tags.value else [])
  }

  /** The entries after position `cursor` (a listener's `lastCheckedEntry`), which a scan still has to read. */
  function Unread(log: seq<Entry>, cursor: int): (r: seq<Entry>)
    requires cursor >= -1
    ensures |r| == if cursor + 1 <= |log| then |log| - (cursor + 1) else 0
    ensures forall i :: 0 <= i < |r| ==> r[i] == log[cursor + 1 + i]
  {
    if cursor + 1 <= |log| then log[cursor + 1..] else []
  }

  /** Where a scan leaves the cursor: on the last entry if there were unread ones, else where it was. */
  function Scanned(log: seq<Entry>, cursor: int): (c: int)
    requires cursor >= -1
    ensures c >= cursor && c >= -1
    ensures cursor + 1 < |log| ==> c == |log| - 1
    ensures cursor + 1 >= |log| ==> c == cursor
  {
    if cursor + 1 < |log| then |log| - 1 else cursor
  }

  class Listener {
    const id: nat
    const check: Entry -> bool
    var lastCheckedEntry: int
    var recentlyReadEvents: seq<Entry>

    /** The cursor is never before the start of the log. */
    ghost predicate Valid()
      reads this
    {
      lastCheckedEntry >= -1
    }

    constructor (check: Entry -> bool, startIndex: int, id: nat)
      requires startIndex >= -1
      ensures Valid()
      ensures this.check == check && this.id == id && lastCheckedEntry == startIndex && recentlyReadEvents == []
    {
      this.check, this.id := check, id;
      lastCheckedEntry, recentlyReadEvents := startIndex, [];
    }

    /**
     * `When`: scans the unread entries of `Archive.log`, keeps those that pass `check` and moves the
     * cursor; true iff one passed. The archive is only read.
     */
    method When(archive: Archive) returns (output: bool)
      requires Valid()
      modifies this
      ensures Valid()
      ensures recentlyReadEvents == Filter(Unread(archive.log, old(lastCheckedEntry)), check)
      ensures output <==> exists k :: 0 <= k < |Unread(archive.log, old(lastCheckedEntry))| && check(Unread(archive.log, old(lastCheckedEntry))[k])
      ensures lastCheckedEntry == Scanned(archive.log, old(lastCheckedEntry))
    {
      output := false;
      recentlyReadEvents := [];
      var i := lastCheckedEntry + 1;
      ghost var unread := Unread(archive.log, lastCheckedEntry);
      ghost var from := i;
      while i < |archive.log|
        invariant from <= i && i - from <= |unread|
        invariant recentlyReadEvents == Filter(unread[..i - from], check)
        invariant output <==> recentlyReadEvents != []
        invariant lastCheckedEntry == i - 1
      {
        assert unread[..i + 1 - from] == unread[..i - from] + [archive.log[i]];
        FilterSnoc(unread[..i - from], archive.log[i], check);
        if check(archive.log[i]) {
          output := true;
          recentlyReadEvents := recentlyReadEvents + [archive.log[i]];
        }
        lastCheckedEntry := i;
        i := i + 1;
      }
      assert unread[..i - from] == unread;
      FilterEmpty(unread, check);
    }

    /** `RecentEntries`: the same scan as `When`, returning the entries that passed `check`. */
    method RecentEntries(archive: Archive) returns (output: seq<Entry>)
      requires Valid()
      modifies this
      ensures Valid()
      ensures output == Filter(Unread(archive.log, old(lastCheckedEntry)), check)
      ensures recentlyReadEvents == output
      ensures lastCheckedEntry == Scanned(archive.log, old(lastCheckedEntry))
    {
      output := [];
      recentlyReadEvents := [];
      var i := lastCheckedEntry + 1;
      ghost var unread := Unread(archive.log, lastCheckedEntry);
      ghost var from := i;
      while i < |archive.log|
        invariant from <= i && i - from <= |unread|
        invariant output == Filter(unread[..i - from], check)
        invariant recentlyReadEvents == output
        invariant lastCheckedEntry == i - 1
      {
        assert unread[..i + 1 - from] == unread[..i - from] + [archive.log[i]];
        FilterSnoc(unread[..i - from], archive.log[i], check);
        if check(archive.log[i]) {
          output := output + [archive.log[i]];
          recentlyReadEvents := recentlyReadEvents + [archive.log[i]];
        }
        lastCheckedEntry := i;
        i := i + 1;
      }
      assert unread[..i - from] == unread;
    }

    /** `GetRecentEntries`: what the last `When` or `RecentEntries` kept. */
    function GetRecentEntries(): (r: seq<Entry>)
      reads this
      ensures r == recentlyReadEvents
    {
      recentlyReadEvents
    }
  }

  /** The static state of Archive.cs: `log`, `listeners` and `firstFreeLId`. */
  class Archive {
    var log: seq<Entry>
    var listeners: seq<Listener>
    var firstFreeLId: nat

    /** Listener ids are 0, 1, 2, ... in creation order. */
    ghost predicate Valid()
      reads this
    {
      && |listeners| == firstFreeLId
      && forall i :: 0 <= i < |listeners| ==> listeners[i].id == i
    }

    constructor ()
      ensures Valid() && log == [] && listeners == [] && firstFreeLId == 0
    {
      log, listeners, firstFreeLId := [], [], 0;
    }

    /** `AddEntry`: one new entry at the end; earlier entries and listeners stay. */
    method AddEntry(action: Action, timestamp: real, tags: Option<seq<string>>)
      modifies this
      ensures log == old(log) + [NewEntry(action, timestamp, tags)]
      ensures listeners == old(listeners) && firstFreeLId == old(firstFreeLId)
    {
      log := log + [NewEntry(action, timestamp, tags)];
    }

    /** `GetListener`: a listener with the next id whose cursor is on the current last entry. */
    method GetListener(check: Entry -> bool) returns (l: Listener)
      requires Valid()
      modifies this
      ensures Valid() && fresh(l) && l.Valid()
      ensures l.check == check && l.id == old(firstFreeLId) && l.recentlyReadEvents == []
      ensures l.lastCheckedEntry == |log| - 1
      ensures listeners == old(listeners) + [l] && firstFreeLId == old(firstFreeLId) + 1
      ensures log == old(log)
    {
      l := new Listener(check, |log| - 1, firstFreeLId);
      listeners := listeners + [l];
      firstFreeLId := firstFreeLId + 1;
    }
  }

  /** A listener opened on a log of `n` entries later reads exactly the entries from index `n` on. */
  lemma OpenedAtEnd(log: seq<Entry>, n: nat)
    requires n <= |log|
    ensures Unread(log, n - 1) == log[n..]
  {
  }

  /**
   * Scanning in two steps, with appends in between, reads each entry exactly once: the first scan's
   * result followed by the second's is one scan of the longer log.
   */
  lemma {:induction false} ScansCompose(log1: seq<Entry>, log2: seq<Entry>, cursor: int, check: Entry -> bool)
    requires cursor >= -1 && log1 <= log2
    ensures Filter(Unread(log1, cursor), check) + Filter(Unread(log2, Scanned(log1, cursor)), check)
      == Filter(Unread(log2, cursor), check)
  {
    var c := Scanned(log1, cursor);
    if cursor + 1 <= |log1| {
      assert Unread(log2, cursor) == Unread(log1, cursor) + Unread(log2, c) by {
        if cursor + 1 < |log1| {
          assert log2[cursor + 1..] == log1[cursor + 1..] + log2[|log1|..];
        } else {
          assert log1[cursor + 1..] == [];
        }
      }
      FilterConcat(Unread(log1, cursor), Unread(log2, c), check);
    } else {
      assert Unread(log1, cursor) == [];
    }
  }

  /** With no append in between, a second scan finds nothing new. */
  lemma NothingNew(log: seq<Entry>, cursor: int, check: Entry -> bool)
    requires cursor >= -1
    ensures Filter(Unread(log, Scanned(log, cursor)), check) == []
  {
    assert Unread(log, Scanned(log, cursor)) == [];
  }
}
