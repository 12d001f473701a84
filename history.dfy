/**
 * The FLAMES history: the list of past results kept in the browser's
 * storage, newest first and capped at ten entries.
 */
module History {
  import opened Wrappers
  import Flames

  /** One saved calculation; the timestamp is the already formatted date text. */
  datatype Entry = Entry(name1: string, name2: string, result: Flames.Relationship, timestamp: string)

  /** At most this many entries are kept. */
  const MaxEntries: nat := 10

  /**
   * The list after saving `entry` on top of `history`: the new entry goes to
   * the front and only the first MaxEntries entries are kept.
   */
  function Capped(entry: Entry, history: seq<Entry>): (r: seq<Entry>)
    ensures |r| == Min(|history| + 1, MaxEntries)
    ensures r[0] == entry
    ensures r[1..] == history[..|r| - 1]
  {
    var grown := [entry] + history;
    assert grown[1..] == history;
    grown[..Min(|grown|, MaxEntries)]
  }

  /** A short list only grows; a full list drops its oldest entry. */
  lemma CappedDropsOldest(entry: Entry, history: seq<Entry>)
    ensures |history| < MaxEntries ==> Capped(entry, history) == [entry] + history
    ensures |history| >= MaxEntries ==> Capped(entry, history) == [entry] + history[..MaxEntries - 1]
  {
    var r := Capped(entry, history);
    assert r == [r[0]] + r[1..];
  }

  /** Saving the entries of `entries` one by one, first to last, on top of `history`. */
  function SaveAll(history: seq<Entry>, entries: seq<Entry>): seq<Entry>
    decreases |entries|
  {
    if entries == [] then history
    else SaveAll(Capped(entries[0], history), entries[1..])
  }

  /** `s` back to front. */
  function Reverse(s: seq<Entry>): (r: seq<Entry>)
    ensures |r| == |s|
    ensures forall i :: 0 <= i < |s| ==> r[i] == s[|s| - 1 - i]
  {
    if s == [] then [] else Reverse(s[1..]) + [s[0]]
  }

  /** Truncating the tail first changes nothing when the outer cut is shorter. */
  lemma TakeOfTake(a: seq<Entry>, b: seq<Entry>, m: nat, n: nat)
    requires m <= |b| && n <= |a| + m
    ensures (a + b[..m])[..n] == (a + b)[..n]
  {
    assert forall i :: 0 <= i < n ==> (a + b[..m])[i] == (a + b)[i];
  }

  /**
   * After any number of saves, the history holds the newest entries first,
   * then the older history, cut to MaxEntries.
   */
  lemma {:induction false} SaveAllNewestFirst(history: seq<Entry>, entries: seq<Entry>)
    requires |history| <= MaxEntries
    ensures SaveAll(history, entries)
         == (Reverse(entries) + history)[..Min(|entries| + |history|, MaxEntries)]
    decreases |entries|
  {
    if entries == [] {
      assert Reverse(entries) + history == history;
    } else {
      var e, more := entries[0], entries[1..];
      var h' := Capped(e, history);
      SaveAllNewestFirst(h', more);
      var m := Min(|history| + 1, MaxEntries);
      var n := Min(|more| + |h'|, MaxEntries);
      assert h' == ([e] + history)[..m];
      TakeOfTake(Reverse(more), [e] + history, m, n);
      assert Reverse(entries) == Reverse(more) + [e];
      assert Reverse(more) + ([e] + history) == Reverse(entries) + history;
      assert n == Min(|entries| + |history|, MaxEntries);
    }
  }

  /** The stored history, as the browser's storage holds it under its key. */
  class HistoryStore {
    /** The stored list, or None when nothing is stored under the key. */
    var saved: Option<seq<Entry>>

    /** A store with nothing saved yet. */
    constructor ()
      ensures saved == None
    {
      saved := None;
    }

    /** The stored list; a missing one reads as empty. */
    function GetHistory(): (h: seq<Entry>)
      reads this
      ensures saved == None ==> h == []
      ensures saved != None ==> h == saved.value
    {
      match saved
      case None => []
      case Some(stored) => stored
    }

    /** Puts a new entry at the front of the stored list and keeps at most MaxEntries. */
    method SaveHistory(name1: string, name2: string, result: Flames.Relationship, timestamp: string)
      modifies this
      ensures saved == Some(Capped(Entry(name1, name2, result, timestamp), old(GetHistory())))
      ensures |GetHistory()| <= MaxEntries
      ensures GetHistory()[0] == Entry(name1, name2, result, timestamp)
    {
      var history := GetHistory();
      var newEntry := Entry(name1, name2, result, timestamp);
      history := [newEntry] + history;
      saved := Some(history[..Min(|history|, MaxEntries)]);
    }
  }
}
