/**
 * The music playlist, as test/playlistSpec.js fixes its behaviour: a list of
 * entries changed in place, with the newest entry at index 0 and the oldest,
 * which plays first, at the end.
 */
module Playlists {

  import opened Wrappers

  /** One queued song; the playlist reports only its `url`. */
  datatype Entry = Entry(url: string)

  /** The list after `add(url)`: the new entry goes in front, at index 0, and the others keep their places behind it. */
  function Pushed(entries: seq<Entry>, url: string): (r: seq<Entry>)
    ensures |r| == |entries| + 1 && r[0].url == url
    ensures forall i :: 0 <= i < |entries| ==> r[i + 1] == entries[i]
  {
    [Entry(url)] + entries
  }

  /** What `current()` reports: the URL of the oldest entry, or `None` (undefined) when the list is empty. */
  function Oldest(entries: seq<Entry>): (u: Option<string>)
    ensures u.None? <==> entries == []
  {
    if entries == [] then None else Some(entries[|entries| - 1].url)
  }

  /** The list after `hasNext()`: the oldest entry is consumed; an empty list stays empty. */
  function Popped(entries: seq<Entry>): (r: seq<Entry>)
    ensures |r| == if entries == [] then 0 else |entries| - 1
    ensures forall i :: 0 <= i < |r| ==> r[i] == entries[i]
  {
    if entries == [] then [] else entries[..|entries| - 1]
  }

  /** The list after `remove(url)`: every entry with that URL is gone, the others keep their order. */
  function Without(entries: seq<Entry>, url: string): (r: seq<Entry>)
    ensures forall e :: e in r <==> e in entries && e.url != url
    ensures |r| <= |entries|
  {
    if entries == [] then []
    else (if entries[0].url == url then [] else [entries[0]]) + Without(entries[1..], url)
  }

  /** The URLs `current()` reports, one after another, while `hasNext()` consumes the list. */
  function PlayOrder(entries: seq<Entry>): seq<string>
    decreases |entries|
  {
    if entries == [] then [] else [Oldest(entries).value] + PlayOrder(Popped(entries))
  }

  /** The list after adding `urls`, first to last. */
  function PushedAll(entries: seq<Entry>, urls: seq<string>): seq<Entry>
    decreases |urls|
  {
    if urls == [] then entries else PushedAll(Pushed(entries, urls[0]), urls[1..])
  }

  /** The list after `n` calls of `hasNext()`. */
  function PoppedTimes(entries: seq<Entry>, n: nat): seq<Entry>
  {
    if n == 0 then entries else PoppedTimes(Popped(entries), n - 1)
  }

  /** Adding a song does not change which song is current, unless the list was empty. */
  lemma CurrentUnchangedByAdd(entries: seq<Entry>, url: string)
    ensures Oldest(Pushed(entries, url)) == if entries == [] then Some(url) else Oldest(entries)
  {
  }

  /** An added song is played after every song already in the list. */
  lemma {:induction false} PlayOrderPushed(entries: seq<Entry>, url: string)
    ensures PlayOrder(Pushed(entries, url)) == PlayOrder(entries) + [url]
    decreases |entries|
  {
    var pushed := Pushed(entries, url);
    assert PlayOrder(pushed) == [Oldest(pushed).value] + PlayOrder(Popped(pushed));
    if entries == [] {
      assert Popped(pushed) == [];
    } else {
      var first := Oldest(entries).value;
      assert Oldest(pushed) == Oldest(entries);
      PoppedPushed(entries, url);
      PlayOrderPushed(Popped(entries), url);
      assert PlayOrder(entries) == [first] + PlayOrder(Popped(entries));
      ConsThenSnoc(first, PlayOrder(Popped(entries)), url);
    }
  }

  /** On a non-empty list, consuming the oldest entry and adding a new one commute. */
  lemma PoppedPushed(entries: seq<Entry>, url: string)
    requires entries != []
    ensures Popped(Pushed(entries, url)) == Pushed(Popped(entries), url)
  {
  }

  /** Prepending and appending to a list of URLs can be done in either order. */
  lemma ConsThenSnoc(first: string, middle: seq<string>, last: string)
    ensures [first] + (middle + [last]) == ([first] + middle) + [last]
  {
  }


  /** Appending the first URL and then the others appends them all. */
  lemma SnocThenAppend(before: seq<string>, urls: seq<string>)
    requires urls != []
    ensures (before + [urls[0]]) + urls[1..] == before + urls
  {
    assert [urls[0]] + urls[1..] == urls;
  }

  /** The playlist is first-in first-out: songs play in the order they were added. */
  lemma {:induction false} PlayOrderIsAddOrder(entries: seq<Entry>, urls: seq<string>)
    ensures PlayOrder(PushedAll(entries, urls)) == PlayOrder(entries) + urls
    decreases |urls|
  {
    if urls != [] {
      var u, rest := urls[0], urls[1..];
      var pushed := Pushed(entries, u);
      assert PushedAll(entries, urls) == PushedAll(pushed, rest);
      PlayOrderIsAddOrder(pushed, rest);
      PlayOrderPushed(entries, u);
      SnocThenAppend(PlayOrder(entries), urls);
    }
  }

  /** Each `hasNext()` consumes exactly one song: after as many calls as there were songs the list is empty. */
  lemma {:induction false} DrainedAfterEveryEntry(entries: seq<Entry>, n: nat)
    ensures |PoppedTimes(entries, n)| == if n <= |entries| then |entries| - n else 0
    ensures n >= |entries| ==> Oldest(PoppedTimes(entries, n)) == None
  {
    if n > 0 {
      DrainedAfterEveryEntry(Popped(entries), n - 1);
    }
  }

  /** Removing a URL that was not in the list before it was added restores the list. */
  lemma {:induction false} RemoveUndoesAdd(entries: seq<Entry>, url: string)
    requires forall e :: e in entries ==> e.url != url
    ensures Without(Pushed(entries, url), url) == entries
  {
    WithoutAbsent(entries, url);
    assert Pushed(entries, url)[1..] == entries;
  }

  /** Removing a URL absent from the list changes nothing. */
  lemma {:induction false} WithoutAbsent(entries: seq<Entry>, url: string)
    requires forall e :: e in entries ==> e.url != url
    ensures Without(entries, url) == entries
  {
    if entries != [] {
      assert entries[0] in entries;
      WithoutAbsent(entries[1..], url);
      assert entries == [entries[0]] + entries[1..];
    }
  }

  /** `remove(url)` keeps or drops a single entry according to its URL alone. */
  lemma WithoutSingle(e: Entry, url: string)
    ensures Without([e], url) == if e.url == url then [] else [e]
  {
    assert [e][1..] == [];
  }

  /**
   * `remove(url)` works entry by entry: removing from a concatenation removes
   * from each part, so the entries that stay keep their order and their number.
   */
  lemma {:induction false} WithoutAppend(a: seq<Entry>, b: seq<Entry>, url: string)
    ensures Without(a + b, url) == Without(a, url) + Without(b, url)
    decreases |a|
  {
    if a == [] {
      assert a + b == b;
    } else {
      assert (a + b)[0] == a[0] && (a + b)[1..] == a[1..] + b;
      WithoutAppend(a[1..], b, url);
    }
  }

  /** Removing a URL from a list whose entries all have other URLs but one keeps all of them, in order, but that one. */
  lemma WithoutOne(before: seq<Entry>, e: Entry, after: seq<Entry>)
    requires forall x :: x in before + after ==> x.url != e.url
    ensures Without(before + [e] + after, e.url) == before + after
  {
    var url := e.url;
    forall x | x in before ensures x.url != url {
      assert x in before + after;
    }
    forall x | x in after ensures x.url != url {
      assert x in before + after;
    }
    WithoutAbsent(before, url);
    WithoutAbsent(after, url);
    WithoutSingle(e, url);
    WithoutAppend(before, [e], url);
    assert Without(before + [e], url) == before;
    WithoutAppend(before + [e], after, url);
  }

  /** A playlist object whose list of entries its methods change in place. */
  class Playlist {
    var entries: seq<Entry>

    constructor ()
      ensures entries == []
    {
      entries := [];
    }

    /** `add(url)`: puts a new entry for `url` at index 0. */
    method Add(url: string)
      modifies this
      ensures entries == Pushed(old(entries), url)
    {
      entries := [Entry(url)] + entries;
    }

    /** `current()`: the URL of the oldest entry, or `None` when the list is empty. */
    method Current() returns (url: Option<string>)
      ensures url == Oldest(entries)
    {
      if |entries| == 0 {
        url := None;
      } else {
        url := Some(entries[|entries| - 1].url);
      }
    }

    /** `hasNext()`: consumes the oldest entry and tells whether any entry is left. */
    method HasNext() returns (more: bool)
      modifies this
      ensures entries == Popped(old(entries))
      ensures more <==> entries != []
    {
      if |entries| > 0 {
        entries := entries[..|entries| - 1];
      }
      more := |entries| > 0;
    }

    /** `getPlaylist()`: the entries, newest first. */
    method GetPlaylist() returns (list: seq<Entry>)
      ensures list == entries
    {
      list := entries;
    }

    /** `remove(url)`: deletes the entries whose URL is `url`. */
    method Remove(url: string)
      modifies this
      ensures entries == Without(old(entries), url)
    {
      entries := Without(entries, url);
    }
  }

  /** Two adds: each new URL is at index 0 and the list holds two entries. */
  method AddTwice(first: string, second: string) returns (head1: string, head2: string, length: nat)
    ensures head1 == first && head2 == second && length == 2
  {
    var pl := new Playlist();
    pl.Add(first);
    var list := pl.GetPlaylist();
    head1 := list[0].url;
    pl.Add(second);
    list := pl.GetPlaylist();
    head2 := list[0].url;
    length := |list|;
  }

  /** Adding one URL and removing it leaves the list empty. */
  method AddThenRemove(url: string) returns (before: nat, after: nat)
    ensures before == 1 && after == 0
  {
    var pl := new Playlist();
    pl.Add(url);
    var list := pl.GetPlaylist();
    before := |list|;
    pl.Remove(url);
    list := pl.GetPlaylist();
    after := |list|;
  }

  /** On two entries `hasNext()` is true and leaves the newer one alone at index 0. */
  method NextOfTwo(first: string, second: string) returns (more: bool, head: string, length: nat)
    ensures more && head == second && length == 1
  {
    var pl := new Playlist();
    pl.Add(first);
    pl.Add(second);
    more := pl.HasNext();
    var list := pl.GetPlaylist();
    head := list[0].url;
    length := |list|;
  }

  /** The first URL added is current; two `hasNext()` calls on two entries leave nothing current. */
  method DrainTwo(first: string, second: string) returns (current: Option<string>, last: Option<string>)
    ensures current == Some(first) && last == None
  {
    var pl := new Playlist();
    pl.Add(first);
    pl.Add(second);
    current := pl.Current();
    var _ := pl.HasNext();
    var _ := pl.HasNext();
    last := pl.Current();
  }
}
