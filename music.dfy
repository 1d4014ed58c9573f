/**
 * The music command handler (`manageCommands`), as test/musicSpec.js fixes its
 * behaviour. The player, the playlist and the reply channel are collaborators:
 * the coordinator records the calls it makes on them, and what they answer
 * (whether the player is playing, the channel to join, whether a started track
 * reports its end, the results of `playlist.next()`) is an input.
 */
module Music {

  import opened Wrappers
  import Strings

  /** A voice connection, as a voice channel's `join()` returns it. */
  datatype Connection = Connection(handle: string)

  /** A call the coordinator makes on the player, the playlist or the reply channel. */
  datatype Call = PlayerPlay | PlayerPause | PlayerResume | PlaylistNext | PlaylistAdd | ReplyInChannel

  /** The music commands the handler reacts to. */
  datatype Command = Play | Pause | Resume | ShowPlaylist | Add | Other

  /** What the collaborators answer while one command is handled. */
  datatype Environment = Environment(
    isPlaying: bool,                    // player.isPlaying()
    channelJoin: Option<Connection>,    // join() of the first matching voice channel; None when no channel matches
    completes: bool,                    // every started track reports its end to the coordinator
    nextResults: seq<Option<string>>)   // successive results of playlist.next(); undefined past the end

  /** `Failed` when the handler stops with an error: no connection and no channel to join. */
  datatype Outcome = Handled | Failed

  /** The command token of each music command. */
  function Token(c: Command): string
    requires c != Other
  {
    match c
    case Play => "!play"
    case Pause => "!pause"
    case Resume => "!resume"
    case ShowPlaylist => "!pl"
    case Add => "!add"
  }

  /** The command a message holds, chosen by its first whitespace-delimited token. */
  function ParseCommand(content: string): (c: Command)
    ensures c != Other ==> Strings.FirstToken(content) == Token(c)
    ensures c == Other ==> forall d :: d != Other ==> Strings.FirstToken(content) != Token(d)
  {
    match Strings.FirstToken(content)
    case "!play" => Play
    case "!pause" => Pause
    case "!resume" => Resume
    case "!pl" => ShowPlaylist
    case "!add" => Add
    case _ => Other
  }

  /** Each music command is recognised by its token, and by nothing else. */
  lemma ParseCommandByToken(content: string, c: Command)
    requires c != Other
    ensures ParseCommand(content) == c <==> Strings.FirstToken(content) == Token(c)
  {
  }

  /** How many results of `next()`, from the first, are defined. */
  function DefinedRun(results: seq<Option<string>>): (n: nat)
    ensures n <= |results|
    ensures forall j :: 0 <= j < n ==> results[j].Some?
    ensures n < |results| ==> results[n].None?
  {
    if results == [] || results[0].None? then 0 else 1 + DefinedRun(results[1..])
  }

  /** The calls of `k` completions that each found a next song and played again. */
  function Replays(k: nat): seq<Call>
  {
    if k == 0 then [] else Replays(k - 1) + [PlaylistNext, PlayerPlay]
  }

  /**
   * The calls of one playback: the first `play`; then, when tracks report
   * their end, `k` rounds of `next()` followed by `play`, and a last `next()`
   * that finds nothing.
   */
  function PlaySession(k: nat, completes: bool): seq<Call>
  {
    [PlayerPlay] + (if completes then Replays(k) + [PlaylistNext] else [])
  }

  /** Number of occurrences of `c` in `calls`. */
  function Count(calls: seq<Call>, c: Call): nat
  {
    if calls == [] then 0 else (if calls[0] == c then 1 else 0) + Count(calls[1..], c)
  }

  lemma {:induction false} CountAppend(a: seq<Call>, b: seq<Call>, c: Call)
    ensures Count(a + b, c) == Count(a, c) + Count(b, c)
  {
    if a == [] {
      assert a + b == b;
    } else {
      assert (a + b)[1..] == a[1..] + b;
      CountAppend(a[1..], b, c);
    }
  }

  lemma {:induction false} ReplaysCount(k: nat, c: Call)
    ensures Count(Replays(k), c) == if c == PlaylistNext || c == PlayerPlay then k else 0
  {
    if k > 0 {
      ReplaysCount(k - 1, c);
      CountAppend(Replays(k - 1), [PlaylistNext, PlayerPlay], c);
      assert [PlaylistNext, PlayerPlay][1..] == [PlayerPlay];
    }
  }

  /**
   * One playback calls `play` once more for every defined `next()` result,
   * and `next()` once per completed track; it pauses, resumes, adds and
   * replies nothing.
   */
  lemma PlaySessionCount(k: nat, completes: bool, c: Call)
    ensures Count(PlaySession(k, completes), c) ==
      if c == PlayerPlay then 1 + (if completes then k else 0)
      else if c == PlaylistNext then (if completes then k + 1 else 0)
      else 0
  {
    ReplaysCount(k, c);
    CountAppend(Replays(k), [PlaylistNext], c);
    CountAppend([PlayerPlay], if completes then Replays(k) + [PlaylistNext] else [], c);
    assert [PlaylistNext][1..] == [] && [PlayerPlay][1..] == [];
  }

  /** The music handler with the player's connection and the record of the calls it made. */
  class Coordinator {
    var connection: Option<Connection>
    var calls: seq<Call>

    constructor (connection: Option<Connection>)
      ensures this.connection == connection && calls == []
    {
      this.connection := connection;
      calls := [];
    }

    /**
     * `manageCommands(message)`. Whatever the command, the handler first makes
     * sure there is a connection, joining the first matching voice channel
     * when there is none, and stops with an error when no channel matches.
     * `!play` then starts playback unless the player is already playing;
     * every completed track asks the playlist for the next song and plays
     * again while there is one. `!pause`, `!resume`, `!pl` and `!add` make
     * one call each; other messages make none.
     */
    method ManageCommands(content: string, env: Environment) returns (outcome: Outcome)
      modifies this
      ensures outcome == Failed <==> old(connection).None? && env.channelJoin.None?
      ensures outcome == Failed ==> connection == old(connection) && calls == old(calls)
      ensures outcome == Handled ==>
        connection == (if old(connection).Some? then old(connection) else env.channelJoin)
      ensures outcome == Handled ==> connection.Some?
      ensures ParseCommand(content) == Play && outcome == Handled ==>
        calls == old(calls) + (if env.isPlaying then [] else PlaySession(DefinedRun(env.nextResults), env.completes))
      ensures ParseCommand(content) == Pause && outcome == Handled ==> calls == old(calls) + [PlayerPause]
      ensures ParseCommand(content) == Resume && outcome == Handled ==> calls == old(calls) + [PlayerResume]
      ensures ParseCommand(content) == ShowPlaylist && outcome == Handled ==> calls == old(calls) + [ReplyInChannel]
      ensures ParseCommand(content) == Add && outcome == Handled ==> calls == old(calls) + [PlaylistAdd]
      ensures ParseCommand(content) == Other ==> calls == old(calls)
    {
      if connection.None? {
        if env.channelJoin.None? {
          return Failed;
        }
        connection := env.channelJoin;
      }
      outcome := Handled;
      match ParseCommand(content)
      case Play =>
        if !env.isPlaying {
          ghost var k := DefinedRun(env.nextResults);
          ghost var before := calls;
          calls := calls + [PlayerPlay];
          if env.completes {
            AdvanceOnCompletion(env.nextResults);
            assert calls == before + ([PlayerPlay] + (Replays(k) + [PlaylistNext]));
          }
          assert calls == before + PlaySession(k, env.completes);
        }
      case Pause =>
        calls := calls + [PlayerPause];
      case Resume =>
        calls := calls + [PlayerResume];
      case ShowPlaylist =>
        calls := calls + [ReplyInChannel];
      case Add =>
        calls := calls + [PlaylistAdd];
      case Other =>
    }

    /**
     * The completion handler of a started track: asks the playlist for the
     * next song and plays it, again at each completion, until `next()` gives
     * nothing.
     */
    method AdvanceOnCompletion(results: seq<Option<string>>)
      modifies this
      ensures connection == old(connection)
      ensures calls == old(calls) + Replays(DefinedRun(results)) + [PlaylistNext]
    {
      var i := 0;
      while i < |results| && results[i].Some?
        invariant 0 <= i <= |results|
        invariant forall j :: 0 <= j < i ==> results[j].Some?
        invariant calls == old(calls) + Replays(i)
        invariant connection == old(connection)
      {
        calls := calls + [PlaylistNext, PlayerPlay];
        i := i + 1;
      }
      calls := calls + [PlaylistNext];
      assert i == DefinedRun(results);
    }
  }

  /** The music command tokens contain no whitespace, so each is parsed as itself. */
  lemma ParseToken(c: Command)
    requires c != Other
    ensures ParseCommand(Token(c)) == c
  {
    var t := Token(c);
    Strings.VisibleNotWhitespace(t);
    Strings.FirstTokenOfWord(t);
  }

  /**
   * `!play` while not playing, with a track that never reports its end:
   * `play` is called once.
   */
  method PlayOneSong(connection: Connection) returns (plays: nat)
    ensures plays == 1
  {
    var m := new Coordinator(Some(connection));
    ParseToken(Play);
    var _ := m.ManageCommands("!play", Environment(false, None, false, [None]));
    assert m.calls == PlaySession(0, false);
    PlaySessionCount(0, false, PlayerPlay);
    plays := Count(m.calls, PlayerPlay);
  }

  /**
   * `!play` while not playing, with tracks that report their end and `next()`
   * giving a song and then undefined: `play` is called twice.
   */
  method PlayTwoSongs(connection: Connection, song: string) returns (plays: nat)
    ensures plays == 2
  {
    var m := new Coordinator(Some(connection));
    var results := [Some(song), None];
    assert DefinedRun(results) == 1 by {
      assert results[1..] == [None];
    }
    ParseToken(Play);
    var _ := m.ManageCommands("!play", Environment(false, None, true, results));
    assert m.calls == PlaySession(1, true);
    PlaySessionCount(1, true, PlayerPlay);
    plays := Count(m.calls, PlayerPlay);
  }

  /** `!play` while the player is already playing does not call `play`. */
  method PlayWhilePlaying(connection: Connection, results: seq<Option<string>>, completes: bool)
    returns (plays: nat)
    ensures plays == 0
  {
    var m := new Coordinator(Some(connection));
    ParseToken(Play);
    var _ := m.ManageCommands("!play", Environment(true, None, completes, results));
    plays := Count(m.calls, PlayerPlay);
  }

  /**
   * With a connection, `!pause`, `!resume`, `!pl` and `!add` each make exactly
   * one call, on the player, the reply channel and the playlist respectively.
   */
  method ForwardedCommand(c: Command, connection: Connection, env: Environment)
    returns (calls: seq<Call>)
    requires c in {Pause, Resume, ShowPlaylist, Add}
    ensures calls == [match c
                      case Pause => PlayerPause
                      case Resume => PlayerResume
                      case ShowPlaylist => ReplyInChannel
                      case _ => PlaylistAdd]
  {
    var m := new Coordinator(Some(connection));
    ParseToken(c);
    var _ := m.ManageCommands(Token(c), env);
    calls := m.calls;
  }

  /**
   * `!resume` without a connection takes the one the first matching voice
   * channel's `join()` returns, and then resumes the player.
   */
  method ResumeCreatesConnection(joined: Connection, env: Environment)
    returns (connection: Option<Connection>, calls: seq<Call>)
    requires env.channelJoin == Some(joined)
    ensures connection == Some(joined)
    ensures calls == [PlayerResume]
  {
    var m := new Coordinator(None);
    ParseToken(Resume);
    var _ := m.ManageCommands("!resume", env);
    connection := m.connection;
    calls := m.calls;
  }

  /** Without a connection and with no matching voice channel, no command is handled. */
  method NoChannelFails(content: string, env: Environment) returns (outcome: Outcome, calls: seq<Call>)
    requires env.channelJoin.None?
    ensures outcome == Failed && calls == []
  {
    var m := new Coordinator(None);
    outcome := m.ManageCommands(content, env);
    calls := m.calls;
  }
}
