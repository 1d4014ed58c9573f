# ninibot 2.0 — a Dafny model of its command core

This project models the core of ninibot 2.0, a chat bot for a messaging
platform. The bot reads commands from messages and answers in the channel. The
model covers five parts:

- **Word filter** (`src/bot/censorship.js`). The bot keeps an ordered list of
  (pattern, replacement) rules.
  - `!orwell` lists the patterns and the replacements.
  - Every message is scanned against the rules, in order. The first rule whose
    pattern occurs in the message is applied: every occurrence is replaced, a
    notice is put in front, the message is deleted and 0 is returned.
    Otherwise 1 is returned.
  - `!1984` adds a rule, and only the guild owner may use it.
- **Playlist**: a list of song entries that the object changes in place.
  - `add` puts the newest entry at index 0.
  - `current()` reports the oldest entry.
  - `hasNext()` consumes the oldest entry.
  - `remove(url)` deletes by URL.
  - `getPlaylist()` returns the list.
- **Music coordinator** (`manageCommands`). Every message first makes sure
  there is a voice connection. `!play` then starts playback unless the player is already playing.
  It then advances through the playlist each time a track ends. `!pause`,
  `!resume`, `!pl` and `!add` each forward one call.
- **Multimedia helpers**.
  - `encodeUrl` is the application/x-www-form-urlencoded serialisation of a
    search term: UTF-8 (RFC 3629), then `%XX` with upper-case hexadecimal digits
    (section 2.1 of RFC 3986), with a space written as `+`.
  - `buildQuery` builds the Imgur search path from the options of `!imgur`.
- **Command dispatcher**: the first whitespace-delimited token of a message
  selects one handler from a closed table.

The source of `censorship.js` is modelled line by line. The playlist, the
coordinator, the multimedia helpers and the dispatcher are modelled from the
behaviour their test files fix (`test/playlistSpec.js`, `test/musicSpec.js`,
`test/multimediaSpec.js`, `test/commandSpec.js`). Their implementation files
(`src/music/playlist.js`, `src/music/music.js`, `src/commands/multimedia.js`,
`src/commands/commandDispatcher.js`) are not part of this model.

Modules:

- `Wrappers`: the `Option` type. It stands for JavaScript's `undefined`.
- `Strings`:
  - `split(/\s/)` over the 25 characters JavaScript's `\s` matches;
  - `join`;
  - the command token of a message.
- `Patterns`: case-insensitive literal search and replace-all.
- `Censorship`: the word filter.
- `Playlists`: the `Playlist` class and the functions that specify it.
- `Music`: the `Coordinator` class, which keeps a connection and a record of
  the calls it makes on its collaborators.
- `Utf8`: UTF-8 encoding and a decoder for it.
- `Multimedia`:
  - `EncodeUrl` and the form decoding it round-trips with;
  - `BuildQuery`.
- `Dispatcher`: the command table.

The collaborators are represented as follows:

- The reply channel is an output value: a `Reply`, or the text replied.
- The configuration store's callback is an input flag.
- The player, the voice channel and `playlist.next()` are an `Environment`
  value whose answers the coordinator consumes.

## Model

| member | source | states |
|---|---|---|
| Censorship.DisplayCensorList | src/bot/censorship.js:7-18 | The reply is part 1, the patterns joined by ",", part 2, and the replacements joined by ",". Each list is in rule order, with no trailing comma, and is empty for no rules. Parts are separated by single spaces. The loop that builds "p1,...,pn," is proved against this joined form. |
| Censorship.PatternList | src/bot/censorship.js:10-11 | The listed patterns are the rule patterns, one per rule, in declaration order. |
| Censorship.ReplacementList | src/bot/censorship.js:10-12 | The listed replacements are the rule replacements, one per rule, in the same order. |
| Censorship.ListedPatternsRoundTrip | src/bot/censorship.js:10-14 | For a non-empty rule list in which no pattern contains a comma, splitting the listed patterns at "," gives back exactly the rule patterns. With no rules the listing is empty, and it splits into one empty piece. |
| Censorship.Substr0 | src/bot/censorship.js:14-15 | `substr(0, n)` is the prefix of length `n`, clamped to between 0 and the length of the string. |
| Censorship.Substr0DropsLast | src/bot/censorship.js:11-15 | Cutting the last character of a list built with a trailing separator gives the list without it. |
| Censorship.FirstMatch | src/bot/censorship.js:38-41 | The result is the index of the first rule whose pattern occurs in the message. No earlier rule's pattern occurs. `None` means no rule's pattern occurs at all. |
| Censorship.Censor | src/bot/censorship.js:36-50 | With no matching rule: returns 1, sends nothing and deletes nothing. Otherwise, for the first matching rule only, it returns 0 and deletes the message. The reply is the notice, a space, and the message with every occurrence of that rule's pattern replaced. |
| Censorship.FirstMatchAppend | src/bot/censorship.js:38-47 | Appending rules never changes the verdict an earlier rule already gives. When no earlier rule matches, the first match is the first new rule that matches, at its shifted index. |
| Censorship.AddCensoredWord | src/bot/censorship.js:20-34 | A non-owner gets the permission notice in the channel, and no store call is made. The owner's message is split at every whitespace character. Its second and third pieces (`None` past the end) go to the store. The KO or OK text then goes to the owner privately, depending on the store's result. |
| Censorship.AddCensoredWordTokens | src/bot/censorship.js:21-23 | An owner message "!1984 pattern replacement ...", with single spaces between whitespace-free words, sends exactly that pattern and replacement to the store. |
| Strings.Split | src/bot/censorship.js:22 | `split` gives one piece more than the message has separator characters. |
| Strings.SplitPiecesFree | src/bot/censorship.js:22 | No piece of a split contains a separator. |
| Strings.SplitHead | src/bot/censorship.js:22 | The first piece is the longest separator-free prefix of the message. |
| Strings.JoinSplit | src/bot/censorship.js:22 | Joining the pieces of a split at one character, with that character, gives back the message. |
| Strings.SplitJoin | src/bot/censorship.js:22 | Splitting separator-free words joined by a separator gives back the words. |
| Strings.JoinWithSnoc | src/bot/censorship.js:10-12 | Adding one more element to a joined list adds the separator and the element at the end. |
| Strings.TokenAt | src/bot/censorship.js:22-23 | `opts[i]` is defined exactly when the message has at least `i` separator characters, and it contains no whitespace. |
| Strings.FirstToken | test/commandSpec.js:22-28 | The command token is a prefix of the message. It contains no whitespace. It is followed by whitespace or by the end of the message. |
| Strings.FirstTokenOfCommand | test/musicSpec.js:32 | A whitespace-free word followed by whitespace or by nothing is the command token. |
| Patterns.Search | src/bot/censorship.js:41 | The result is -1 exactly when the pattern does not occur, case-insensitively. Otherwise it is the leftmost position where the pattern matches. |
| Patterns.ReplaceAll | src/bot/censorship.js:42 | With a non-empty pattern and a replacement of the same length, the result has the length of the message. That every match is replaced is stated by `Patterns.ReplaceAllPieces`. |
| Patterns.ReplaceAllNoMatch | src/bot/censorship.js:41-42 | Replacing a pattern that does not occur leaves the message unchanged. |
| Patterns.ReplaceAllPieces | src/bot/censorship.js:42 | The message splits into gaps and matched pieces, and the result is the gaps joined with the replacement (the `g` flag). Every matched piece equals the pattern up to case. For a non-empty pattern, no gap contains it, and each match is the leftmost one after its gap. For the empty pattern there is one match before each character of the Dafny string, counting characters rather than UTF-16 code units, and one at the end. So the inner gaps are single characters and the outer ones are empty. |
| Playlists.Pushed | test/playlistSpec.js:12-21 | `add(url)` puts the new entry at index 0, keeps every older entry in order behind it, and grows the list by one. |
| Playlists.Oldest | test/playlistSpec.js:38-46 | `current()` is undefined exactly when the list is empty. |
| Playlists.Popped | test/playlistSpec.js:30-37 | `hasNext()` shortens a non-empty list by one, keeping the newer entries in place. |
| Playlists.Without | test/playlistSpec.js:22-29 | After `remove(url)` the list holds exactly the entries whose URL differs, and it is no longer. |
| Playlists.WithoutSingle | test/playlistSpec.js:22-29 | On one entry, removal drops it exactly when its URL is the one removed. |
| Playlists.WithoutAppend | test/playlistSpec.js:22-29 | Removal works entry by entry: on a concatenation it is the concatenation of the removals, so the kept entries stay in order and keep their multiplicity. |
| Playlists.WithoutOne | test/playlistSpec.js:22-29 | Removing the URL of an entry that no other entry shares leaves every other entry, in order. |
| Playlists.CurrentUnchangedByAdd | test/playlistSpec.js:38-41 | Adding a song does not change the current song, unless the list was empty. |
| Playlists.PlayOrderPushed | test/playlistSpec.js:38-46 | An added song plays after every song already queued. |
| Playlists.PlayOrderIsAddOrder | test/playlistSpec.js:30-46 | Songs play in the order they were added (first in, first out). |
| Playlists.DrainedAfterEveryEntry | test/playlistSpec.js:38-44 | Each `hasNext()` consumes one song. After as many calls as there were songs, `current()` is undefined. |
| Playlists.RemoveUndoesAdd | test/playlistSpec.js:22-28 | Removing a freshly added URL restores the list as it was. |
| Playlists.WithoutAbsent | test/playlistSpec.js:26-27 | Removing a URL that is not queued changes nothing. |
| Playlists.Playlist.constructor | test/playlistSpec.js:9-11 | A new playlist is empty. |
| Playlists.Playlist.Add | test/playlistSpec.js:12-21 | The list becomes `Pushed` of the old list. |
| Playlists.Playlist.Current | test/playlistSpec.js:38-46 | Reports `Oldest` of the list: the first song added that is still queued. |
| Playlists.Playlist.HasNext | test/playlistSpec.js:30-37 | The list becomes `Popped` of the old list. The result is true exactly when entries remain. |
| Playlists.Playlist.GetPlaylist | test/playlistSpec.js:15-19 | Returns the list, newest first. |
| Playlists.Playlist.Remove | test/playlistSpec.js:22-29 | The list becomes `Without` of the old list. |
| Playlists.AddTwice | test/playlistSpec.js:12-21 | After two adds, each new URL is at index 0 and the length is 2. |
| Playlists.AddThenRemove | test/playlistSpec.js:22-29 | One add gives length 1. Removing that URL gives length 0. |
| Playlists.NextOfTwo | test/playlistSpec.js:30-37 | On two entries `hasNext()` is true and leaves the newer entry alone at index 0. |
| Playlists.DrainTwo | test/playlistSpec.js:38-46 | The first URL added is current. After two `hasNext()` calls nothing is current. |
| Music.ParseCommand | test/musicSpec.js:84-122 | A music command is selected only by its own token as the command token. `Other` means the command token is none of the five. |
| Music.ParseCommandByToken | test/musicSpec.js:84-122 | A message selects a music command exactly when its command token is that command's token. |
| Music.ParseToken | test/musicSpec.js:32 | Each music command token, alone, selects its command. |
| Music.DefinedRun | test/musicSpec.js:64-66 | The count of leading defined `next()` results: all before it are defined, and the one at it is undefined. |
| Music.PlaySessionCount | test/musicSpec.js:47-74 | One playback calls `play` once plus once per defined `next()` result, and calls `next()` once per ended track. It pauses, resumes, adds and replies nothing. |
| Music.CountAppend | test/musicSpec.js:47-74 | Call counts add up over concatenated call records. |
| Music.ReplaysCount | test/musicSpec.js:60-68 | `k` advances call `next()` and `play` `k` times each and nothing else. |
| Music.Coordinator.constructor | test/musicSpec.js:42-45 | A coordinator starts with the given connection and no calls. |
| Music.Coordinator.ManageCommands | test/musicSpec.js:47-122 | Whatever the command, a missing connection is taken from the first matching voice channel's `join()`. The handler fails, with nothing changed, exactly when there is neither a connection nor a channel to join. Otherwise a connection is held afterwards and an existing one is kept. `!play` calls nothing while already playing, and otherwise records the playback session over the leading defined `next()` results. `!pause`, `!resume`, `!pl` and `!add` record one call each, and other messages record none. |
| Music.Coordinator.AdvanceOnCompletion | test/musicSpec.js:60-74 | At each ended track `next()` is called, and `play` is called again while `next()` gives a song. The calls recorded are one `next()`/`play` pair per leading defined result, then one last `next()`. The connection is unchanged. |
| Music.PlayOneSong | test/musicSpec.js:47-59 | With a track that never reports its end, `play` is called once. |
| Music.PlayTwoSongs | test/musicSpec.js:60-74 | With tracks that report their end and `next()` giving a song then undefined, `play` is called twice. |
| Music.PlayWhilePlaying | test/musicSpec.js:75-83 | While the player is playing, `play` is never called. |
| Music.ForwardedCommand | test/musicSpec.js:84-122 | With a connection, `!pause`, `!resume`, `!pl` and `!add` make exactly one call each: pause, resume, a channel reply, and a playlist add. |
| Music.ResumeCreatesConnection | test/musicSpec.js:92-106 | `!resume` without a connection takes the one the channel's `join()` returns, and then resumes the player. |
| Music.NoChannelFails | test/musicSpec.js:100-106 | Without a connection and with no channel to join, any message fails and makes no call. |
| Utf8.EncodeChar | test/multimediaSpec.js:9-13 | A character takes one byte below U+0080 (the byte is its code), two below U+0800, three below U+10000 and four above. The lead byte of a multi-byte form is in C2-DF, E0-EF or F0-F4 by length, and every later byte is a continuation byte (80-BF). |
| Utf8.Encode | test/multimediaSpec.js:9-13 | A string takes between one and four bytes per character, and exactly one per character when it is ASCII. |
| Utf8.DecodeFirstCanonical | test/multimediaSpec.js:9-13 | Every byte sequence the decoder accepts starts with exactly the encoder's form of the character read, so overlong forms, surrogates and values above U+10FFFF are rejected. |
| Utf8.DecodeFirstOfEncoded | test/multimediaSpec.js:9-13 | The decoder reads back the character the encoder wrote, and its length, whatever follows. |
| Utf8.DecodeEncode | test/multimediaSpec.js:9-13 | Decoding the UTF-8 bytes of a string gives the string back. |
| Multimedia.EncodeUrl | test/multimediaSpec.js:9-18 | The output has at least as many and at most twelve times as many characters as the input. It has exactly as many when every character is unreserved or a space. |
| Multimedia.Percent | test/multimediaSpec.js:9-13 | Every byte is written as three characters. |
| Multimedia.HexDigit | test/multimediaSpec.js:11 | Every digit written is an upper-case hexadecimal digit. |
| Multimedia.PercentDecodePercent | test/multimediaSpec.js:9-13 | Percent-decoding reads back the bytes written as `%XX`, whatever follows. |
| Multimedia.PercentDecodeEncodeUrl | test/multimediaSpec.js:9-18 | Percent-decoding `encodeUrl(s)` gives the UTF-8 bytes of `s`. |
| Multimedia.EncodeUrlRoundTrip | test/multimediaSpec.js:9-18 | The form decoding of `encodeUrl(s)` is `s`, so the encoding loses nothing. |
| Multimedia.EncodeUrlIsFormEncoded | test/multimediaSpec.js:9-18 | The output consists only of unreserved characters, `+`, and `%XX` with upper-case digits. |
| Multimedia.EncodeUrlKeepsUnreserved | test/multimediaSpec.js:14-18 | ASCII letters, digits and `*-._` are left as they are. |
| Multimedia.EncodeLatinLetter | test/multimediaSpec.js:9-13 | A character from U+00C0 to U+00FF becomes `%C3` followed by the triplet of its second byte. |
| Multimedia.EncodeAccentedLetters | test/multimediaSpec.js:10-11 | é, è, ä and û become `%C3%A9`, `%C3%A8`, `%C3%A4` and `%C3%BB`. |
| Multimedia.EncodeUrlAccents | test/multimediaSpec.js:9-13 | "éèäû" encodes to "%C3%A9%C3%A8%C3%A4%C3%BB". |
| Multimedia.EncodeUrlSpaces | test/multimediaSpec.js:14-18 | "a b c" encodes to "a+b+c". |
| Multimedia.BuildQuery | test/multimediaSpec.js:21-46 | The help sentinel (-1) is returned exactly when `-help` is among the arguments after the command. Otherwise the path is the option segments, `/?q=`, and the search terms. |
| Multimedia.BuildQueryIgnoresCommand | test/multimediaSpec.js:23-25 | The command token does not affect the query. |
| Multimedia.OptionAppended | test/multimediaSpec.js:28-39 | A further option adds its `/name` segment after the earlier ones and leaves the terms alone. |
| Multimedia.TermAppended | test/multimediaSpec.js:22-27 | A further term, followed by a space, goes after the earlier terms and leaves the path alone. |
| Multimedia.BuildQuerySimple | test/multimediaSpec.js:22-27 | `[cmd, term]` gives `/?q=term `. |
| Multimedia.BuildQuerySorted | test/multimediaSpec.js:28-33 | `[cmd, "-top", term]` gives `/top/?q=term `. |
| Multimedia.BuildQuerySortedWindow | test/multimediaSpec.js:34-39 | `[cmd, "-top", "-week", term]` gives `/top/week/?q=term `. |
| Multimedia.BuildQueryHelp | test/multimediaSpec.js:40-45 | `-help` anywhere after the command gives the sentinel. |
| Dispatcher.Dispatch | test/commandSpec.js:14-76 | A selected handler is the one whose token is the message's command token. No handler is selected only when the token is none of the seven. |
| Dispatcher.DispatchByToken | test/commandSpec.js:22-76 | A message whose command token is a handler's token, alone or followed by whitespace and arguments, selects exactly that handler: `!ping`, `!imgur`, `!lang`, `!yt`, `!1984`, `!orwell` and `!roll`. |
| Dispatcher.TokensDistinct | test/commandSpec.js:22-76 | The seven handlers have seven different tokens, so each dispatch selects one handler. |

## Left out

- `src/music/musicPlayer.js` is not part of this model. It holds streaming, a promise-valued connection and end-of-track events. The player is a recorder of `play`, `pause` and `resume` calls. Whether tracks report their end is one input flag for the whole session: in the model either every started track ends or none does, so a session where the first track ends and a later one does not is not expressed.
- Patterns.ReplaceAll: the model matches character by character, where the JavaScript expression (`new RegExp(pattern, "gi")`, with no `u` flag) matches UTF-16 code unit by code unit. For the empty pattern, which an owner's message with two spaces after `!1984` stores, JavaScript also inserts the replacement between the two surrogate halves of every character above U+FFFF. A Dafny string cannot hold a lone surrogate half, so that output is not modelled.
- Patterns.ReplaceAllPieces: for the empty pattern it counts one match per character, where JavaScript counts one per UTF-16 code unit, so a character above U+FFFF gets one match in the model and two in JavaScript.
- Patterns are literal strings matched case-insensitively. The model does not cover ECMAScript regular-expression syntax (metacharacters, anchors, classes) or `$&`/`$1` substitutions in the replacement.
- Patterns.Fold: case folding covers only the ASCII letters. JavaScript's `i` flag also folds other letters.
- The reply transport, `message.delete()` and `console.log` are left out. Replies are returned as values, and deletion is a returned flag.
- The persistence inside `config.addCensoredWord` is left out, because `src/config/config.js` is not part of this model. Its callback's error is the `storeFailed` input, and the rule list is a parameter.
- The localised strings are opaque values of the `Texts` record. The language lookup is left out.
- The Imgur network search (`request.get`) and the YouTube command bodies are left out. They are network I/O.
- Music.Coordinator.ManageCommands: it records which calls are made but not their arguments. The URL passed to `play`, the playlist text replied, and the URL given to `add` are not modelled.
- `next()` of the playlist, used by the coordinator, is an input sequence, because no test states what it does to the list. `skip`, `remove <position>`, `current` and turning the player off are not commands the tests exercise, and they are not modelled.
- Playlists.Playlist.Remove: with duplicate URLs the model removes every entry with that URL. The tests add each URL once, so they do not decide this.
- Playlists.Playlist.HasNext: on an empty list it returns false and leaves the list empty. The tests never call it on an empty list.
- Multimedia.BuildQuery: the tests fix it only for one search term after zero, one or two options. The model extends this in three ways:
  - every option becomes a segment, in order;
  - every other argument becomes a term followed by a space;
  - `-help` anywhere after the command gives the sentinel.
- Multimedia.EncodeUrl: the set of characters kept as they are is that of the form-urlencoded serialisation (letters, digits and `*-._`). The tests fix only accented letters and spaces. JavaScript strings are UTF-16, and a lone surrogate cannot be a Dafny `char`, so it is not modelled.
- Music.Coordinator.ManageCommands: when there is no connection and no voice channel to join, the JavaScript handler would stop with a type error on `first` of the missing channel list. The model returns `Failed` with no call made and the state unchanged.
- Music.Coordinator.ManageCommands: the connection is taken before the command is looked at, for every message the handler receives. The tests reach the connection step only with `!resume`, so whether a message that is no music command also triggers the join is not fixed by them.
- Censorship.AddCensoredWord: a message with no guild (a private message) makes the source fail with a type error when it reads the guild's owner. The model always receives an owner value and does not model that failure.
- The playlist follows `test/playlistSpec.js`: `remove` takes a URL (line 26), and `add` puts the newest entry at index 0 (line 18). Removal by position and the other list operations of `src/music/playlist.js` are not modelled.
