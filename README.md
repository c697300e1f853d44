# Playlist traversal of SimpleMusicPlayer's `MusicService`

This project models, in Dafny, the playlist traversal state machine of the
Android music player's background service, `MusicService`. The service keeps
the song list, the current index `songPosn`, the shuffle flag and the set
`songsHasBeenPlayed` of indices played in shuffle mode. These methods change
that state:

- `playNext`: in sequential mode it steps forward and wraps to 0. In shuffle
  mode it records the index being left, then redraws random indices until one
  is not in the history. If a draw is already in the history and the history
  holds as many indices as there are songs, it clears the history and plays
  nothing.
- `playPrev`: steps back and wraps to the last song.
- `setList`, `setSong`, `setShuffle`, `onCompletion`: set or trigger the
  above.

Two modules:

- `Traversal` (`traversal.dfy`) states the policy on plain values.
  `NextIndex` and `PrevIndex` are the sequential steps. `ShuffleNext` is shuffle
  `playNext`, built from `Redraw` (the redraw loops) and `Land` (the check on
  the drawn index). The lemmas prove what the policy promises: wrap-around,
  inverse steps, a full round returns to the start, the first unplayed draw is
  the one chosen, exhaustion only when every song is in the history, and then
  whenever the redraw loop settles (it never does with one song), for a
  history of valid indices, and
  no repeat within a cycle.
- `Service` (`service.dfy`) is the class `MusicService` with the source's
  fields. Its methods change them in place. `SetList`, `SetSong`,
  `SetShuffle` and `PlaySong` state their effects directly; `PlayPrev`,
  `PlayNext`, `DrawShuffled` and `OnCompletion` are proved against the
  `Traversal` functions. `DrawShuffled` carries the nested do-while/while
  redraw loops, with their invariants.

Three modelling choices:

- `java.util.Random` becomes an oracle. The field `draws: seq<nat>` holds what
  the generator will produce, and `rand.nextInt(n)` is `draws[0] % n`, which
  consumes that draw.
- The oracle is finite. When it runs out inside the redraw loops, the call ends
  with the stop `Stalled` (outcome `NoDecision`). This stands for the source's
  loop drawing on. With one song, from index 0, the source's loop never exits:
  it can only draw the current index (`SingleSongNeverLands`).
- `songPosn` is a Java `int`. `++` and `--` wrap at the 32-bit bounds
  (`Inc32`, `Dec32`). A list holds at most `Integer.MAX_VALUE` songs.

The media player is opaque. The ghost field `handed` records the indices that
`playSong` handed to it. The position that `onCompletion` reads from the player
is a parameter.

Two facts about the code that the model keeps:

- `playPrev` never reads the shuffle flag; it steps back in either mode
  (MusicService.java:246-255).
- With one song and index 0, shuffle's redraw loop never exits; the model
  stalls (`SingleSongNeverLands`).

Four consequences of the code, proved:

- An exhausting call leaves `songPosn` on its last draw, an index already in
  the history, without playing it. The next call records it as played, so the
  next cycle plays every other song, each once, and never that one
  (`NextCycleSkipsLastDraw`).
- The history can hold an index outside the list: the index being left is
  added unchecked, and it may come from `setSong`, be kept by `setList` from
  an earlier, longer list, or be the -1 `playPrev` leaves on an empty list.
  Such an index counts toward the size test that ends a cycle, so a cycle can
  end with a valid song never played (`StaleIndexEndsCycleEarly`).
- Stale indices can also make the history larger than the list. The size
  test then never holds, and once every valid song is in the history the
  redraw loops never exit (`OverfullHistoryHangs`). `setSong(5)` on a
  two-song list reaches this state after two shuffle calls
  (`StaleIndexHangs`).
- `onCompletion` moves on only when the player's position is positive.

## Model

| member | source | states |
|---|---|---|
| `Traversal.NextIndex` | app/src/main/java/com/example/yi/musicplayer/MusicService.java:292-296 | a valid index stays valid; below the last song the index moves one on; from the last song up to just below `Integer.MAX_VALUE` it goes to 0; `Integer.MAX_VALUE` overflows to `Integer.MIN_VALUE` |
| `Traversal.PrevIndex` | app/src/main/java/com/example/yi/musicplayer/MusicService.java:249-253 | a valid index stays valid; above 0 the index moves one back; 0 and negative indices go to the last song (to -1 on an empty list); `Integer.MIN_VALUE` overflows to `Integer.MAX_VALUE` |
| `Traversal.PrevUndoesNext` | app/src/main/java/com/example/yi/musicplayer/MusicService.java:249-296 | on valid indices `playPrev`'s step undoes sequential `playNext`'s step, and the reverse |
| `Traversal.StepsForward` | app/src/main/java/com/example/yi/musicplayer/MusicService.java:292-296 | below the end of the list, `k` sequential steps move the index `k` places on |
| `Traversal.FullRoundReturns` | app/src/main/java/com/example/yi/musicplayer/MusicService.java:292-296 | `size` consecutive sequential `playNext` calls from a valid index return to it |
| `Traversal.Redraw` | app/src/main/java/com/example/yi/musicplayer/MusicService.java:269-289 | the redraw loops end on a valid index outside the history with the history kept; or on a valid index inside a full history, differing from the current one, with the history cleared; or out of draws with the history kept; every ending other than a stall consumes at least one draw |
| `Traversal.Land` | app/src/main/java/com/example/yi/musicplayer/MusicService.java:276-288 | a drawn index outside the history becomes current and lands, with history and remaining draws unchanged; a drawn index inside it ends the cycle, leaving the index on it with the history cleared and the remaining draws unchanged, exactly when the history holds as many indices as there are songs, and otherwise redraws |
| `Traversal.ShuffleNext` | app/src/main/java/com/example/yi/musicplayer/MusicService.java:265-290 | only an empty list throws, after the history add; a played song is a valid index, differs from the one left, is outside the old history, and the new history is the old one plus the index left; exhaustion requires the history plus the index left to have `size` elements, leaves a valid index different from the one left but already in that history, and empties the history |
| `Traversal.ShuffleNextTakesFirstFreshDraw` | app/src/main/java/com/example/yi/musicplayer/MusicService.java:268-289 | while the history plus the index left is not full, shuffle `playNext` plays exactly the first draw outside it and consumes the draws up to it |
| `Traversal.RedrawTakesFirstFreshDraw` | app/src/main/java/com/example/yi/musicplayer/MusicService.java:269-289 | the redraw loops, from an index in a non-full history, land on the first draw outside the history |
| `Traversal.RedrawStallsWithoutFreshDraw` | app/src/main/java/com/example/yi/musicplayer/MusicService.java:269-289 | when no draw falls outside a non-full history, the loops never settle |
| `Traversal.FullHistoryExhausts` | app/src/main/java/com/example/yi/musicplayer/MusicService.java:272-285 | with every song in the history, the first draw different from the current index ends the cycle, clears the history and leaves the index at that draw |
| `Traversal.SingleSongNeverLands` | app/src/main/java/com/example/yi/musicplayer/MusicService.java:272-276 | with one song, from index 0, shuffle `playNext` never leaves the inner redraw loop |
| `Traversal.ExhaustedIffAllPlayed` | app/src/main/java/com/example/yi/musicplayer/MusicService.java:279-285 | on valid indices, the cycle ends only when the history plus the index left is every index, and it does end then unless the draws run out |
| `Traversal.HistoryStaysValid` | app/src/main/java/com/example/yi/musicplayer/MusicService.java:268-276 | from a valid index and a history of valid indices, the new history holds only valid indices, and so does the new index unless the draws ran out |
| `Traversal.TurnInCycle` | app/src/main/java/com/example/yi/musicplayer/MusicService.java:279-289 | from a valid index outside a valid history, a call that does not stall plays a new song while the history is not full and ends the cycle once it is |
| `Traversal.CycleFrom` | app/src/main/java/com/example/yi/musicplayer/MusicService.java:268-289 | the next `size` minus history-size calls, if none stalls, play new songs outside the history, all different, and then end the cycle with an empty history |
| `Traversal.ShuffleCycle` | app/src/main/java/com/example/yi/musicplayer/MusicService.java:268-289 | from an empty history, the starting index and the next `size - 1` songs played are `size` distinct indices, and call `size` empties the history without playing |
| `Traversal.TwoSongsShuffle` | app/src/main/java/com/example/yi/musicplayer/MusicService.java:265-289 | two songs from index 0: the first call plays index 1, the second ends the cycle and clears the history |
| `Traversal.NextCycleSkipsLastDraw` | app/src/main/java/com/example/yi/musicplayer/MusicService.java:276-285 | after an exhausting call, the next cycle plays `size - 1` distinct songs, none of them the index the exhausting call left current |
| `Traversal.OverfullHistoryHangs` | app/src/main/java/com/example/yi/musicplayer/MusicService.java:268-285 | when the history with the index left holds every valid index but has more elements than there are songs, shuffle `playNext` never ends the cycle and never lands: it draws on forever |
| `Traversal.StaleIndexHangs` | app/src/main/java/com/example/yi/musicplayer/MusicService.java:265-290 | from the stale index 5 on a two-song list, two shuffle calls play 0 and 1, and the third draws forever |
| `Traversal.StaleIndexEndsCycleEarly` | app/src/main/java/com/example/yi/musicplayer/MusicService.java:268-285 | with two songs, a stale index 5 in the history ends the cycle on the first draw (index 0) although song 1 was never played |
| `Service.MusicService.constructor` | app/src/main/java/com/example/yi/musicplayer/MusicService.java:53-68 | the service starts at index 0 in sequential mode with no title, an empty list and an empty history |
| `Service.MusicService.SetList` | app/src/main/java/com/example/yi/musicplayer/MusicService.java:168-173 | the list is replaced and the history emptied; the index and the mode are untouched |
| `Service.MusicService.SetSong` | app/src/main/java/com/example/yi/musicplayer/MusicService.java:175-177 | the index is stored as given, without a bounds check; nothing else changes |
| `Service.MusicService.SetShuffle` | app/src/main/java/com/example/yi/musicplayer/MusicService.java:302-308 | the mode flips; nothing else changes |
| `Service.SetShuffleTwice` | app/src/main/java/com/example/yi/musicplayer/MusicService.java:302-308 | flipping the mode twice restores it |
| `Service.MusicService.PlaySong` | app/src/main/java/com/example/yi/musicplayer/MusicService.java:190-217 | a valid index shows that song's title and hands the index to the player; any other index throws `IndexOutOfBounds` with the title and the record of handed indices untouched |
| `Service.MusicService.PlayPrev` | app/src/main/java/com/example/yi/musicplayer/MusicService.java:246-255 | the index becomes `PrevIndex` of the old one in either mode, then `playSong` runs |
| `Service.MusicService.PlayNext` | app/src/main/java/com/example/yi/musicplayer/MusicService.java:260-300 | sequential: the index becomes `NextIndex` of the old one, history and draws untouched, then `playSong`; shuffle: index, history and draws become `ShuffleNext`'s, and `playSong` runs only on a landed song; exhaustion, a stall or an empty list leave the title and the record of handed indices untouched |
| `Service.MusicService.DrawShuffled` | app/src/main/java/com/example/yi/musicplayer/MusicService.java:265-290 | the nested redraw loops leave the index, the history and the draws exactly as `ShuffleNext` says |
| `Service.MusicService.OnCompletion` | app/src/main/java/com/example/yi/musicplayer/MusicService.java:127-132 | a positive player position advances exactly as `PlayNext`; otherwise nothing changes |

## Left out

- All media-player calls: `reset`, `setDataSource`, `prepareAsync`, `start`, `pause`, `seekTo`, `getCurrentPosition`, `getDuration`, `isPlaying`, `stop`, `release`, the wake mode and the stream type. They drive a foreign decoder. The model keeps only the ghost list of indices handed to the player, and takes the position that `onCompletion` reads as a parameter. So `getPosn`, `getDur`, `isPng`, `pausePlayer`, `seek` and `go` are not modelled: each only forwards to the player.
- `onError`: it only resets the player, which holds no state of the model.
- The exception swallowed around `setDataSource` and its log line. `playSong` counts the index as handed to the player whether or not the player could open the song.
- `onPrepared`, `onDestroy` and `onAudioFocusChange`: notification building, foreground-service calls and toasts are platform side effects with no traversal logic. The toast shown on exhaustion is left out for the same reason.
- The binder, `onBind` and `onUnbind`: the service lifecycle belongs to the platform.
- `java.util.Random`'s generator: draws come from the `draws` oracle, and `nextInt(n)` is `draws[0] % n`. Any sequence of in-range results can be expressed, but the generator's own sequence is not modelled.
- Shuffle `playNext` whose draws run out: the source draws on, and may later land; it draws forever with one song from index 0, and once stale indices make the history larger than the list with every valid song in it. The model stops with `Stalled` / `NoDecision` instead.
- `Traversal.ShuffleCycle`: proved for runs in which no call runs out of draws. The source gives no termination guarantee for the redraw loops beyond that.
- `setList` keeps a reference to the caller's list. The model copies a value `seq`, so a later change to that list by the caller would not reach the model. Aliasing is not captured.
- The list before `setList`: in the source `songs` and `songsHasBeenPlayed` are `null` until then, and `playNext` would fail on a null reference. The model starts with an empty list and an empty history.
- `Song` (`Song.java`) is not part of this model. It is a record of id, title and artist; only the title is modelled.
- `SongAdapter.java` is not part of this model: it only binds song fields to list rows.
