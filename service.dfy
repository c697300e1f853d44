/** The playback service: the song list, the current index, the shuffle flag
    and the history of played indices, changed in place by the service's
    methods. The media player is opaque: only the index handed to it is kept,
    as ghost state. */
module Service {
  import opened Traversal

  /** A track of the device's library. */
  datatype Song = Song(id: int, title: string, artist: string)

  /** Exceptions that escape the service's methods. */
  datatype Error =
    | IndexOutOfBounds(index: int)  // `songs.get` with an index outside the list
    | IllegalArgument(bound: int)   // `rand.nextInt` with a bound that is not positive

  datatype Option<T> = None | Some(value: T)

  /** How a request to move to another song ends. */
  datatype Outcome =
    | Started(index: int)  // `playSong` handed the song at `index` to the player
    | AllPlayed            // shuffle drew a played song with the history full: history cleared, nothing started
    | NoDecision           // the draws ran out before shuffle settled on a song
    | Threw(error: Error)  // an exception escaped

  class MusicService {
    var songs: seq<Song>
    /** Indices played in shuffle mode since the list was set or the cycle ended. */
    var songsHasBeenPlayed: set<int>
    var songPosn: Int32
    var songTitle: string
    var shuffle: bool
    /** The random source: `rand.nextInt(n)` returns `draws[0] % n` and moves on. */
    var draws: seq<nat>
    /** The indices handed to the media player, oldest first. */
    ghost var handed: seq<int>

    /** A Java list holds at most `Integer.MAX_VALUE` elements. */
    ghost predicate Valid()
      reads this
    {
      |songs| <= INT_MAX
    }

    /** `onCreate`: start at index 0, sequential mode, no title. */
    constructor (draws: seq<nat>)
      ensures Valid()
      ensures songs == [] && songsHasBeenPlayed == {} && songPosn == 0
      ensures songTitle == "" && !shuffle && this.draws == draws && handed == []
    {
      songs := [];
      songsHasBeenPlayed := {};
      songPosn := 0;
      songTitle := "";
      shuffle := false;
      this.draws := draws;
      handed := [];
    }

    /** Replaces the list and starts an empty history; the index is kept. */
    method SetList(songs: seq<Song>)
      requires |songs| <= INT_MAX
      modifies this`songs, this`songsHasBeenPlayed
      ensures Valid()
      ensures this.songs == songs && songsHasBeenPlayed == {}
    {
      this.songs := songs;
      songsHasBeenPlayed := {};
    }

    /** Stores the index as given; it is checked only when a song is played. */
    method SetSong(songIndex: Int32)
      modifies this`songPosn
      ensures songPosn == songIndex
    {
      songPosn := songIndex;
    }

    /** Flips between sequential and shuffle mode. */
    method SetShuffle()
      modifies this`shuffle
      ensures shuffle == !old(shuffle)
    {
      if shuffle {
        shuffle := false;
      } else {
        shuffle := true;
      }
    }

    /** Hands the song at the current index to the player and shows its title;
        an index outside the list throws before anything changes. */
    method PlaySong() returns (o: Outcome)
      requires Valid()
      modifies this`songTitle, this`handed
      ensures Played(o)
    {
      if 0 <= songPosn < |songs| {
        var song := songs[songPosn];
        songTitle := song.title;
        handed := handed + [songPosn];
        o := Started(songPosn);
      } else {
        o := Threw(IndexOutOfBounds(songPosn));
      }
    }

    /** What `playSong` did at the current index, and nothing else. */
    twostate predicate Played(o: Outcome)
      reads this
    {
      if 0 <= songPosn < |songs| then
        o == Started(songPosn) && songTitle == songs[songPosn].title &&
        handed == old(handed) + [songPosn]
      else
        o == Threw(IndexOutOfBounds(songPosn)) && songTitle == old(songTitle) &&
        handed == old(handed)
    }

    /** Goes one song back, wrapping to the last song, in either mode. */
    method PlayPrev() returns (o: Outcome)
      requires Valid()
      modifies this`songPosn, this`songTitle, this`handed
      ensures songPosn == PrevIndex(old(songPosn), |songs|)
      ensures Played(o)
    {
      songPosn := PrevIndex(songPosn, |songs|);
      o := PlaySong();
    }

    /** Goes to the next song: the following one in sequential mode, a random
        one not yet played in shuffle mode. */
    method PlayNext() returns (o: Outcome)
      requires Valid()
      modifies this`songPosn, this`songsHasBeenPlayed, this`draws, this`songTitle, this`handed
      ensures Advanced(o)
    {
      if shuffle {
        var stop := DrawShuffled();
        match stop
        case Landed =>
          o := PlaySong();
        case Exhausted =>
          o := AllPlayed;
        case Stalled =>
          o := NoDecision;
        case NoSongs =>
          o := Threw(IllegalArgument(0));
      } else {
        songPosn := NextIndex(songPosn, |songs|);
        o := PlaySong();
      }
    }

    /** The shuffle branch of `playNext` up to `playSong`: record the index
        being left, then redraw until the draw is a song not yet played, or
        a played song is drawn while the history is full. */
    method DrawShuffled() returns (stop: Stop)
      requires Valid()
      modifies this`songPosn, this`songsHasBeenPlayed, this`draws
      ensures Turn(stop, songPosn, songsHasBeenPlayed, draws) ==
        ShuffleNext(old(songPosn), old(songsHasBeenPlayed), |songs|, old(draws))
    {
      ghost var target := ShuffleNext(songPosn, songsHasBeenPlayed, |songs|, draws);
      songsHasBeenPlayed := songsHasBeenPlayed + {songPosn};
      if |songs| == 0 {
        // `rand.nextInt(0)` throws
        return NoSongs;
      }
      var isTheNewSongHasBeenPlayed := true;
      while isTheNewSongHasBeenPlayed
        invariant songsHasBeenPlayed == old(songsHasBeenPlayed) + {old(songPosn)}
        invariant isTheNewSongHasBeenPlayed ==>
          Redraw(songPosn, songsHasBeenPlayed, |songs|, draws) == target
        invariant !isTheNewSongHasBeenPlayed ==>
          target == Turn(Landed, songPosn, songsHasBeenPlayed, draws)
        decreases |draws|, isTheNewSongHasBeenPlayed
      {
        ghost var drawsBefore := |draws|;
        var newSong := songPosn;
        while newSong == songPosn
          invariant newSong == songPosn ==>
            Redraw(songPosn, songsHasBeenPlayed, |songs|, draws) == target
          invariant newSong != songPosn ==>
            0 <= newSong < |songs| && |draws| < drawsBefore &&
            Land(newSong, songsHasBeenPlayed, |songs|, draws) == target
          decreases |draws|
        {
          if draws == [] {
            return Stalled;
          }
          newSong := draws[0] % |songs|;
          draws := draws[1..];
        }
        songPosn := newSong;
        if songPosn in songsHasBeenPlayed {
          if |songsHasBeenPlayed| == |songs| {
            songsHasBeenPlayed := {};
            return Exhausted;
          }
        } else {
          isTheNewSongHasBeenPlayed := false;
        }
      }
      return Landed;
    }

    /** The effect of `playNext`: sequential mode steps the index and leaves
        history and draws alone; shuffle mode ends as `ShuffleNext` says, and
        only a song it landed on is played. */
    twostate predicate Advanced(o: Outcome)
      reads this
    {
      Valid() && songs == old(songs) && shuffle == old(shuffle) &&
      if !shuffle then
        songPosn == NextIndex(old(songPosn), |songs|) &&
        songsHasBeenPlayed == old(songsHasBeenPlayed) && draws == old(draws) &&
        Played(o)
      else
        var t := ShuffleNext(old(songPosn), old(songsHasBeenPlayed), |songs|, old(draws));
        songPosn == t.posn && songsHasBeenPlayed == t.played && draws == t.rest &&
        match t.stop
        case Landed => Played(o) && o.Started?
        case Exhausted => o == AllPlayed && songTitle == old(songTitle) && handed == old(handed)
        case Stalled => o == NoDecision && songTitle == old(songTitle) && handed == old(handed)
        case NoSongs => o == Threw(IllegalArgument(0)) && songTitle == old(songTitle) && handed == old(handed)
    }

    /** The player finished a track: move on only if it had played for a while. */
    method OnCompletion(currentPosition: int) returns (o: Option<Outcome>)
      requires Valid()
      modifies this`songPosn, this`songsHasBeenPlayed, this`draws, this`songTitle, this`handed
      ensures currentPosition > 0 ==> o.Some? && Advanced(o.value)
      ensures currentPosition <= 0 ==> o == None && unchanged(this)
    {
      if currentPosition > 0 {
        var next := PlayNext();
        o := Some(next);
      } else {
        o := None;
      }
    }
  }

  /** Toggling the mode twice restores it and touches nothing else. */
  method SetShuffleTwice(s: MusicService)
    modifies s`shuffle
    ensures s.shuffle == old(s.shuffle)
  {
    s.SetShuffle();
    s.SetShuffle();
  }
}
