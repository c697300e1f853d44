/** The playlist traversal policy of the music service, stated on plain values:
    where sequential `playNext` and `playPrev` move the current index, and how
    shuffle `playNext` draws the next song without repeating one from the
    history until the history is full. */
module Traversal {

  /** Bounds of a Java `int`, the type of the current index and of a list size. */
  const INT_MIN: int := -0x8000_0000
  const INT_MAX: int := 0x7fff_ffff

  type Int32 = x: int | INT_MIN <= x <= INT_MAX

  /** `x++` on a Java `int`. */
  function Inc32(x: Int32): (r: Int32) {
    if x == INT_MAX then INT_MIN else x + 1
  }

  /** `x--` on a Java `int`. */
  function Dec32(x: Int32): (r: Int32) {
    if x == INT_MIN then INT_MAX else x - 1
  }

  /** The valid indices of a list of `size` songs. */
  ghost function Indices(size: nat): (r: set<int>)
    ensures forall i :: i in r <==> 0 <= i < size
    ensures |r| == size
  {
    if size == 0 then {} else Indices(size - 1) + {size - 1}
  }

  /** Every index in `s` is a valid index of a list of `size` songs. */
  ghost predicate AllValid(s: set<int>, size: nat) {
    forall i :: i in s ==> 0 <= i < size
  }

  // ---------------------------------------------------------------------------
  // Sequential mode

  /** Sequential `playNext`: one step forward; an index at or past the end of the
      list goes back to 0. */
  function NextIndex(posn: Int32, size: nat): (r: Int32)
    requires size <= INT_MAX
    ensures 0 <= posn < size ==> 0 <= r < size
    ensures posn < size - 1 ==> r == posn + 1
    ensures size - 1 <= posn < INT_MAX ==> r == 0
    ensures posn == INT_MAX ==> r == INT_MIN
  {
    var next := Inc32(posn);
    if next >= size then 0 else next
  }

  /** `playPrev`: one step backward; an index that drops below 0 goes to the
      last song (to -1 on an empty list). */
  function PrevIndex(posn: Int32, size: nat): (r: Int32)
    requires size <= INT_MAX
    ensures 0 <= posn < size ==> 0 <= r < size
    ensures 0 < posn ==> r == posn - 1
    ensures INT_MIN < posn <= 0 ==> r == size - 1
    ensures posn == INT_MIN ==> r == INT_MAX
  {
    var prev := Dec32(posn);
    if prev < 0 then size - 1 else prev
  }

  /** The index after `k` consecutive sequential `playNext` calls. */
  function Steps(posn: Int32, size: nat, k: nat): (r: Int32)
    requires size <= INT_MAX
    decreases k
  {
    if k == 0 then posn else Steps(NextIndex(posn, size), size, k - 1)
  }

  /** Sequential `playNext` and `playPrev` undo each other on valid indices. */
  lemma PrevUndoesNext(posn: Int32, size: nat)
    requires size <= INT_MAX && 0 <= posn < size
    ensures PrevIndex(NextIndex(posn, size), size) == posn
    ensures NextIndex(PrevIndex(posn, size), size) == posn
  {
  }

  /** Below the last song, `k` sequential steps move the index `k` places on. */
  lemma {:induction false} StepsForward(posn: Int32, size: nat, k: nat)
    requires size <= INT_MAX && 0 <= posn && posn + k < size
    ensures Steps(posn, size, k) == posn + k
    decreases k
  {
    if k > 0 {
      StepsForward(posn + 1, size, k - 1);
    }
  }

  /** `a + b` sequential steps are `a` steps followed by `b` steps. */
  lemma {:induction false} StepsCompose(posn: Int32, size: nat, a: nat, b: nat)
    requires size <= INT_MAX
    ensures Steps(posn, size, a + b) == Steps(Steps(posn, size, a), size, b)
    decreases a
  {
    if a > 0 {
      StepsCompose(NextIndex(posn, size), size, a - 1, b);
    }
  }

  /** `size` consecutive sequential `playNext` calls come back to the start. */
  lemma FullRoundReturns(posn: Int32, size: nat)
    requires size <= INT_MAX && 0 <= posn < size
    ensures Steps(posn, size, size) == posn
  {
    var toEnd := size - 1 - posn;
    StepsCompose(posn, size, toEnd, 1 + posn);
    StepsForward(posn, size, toEnd);
    StepsCompose(size - 1, size, 1, posn);
    StepsForward(0, size, posn);
  }

  // ---------------------------------------------------------------------------
  // Shuffle mode

  /** How one shuffle `playNext` ends. */
  datatype Stop =
    | Landed     // drew a song outside the history: `playSong` follows
    | Exhausted  // a played song was drawn and the history is full: it is cleared, nothing plays
    | Stalled    // the draws ran out where the source would go on drawing
    | NoSongs    // `nextInt(0)` on an empty list throws

  /** The state a shuffle `playNext` leaves: its stop, the current index, the
      history of played indices and the draws not yet used. */
  datatype Turn = Turn(stop: Stop, posn: Int32, played: set<int>, rest: seq<nat>)

  /** The redraw loops while `cur` is the current index: draw until the draw
      differs from `cur`, then land on it. `rand.nextInt(size)` is
      `draws[0] % size`. */
  function Redraw(cur: Int32, history: set<int>, size: nat, draws: seq<nat>): (t: Turn)
    requires 0 < size <= INT_MAX
    decreases |draws|, 0
    ensures t.stop != NoSongs
    ensures t.stop == Landed ==> 0 <= t.posn < size && t.posn !in history && t.played == history
    ensures t.stop == Exhausted ==>
      0 <= t.posn < size && t.posn != cur && t.posn in history && |history| == size && t.played == {}
    ensures t.stop == Stalled ==> t.rest == [] && t.played == history
    ensures t.stop != Stalled ==> |t.rest| < |draws|
  {
    if draws == [] then Turn(Stalled, cur, history, [])
    else
      var d := draws[0] % size;
      if d == cur then Redraw(cur, history, size, draws[1..])
      else Land(d, history, size, draws[1..])
  }

  /** The drawn index `d` becomes current; an already played `d` either ends
      the cycle (the history is full) or starts another redraw. */
  function Land(d: Int32, history: set<int>, size: nat, rest: seq<nat>): (t: Turn)
    requires 0 < size <= INT_MAX && 0 <= d < size
    decreases |rest|, 1
    ensures t.stop != NoSongs
    ensures d !in history ==> t == Turn(Landed, d, history, rest)
    ensures d in history && |history| == size ==> t == Turn(Exhausted, d, {}, rest)
    ensures t.stop == Landed ==> 0 <= t.posn < size && t.posn !in history && t.played == history
    ensures t.stop == Exhausted ==>
      t.posn == d && d in history && |history| == size && t.played == {}
    ensures t.stop == Stalled ==> t.rest == [] && t.played == history
    ensures t.stop != Stalled ==> |t.rest| <= |rest|
  {
    if d in history then
      if |history| == size then Turn(Exhausted, d, {}, rest)
      else Redraw(d, history, size, rest)
    else Turn(Landed, d, history, rest)
  }

  /** Shuffle `playNext`: record the index being left, then redraw. */
  function ShuffleNext(posn: Int32, played: set<int>, size: nat, draws: seq<nat>): (t: Turn)
    requires size <= INT_MAX
    ensures t.stop == NoSongs <==> size == 0
    ensures t.stop == NoSongs ==> t.posn == posn && t.played == played + {posn} && t.rest == draws
    ensures t.stop == Landed ==>
      0 <= t.posn < size && t.posn != posn && t.posn !in played && t.played == played + {posn}
    ensures t.stop == Exhausted ==>
      0 <= t.posn < size && t.posn != posn && t.posn in played + {posn} &&
      |played + {posn}| == size && t.played == {}
    ensures t.stop == Stalled ==> t.rest == [] && t.played == played + {posn}
  {
    var history := played + {posn};
    if size == 0 then Turn(NoSongs, posn, history, draws)
    else Redraw(posn, history, size, draws)
  }

  /** A run of `n` consecutive shuffle `playNext` calls, each starting where the
      previous one left the index, the history and the draws. */
  function ShuffleTurns(posn: Int32, played: set<int>, size: nat, draws: seq<nat>, n: nat): (ts: seq<Turn>)
    requires size <= INT_MAX
    ensures |ts| == n
    decreases n
  {
    if n == 0 then []
    else
      var t := ShuffleNext(posn, played, size, draws);
      [t] + ShuffleTurns(t.posn, t.played, size, t.rest, n - 1)
  }

  ghost predicate Distinct(s: seq<int>) {
    forall i, j :: 0 <= i < j < |s| ==> s[i] != s[j]
  }

  function Positions(ts: seq<Turn>): (ps: seq<int>)
    ensures |ps| == |ts| && forall i :: 0 <= i < |ts| ==> ps[i] == ts[i].posn
  {
    if ts == [] then [] else [ts[0].posn] + Positions(ts[1..])
  }

  // ---------------------------------------------------------------------------
  // Sets of indices

  lemma SubsetSize(a: set<int>, b: set<int>)
    requires a <= b
    ensures |a| + |b - a| == |b|
  {
    assert a + (b - a) == b;
    assert a * (b - a) == {};
  }

  lemma SubsetOfSameSize(a: set<int>, b: set<int>)
    requires a <= b && |a| == |b|
    ensures a == b
  {
    SubsetSize(a, b);
    assert b - a == {};
  }

  // ---------------------------------------------------------------------------
  // What a shuffle `playNext` picks

  /** While the history is not full, the redraw loops settle on the first draw
      outside the history, and on nothing before it. */
  lemma {:induction false} RedrawTakesFirstFreshDraw(cur: Int32, history: set<int>, size: nat, draws: seq<nat>, i: nat)
    requires 0 < size <= INT_MAX && cur in history && |history| != size
    requires i < |draws| && draws[i] % size !in history
    requires forall j :: 0 <= j < i ==> draws[j] % size in history
    ensures Redraw(cur, history, size, draws) == Turn(Landed, draws[i] % size, history, draws[i + 1..])
    decreases i
  {
    var d := draws[0] % size;
    if i > 0 {
      assert d in history;
      assert forall j :: 0 <= j < i - 1 ==> draws[1..][j] % size in history by {
        forall j | 0 <= j < i - 1 ensures draws[1..][j] % size in history {
          assert draws[1..][j] == draws[j + 1];
        }
      }
      assert draws[1..][i - 1] == draws[i];
      assert draws[1..][i - 1 + 1..] == draws[i + 1..];
      if d == cur {
        RedrawTakesFirstFreshDraw(cur, history, size, draws[1..], i - 1);
      } else {
        RedrawTakesFirstFreshDraw(d, history, size, draws[1..], i - 1);
      }
    }
  }

  /** Shuffle `playNext` in terms of the draws: while the history, with the
      index being left, is not full, it plays the first draw outside it. */
  lemma ShuffleNextTakesFirstFreshDraw(posn: Int32, played: set<int>, size: nat, draws: seq<nat>, i: nat)
    requires 0 < size <= INT_MAX && |played + {posn}| != size
    requires i < |draws| && draws[i] % size !in played + {posn}
    requires forall j :: 0 <= j < i ==> draws[j] % size in played + {posn}
    ensures ShuffleNext(posn, played, size, draws) == Turn(Landed, draws[i] % size, played + {posn}, draws[i + 1..])
  {
    RedrawTakesFirstFreshDraw(posn, played + {posn}, size, draws, i);
  }

  /** While the history is not full, draws that all fall inside it never land. */
  lemma {:induction false} RedrawStallsWithoutFreshDraw(cur: Int32, history: set<int>, size: nat, draws: seq<nat>)
    requires 0 < size <= INT_MAX && cur in history && |history| != size
    requires forall j :: 0 <= j < |draws| ==> draws[j] % size in history
    ensures Redraw(cur, history, size, draws).stop == Stalled
    decreases |draws|
  {
    if draws != [] {
      var d := draws[0] % size;
      assert d in history;
      assert forall j :: 0 <= j < |draws| - 1 ==> draws[1..][j] % size in history by {
        forall j | 0 <= j < |draws| - 1 ensures draws[1..][j] % size in history {
          assert draws[1..][j] == draws[j + 1];
        }
      }
      if d == cur {
        RedrawStallsWithoutFreshDraw(cur, history, size, draws[1..]);
      } else {
        RedrawStallsWithoutFreshDraw(d, history, size, draws[1..]);
      }
    }
  }

  /** Once every song is in the history, the first draw that moves off the
      current index ends the cycle: the history is cleared and the index is
      left at that draw. */
  lemma {:induction false} FullHistoryExhausts(cur: Int32, size: nat, draws: seq<nat>, i: nat)
    requires 0 < size <= INT_MAX && 0 <= cur < size
    requires i < |draws| && draws[i] % size != cur
    requires forall j :: 0 <= j < i ==> draws[j] % size == cur
    ensures Redraw(cur, Indices(size), size, draws) == Turn(Exhausted, draws[i] % size, {}, draws[i + 1..])
    decreases i
  {
    if i > 0 {
      assert draws[0] % size == cur;
      assert forall j :: 0 <= j < i - 1 ==> draws[1..][j] % size == cur by {
        forall j | 0 <= j < i - 1 ensures draws[1..][j] % size == cur {
          assert draws[1..][j] == draws[j + 1];
        }
      }
      assert draws[1..][i - 1] == draws[i];
      assert draws[1..][i - 1 + 1..] == draws[i + 1..];
      FullHistoryExhausts(cur, size, draws[1..], i - 1);
    }
  }

  /** With one song, from index 0 (its only valid index), every draw is the
      current index, so shuffle `playNext` never leaves the redraw loop. */
  lemma SingleSongNeverLands(played: set<int>, draws: seq<nat>)
    ensures ShuffleNext(0, played, 1, draws).stop == Stalled
  {
    // Landing or ending the cycle would need a valid index other than 0.
  }

  /** On a history of valid indices, shuffle `playNext` ends the cycle only
      when the history, with the index being left, holds every song; and it
      does then whenever the redraw loops settle (with one song they never do). */
  lemma ExhaustedIffAllPlayed(posn: Int32, played: set<int>, size: nat, draws: seq<nat>)
    requires 0 < size <= INT_MAX && AllValid(played + {posn}, size)
    ensures ShuffleNext(posn, played, size, draws).stop == Exhausted ==> played + {posn} == Indices(size)
    ensures played + {posn} == Indices(size) && ShuffleNext(posn, played, size, draws).stop != Stalled ==>
      ShuffleNext(posn, played, size, draws).stop == Exhausted
  {
    if ShuffleNext(posn, played, size, draws).stop == Exhausted {
      FullHistory(played + {posn}, size);
    }
  }

  /** A set of `size` valid indices holds every index. */
  lemma FullHistory(history: set<int>, size: nat)
    requires AllValid(history, size) && |history| == size
    ensures history == Indices(size)
  {
    assert history <= Indices(size);
    SubsetOfSameSize(history, Indices(size));
  }

  /** The history stays a set of valid indices across shuffle `playNext` when
      the index being left is valid. */
  lemma HistoryStaysValid(posn: Int32, played: set<int>, size: nat, draws: seq<nat>)
    requires size <= INT_MAX && 0 <= posn < size && AllValid(played, size)
    ensures AllValid(ShuffleNext(posn, played, size, draws).played, size)
    ensures ShuffleNext(posn, played, size, draws).stop != Stalled ==>
      0 <= ShuffleNext(posn, played, size, draws).posn < size
  {
  }

  ghost predicate NoStall(ts: seq<Turn>) {
    forall i :: 0 <= i < |ts| ==> ts[i].stop != Stalled
  }

  /** `ts` is one shuffle cycle after the indices in `seen`: new songs are
      played, each outside `seen` and the ones before it, then the cycle ends
      with an empty history. */
  ghost predicate IsCycle(ts: seq<Turn>, seen: set<int>)
    decreases |ts|
  {
    |ts| > 0 &&
    if |ts| == 1 then ts[0].stop == Exhausted && ts[0].played == {}
    else ts[0].stop == Landed && ts[0].posn !in seen && IsCycle(ts[1..], seen + {ts[0].posn})
  }

  /** From a valid index and a history of valid indices not holding it, the
      next `n = size - |played|` calls, unless one of them stalls, form a cycle. */
  lemma {:induction false} CycleFrom(posn: Int32, played: set<int>, size: nat, draws: seq<nat>, n: nat)
    requires size <= INT_MAX && 0 <= posn < size && AllValid(played, size) && posn !in played
    requires n == size - |played|
    ensures n > 0
    ensures NoStall(ShuffleTurns(posn, played, size, draws, n)) ==>
      IsCycle(ShuffleTurns(posn, played, size, draws, n), played + {posn})
    decreases n
  {
    var history := played + {posn};
    RoomLeft(posn, played, size);
    var t := ShuffleNext(posn, played, size, draws);
    var tail := ShuffleTurns(t.posn, t.played, size, t.rest, n - 1);
    TurnsUnfold(posn, played, size, draws, n);
    if NoStall([t] + tail) {
      NoStallParts(t, tail);
      TurnInCycle(posn, played, size, draws);
      if n > 1 {
        assert t.played == history;
        CycleFrom(t.posn, history, size, t.rest, n - 1);
        CycleCons(t, tail, history);
      } else {
        assert ([t] + tail)[0] == t;
      }
    }
  }

  /** A history of valid indices that leaves out a valid index is not full. */
  lemma RoomLeft(posn: Int32, played: set<int>, size: nat)
    requires 0 <= posn < size && AllValid(played, size) && posn !in played
    ensures |played + {posn}| == |played| + 1 <= size
  {
    assert played + {posn} <= Indices(size);
    SubsetSize(played + {posn}, Indices(size));
  }

  lemma TurnsUnfold(posn: Int32, played: set<int>, size: nat, draws: seq<nat>, n: nat)
    requires size <= INT_MAX && n > 0
    ensures var t := ShuffleNext(posn, played, size, draws);
      ShuffleTurns(posn, played, size, draws, n) == [t] + ShuffleTurns(t.posn, t.played, size, t.rest, n - 1)
  {
  }

  lemma NoStallParts(t: Turn, tail: seq<Turn>)
    requires NoStall([t] + tail)
    ensures t.stop != Stalled && NoStall(tail)
  {
    assert ([t] + tail)[0] == t;
    forall i | 0 <= i < |tail| ensures tail[i].stop != Stalled {
      assert ([t] + tail)[i + 1] == tail[i];
    }
  }

  lemma CycleCons(t: Turn, tail: seq<Turn>, seen: set<int>)
    requires t.stop == Landed && t.posn !in seen && IsCycle(tail, seen + {t.posn})
    ensures IsCycle([t] + tail, seen)
  {
    assert ([t] + tail)[1..] == tail;
  }

  /** One shuffle `playNext` inside a cycle: it plays a new song while the
      history is not full and ends the cycle once it is. */
  lemma TurnInCycle(posn: Int32, played: set<int>, size: nat, draws: seq<nat>)
    requires size <= INT_MAX && 0 <= posn < size && AllValid(played, size) && posn !in played
    requires ShuffleNext(posn, played, size, draws).stop != Stalled
    ensures |played| + 1 < size ==> ShuffleNext(posn, played, size, draws).stop == Landed
    ensures |played| + 1 == size ==> ShuffleNext(posn, played, size, draws).stop == Exhausted
  {
    if |played| + 1 == size {
      FullHistory(played + {posn}, size);
      ExhaustedIffAllPlayed(posn, played, size, draws);
    }
  }

  /** What a cycle states, index by index. */
  lemma {:induction false} CycleFacts(ts: seq<Turn>, seen: set<int>)
    requires IsCycle(ts, seen)
    ensures forall i :: 0 <= i < |ts| - 1 ==> ts[i].stop == Landed && ts[i].posn !in seen
    ensures ts[|ts| - 1].stop == Exhausted && ts[|ts| - 1].played == {}
    ensures Distinct(Positions(ts[..|ts| - 1]))
    decreases |ts|
  {
    if |ts| > 1 {
      var tail := ts[1..];
      CycleFacts(tail, seen + {ts[0].posn});
      assert ts[..|ts| - 1] == [ts[0]] + tail[..|tail| - 1];
      assert Positions(ts[..|ts| - 1]) == [ts[0].posn] + Positions(tail[..|tail| - 1]);
      forall i | 0 < i < |ts| - 1
        ensures ts[i].stop == Landed && ts[i].posn !in seen + {ts[0].posn}
      {
        assert ts[i] == tail[i - 1];
      }
    }
  }

  /** Starting from an empty history with `size` songs, shuffle `playNext` calls
      that do not stall play `size - 1` new songs, which together with the
      starting song are `size` distinct indices; the call after them ends the
      cycle with an empty history. */
  lemma ShuffleCycle(posn: Int32, size: nat, draws: seq<nat>)
    requires size <= INT_MAX && 0 <= posn < size
    ensures var ts := ShuffleTurns(posn, {}, size, draws, size);
      NoStall(ts) ==>
        (forall i :: 0 <= i < size - 1 ==> ts[i].stop == Landed) &&
        ts[size - 1].stop == Exhausted && ts[size - 1].played == {} &&
        Distinct([posn] + Positions(ts[..size - 1]))
  {
    CycleFrom(posn, {}, size, draws, size);
    var ts := ShuffleTurns(posn, {}, size, draws, size);
    if NoStall(ts) {
      CycleFacts(ts, {posn});
      DistinctCons(posn, Positions(ts[..size - 1]));
    }
  }

  lemma DistinctCons(x: int, ps: seq<int>)
    requires Distinct(ps) && forall i :: 0 <= i < |ps| ==> ps[i] != x
    ensures Distinct([x] + ps)
  {
    var xs := [x] + ps;
    forall i, j | 0 <= i < j < |xs| ensures xs[i] != xs[j] {
      assert xs[j] == ps[j - 1];
      if i > 0 {
        assert xs[i] == ps[i - 1];
      }
    }
  }

  /** Two songs, shuffle, starting at index 0 with an empty history: the first
      call that does not stall plays index 1, the next one ends the cycle. */
  lemma TwoSongsShuffle(draws: seq<nat>)
    ensures var ts := ShuffleTurns(0, {}, 2, draws, 2);
      NoStall(ts) ==>
        ts[0].stop == Landed && ts[0].posn == 1 &&
        ts[1].stop == Exhausted && ts[1].played == {}
  {
    // Follows from the contract of `ShuffleNext`: the only index other than 0
    // is 1, and after it both indices are in the history.
  }

  /** A cycle-ending call leaves the index on a draw that is already in the
      history, without playing it; the next call records it as played again,
      so the following cycle plays every other song and never that one. */
  lemma NextCycleSkipsLastDraw(posn: Int32, played: set<int>, size: nat, draws: seq<nat>)
    requires size <= INT_MAX && ShuffleNext(posn, played, size, draws).stop == Exhausted
    ensures var t := ShuffleNext(posn, played, size, draws);
      var ts := ShuffleTurns(t.posn, t.played, size, t.rest, size);
      NoStall(ts) ==>
        (forall i :: 0 <= i < size - 1 ==> ts[i].stop == Landed && ts[i].posn != t.posn) &&
        Distinct([t.posn] + Positions(ts[..size - 1])) &&
        ts[size - 1].stop == Exhausted
  {
    var t := ShuffleNext(posn, played, size, draws);
    assert t.played == {};
    ShuffleCycle(t.posn, size, t.rest);
    var ts := ShuffleTurns(t.posn, {}, size, t.rest, size);
    if NoStall(ts) {
      var ps := Positions(ts[..size - 1]);
      DistinctHead(t.posn, ps);
      forall i | 0 <= i < size - 1 ensures ts[i].posn != t.posn {
        assert ps[i] == ts[i].posn;
      }
    }
  }

  /** The history may hold an index outside the list, left there by `setSong`
      or kept by `setList` from an earlier, longer list, and it counts toward the size test that ends a
      cycle: with two songs, leaving the stale index 5 after song 0 ends the
      cycle on the first draw, and song 1 was never played. */
  lemma StaleIndexEndsCycleEarly()
    ensures ShuffleNext(5, {0}, 2, [0]) == Turn(Exhausted, 0, {}, [])
  {
    var history := {0} + {5};
    assert |history| == 2 by {
      assert history == {0, 5};
    }
    assert Land(0, history, 2, []) == Turn(Exhausted, 0, {}, []);
  }

  /** Stale indices can also make the history larger than the list. Then the
      size test that ends a cycle never holds, and once every valid index is in
      the history the redraw loops never exit. */
  lemma OverfullHistoryHangs(posn: Int32, played: set<int>, size: nat, draws: seq<nat>)
    requires 0 < size <= INT_MAX
    requires Indices(size) <= played + {posn} && |played + {posn}| != size
    ensures ShuffleNext(posn, played, size, draws).stop == Stalled
  {
    var history := played + {posn};
    forall j | 0 <= j < |draws| ensures draws[j] % size in history {
      assert draws[j] % size in Indices(size);
    }
    RedrawStallsWithoutFreshDraw(posn, history, size, draws);
  }

  /** Reaching that state: `setSong(5)` on a two-song list, then two shuffle
      calls play 0 and 1, and the third one never settles. */
  lemma StaleIndexHangs(draws: seq<nat>)
    ensures ShuffleNext(5, {}, 2, [0]) == Turn(Landed, 0, {5}, [])
    ensures ShuffleNext(0, {5}, 2, [1]) == Turn(Landed, 1, {5, 0}, [])
    ensures ShuffleNext(1, {5, 0}, 2, draws).stop == Stalled
  {
    assert Land(0, {5}, 2, []) == Turn(Landed, 0, {5}, []);
    assert Land(1, {5, 0}, 2, []) == Turn(Landed, 1, {5, 0}, []);
    var history := {5, 0} + {1};
    assert history == {0, 1, 5};
    assert |history| == 3;
    assert Indices(2) <= history by {
      forall i | i in Indices(2) ensures i in history {
        assert i == 0 || i == 1;
      }
    }
    OverfullHistoryHangs(1, {5, 0}, 2, draws);
  }

  lemma DistinctHead(x: int, ps: seq<int>)
    requires Distinct([x] + ps)
    ensures forall i :: 0 <= i < |ps| ==> ps[i] != x
  {
    forall i | 0 <= i < |ps| ensures ps[i] != x {
      assert ([x] + ps)[0] == x && ([x] + ps)[i + 1] == ps[i];
    }
  }
}
