/**
 * The `timeupdate` discretiser: the video reports its position many times a
 * second; the handler floors it and calls `checkForQuiz` only when the
 * floored second differs from the one it saw last (`lastTime`, initially -1).
 */
module Playback {

  /** The value `lastTime` starts with, below every real second. */
  const NoSecondYet := -1

  /** `lastTime` after the handler has seen the floored positions `seconds`, starting from `last`. */
  function LastSeen(last: int, seconds: seq<int>): int
  {
    if seconds == [] then last else seconds[|seconds| - 1]
  }

  /**
   * The seconds, in order, for which the handler calls `checkForQuiz` when it
   * sees the floored positions `seconds` with `lastTime == last`.
   */
  function Ticks(last: int, seconds: seq<int>): (r: seq<int>)
    ensures |r| <= |seconds|
    decreases |seconds|
  {
    if seconds == [] then []
    else (if seconds[0] != last then [seconds[0]] else []) + Ticks(seconds[0], seconds[1..])
  }

  /** `lastTime` after two streams is `lastTime` after the second, started where the first left it. */
  lemma LastSeenAppend(last: int, a: seq<int>, b: seq<int>)
    ensures LastSeen(last, a + b) == LastSeen(LastSeen(last, a), b)
  {
    if b != [] {
      assert (a + b)[|a + b| - 1] == b[|b| - 1];
    } else {
      assert a + b == a;
    }
  }

  /**
   * Feeding the handler one stream after another is feeding it their
   * concatenation: one handler call at a time produces exactly `Ticks`.
   */
  lemma {:induction false} TicksAppend(last: int, a: seq<int>, b: seq<int>)
    ensures Ticks(last, a + b) == Ticks(last, a) + Ticks(LastSeen(last, a), b)
    decreases |a|
  {
    if a == [] {
      assert a + b == b;
    } else {
      var head := if a[0] != last then [a[0]] else [];
      calc {
        Ticks(last, a + b);
      == { assert (a + b)[0] == a[0] && (a + b)[1..] == a[1..] + b; }
        head + Ticks(a[0], a[1..] + b);
      == { TicksAppend(a[0], a[1..], b); }
        head + (Ticks(a[0], a[1..]) + Ticks(LastSeen(a[0], a[1..]), b));
      == { assert LastSeen(a[0], a[1..]) == LastSeen(last, a); }
        (head + Ticks(a[0], a[1..])) + Ticks(LastSeen(last, a), b);
      }
    }
  }

  /**
   * Any number of position updates within one second call `checkForQuiz`
   * at most once, and not at all when that second was the last one seen.
   */
  lemma {:induction false} TicksWithinOneSecond(last: int, s: int, n: nat)
    ensures Ticks(last, seq(n, _ => s)) == if n > 0 && s != last then [s] else []
    decreases n
  {
    if n > 0 {
      var run := seq(n, _ => s);
      assert run[0] == s && run[1..] == seq(n - 1, _ => s);
      TicksWithinOneSecond(s, s, n - 1);
    }
  }

  /**
   * The handler never calls `checkForQuiz` twice in a row for the same
   * second, and its first call is for a second other than `last`.
   */
  lemma {:induction false} TicksChangeEachTime(last: int, seconds: seq<int>)
    ensures var r := Ticks(last, seconds);
      (r != [] ==> r[0] != last) &&
      forall i :: 0 <= i < |r| - 1 ==> r[i] != r[i + 1]
    decreases |seconds|
  {
    if seconds != [] {
      TicksChangeEachTime(seconds[0], seconds[1..]);
    }
  }
}
