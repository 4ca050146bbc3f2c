// The command history of the console: most recent first, deduplicated against its
// head only, capped at fifty entries, and recalled with a cursor.
module History {

  /** `.slice(0, 50)` in `handleSendCommand`. */
  const Limit := 50

  function Min(a: int, b: int): int {
    if a < b then a else b
  }

  /** The history after sending `c`: unchanged when `c` is already the head, otherwise
      `c` in front of the old entries in their old order, cut to the first fifty.
      Either way `c` is the head, and a history within the cap stays within it. */
  function Push(h: seq<string>, c: string): (r: seq<string>)
    ensures |r| > 0 && r[0] == c
    ensures |h| > 0 && h[0] == c ==> r == h
    ensures !(|h| > 0 && h[0] == c) ==> |r| == Min(|h| + 1, Limit) && r[1..] == h[..|r| - 1]
    ensures |h| <= Limit ==> |r| <= Limit
  {
    if |h| > 0 && h[0] == c then h else ([c] + h)[..Min(|h| + 1, Limit)]
  }

  /** Sending the same command twice in a row leaves one entry for it. */
  lemma PushTwice(h: seq<string>, c: string)
    ensures Push(Push(h, c), c) == Push(h, c)
  {
  }

  /** The history after sending each of `cs` in turn. */
  function PushAll(h: seq<string>, cs: seq<string>): seq<string>
    decreases |cs|
  {
    if cs == [] then h else Push(PushAll(h, cs[..|cs| - 1]), cs[|cs| - 1])
  }

  function Reverse(s: seq<string>): (r: seq<string>)
    ensures |r| == |s|
    ensures forall i :: 0 <= i < |s| ==> r[i] == s[|s| - 1 - i]
  {
    if s == [] then [] else [s[|s| - 1]] + Reverse(s[..|s| - 1])
  }

  /** No command is sent twice in a row. */
  predicate NoRepeats(cs: seq<string>) {
    forall i :: 0 < i < |cs| ==> cs[i] != cs[i - 1]
  }

  /** Starting from an empty history, a run of sends without immediate repeats keeps
      the fifty most recent commands, most recent first. */
  lemma {:induction false} KeepsMostRecent(cs: seq<string>)
    requires NoRepeats(cs)
    ensures PushAll([], cs) == Reverse(cs)[..Min(|cs|, Limit)]
  {
    if cs != [] {
      var init := cs[..|cs| - 1];
      var c := cs[|cs| - 1];
      assert NoRepeats(init);
      KeepsMostRecent(init);
      var before := PushAll([], init);
      assert before == Reverse(init)[..Min(|init|, Limit)];
      if |init| > 0 {
        assert before[0] == init[|init| - 1] == cs[|cs| - 2] != c;
      }
      var after := Push(before, c);
      var want := Reverse(cs)[..Min(|cs|, Limit)];
      assert |after| == |want|;
      forall i | 0 <= i < |want|
        ensures after[i] == want[i]
      {
        if i > 0 {
          assert after[i] == after[1..][i - 1] == before[i - 1];
        }
      }
    }
  }

  /** Reversing and then dropping the last entry is reversing without the first. */
  lemma {:induction false} ReverseDropFirst(cs: seq<string>)
    requires |cs| >= 1
    ensures Reverse(cs)[..|cs| - 1] == Reverse(cs[1..])
  {
    var tail := cs[1..];
    var r1, r2 := Reverse(cs), Reverse(tail);
    var a := r1[..|cs| - 1];
    assert |a| == |r2| == |tail|;
    forall i | 0 <= i < |a|
      ensures a[i] == r2[i]
    {
      assert a[i] == r1[i] == cs[|cs| - 1 - i];
      assert r2[i] == tail[|tail| - 1 - i];
      assert tail[|tail| - 1 - i] == cs[|cs| - 1 - i];
    }
    assert a == r2;
  }

  /** Fifty-one different commands: the oldest one is dropped. */
  lemma {:induction false} FiftyOneDistinct(cs: seq<string>)
    requires |cs| == Limit + 1
    requires forall i, j :: 0 <= i < j < |cs| ==> cs[i] != cs[j]
    ensures PushAll([], cs) == Reverse(cs[1..])
  {
    assert NoRepeats(cs) by {
      forall i | 0 < i < |cs| ensures cs[i] != cs[i - 1] {
        assert i - 1 < i;
      }
    }
    KeepsMostRecent(cs);
    ReverseDropFirst(cs);
  }

  /** The recall state: the cursor and the input buffer it shows.
      A cursor of -1 means the buffer is free text. */
  datatype Recall = Recall(index: int, buffer: string)

  /** The cursor is free (-1) or points into the history. */
  predicate CursorOk(h: seq<string>, i: int) {
    -1 <= i < |h|
  }

  /** ArrowUp: on a non-empty history the cursor moves one entry older, stopping at
      the oldest, and the buffer shows that entry; on an empty history nothing changes. */
  function Older(h: seq<string>, r: Recall): (q: Recall)
    requires CursorOk(h, r.index)
    ensures CursorOk(h, q.index)
    ensures |h| == 0 ==> q == r
    ensures |h| > 0 ==> 0 <= q.index && q.buffer == h[q.index]
    ensures |h| > 0 ==> if r.index < |h| - 1 then q.index == r.index + 1 else q.index == r.index
  {
    if |h| > 0 then
      var i := Min(r.index + 1, |h| - 1);
      Recall(i, h[i])
    else r
  }

  /** ArrowDown: a positive cursor moves one entry newer and the buffer shows that
      entry; from the newest entry the cursor is freed and the buffer emptied; a free
      cursor stays as it is. */
  function Newer(h: seq<string>, r: Recall): (q: Recall)
    requires CursorOk(h, r.index)
    ensures CursorOk(h, q.index)
    ensures r.index > 0 ==> q.index == r.index - 1 && q.buffer == h[q.index]
    ensures r.index == 0 ==> q == Recall(-1, "")
    ensures r.index < 0 ==> q == r
  {
    if r.index > 0 then
      var i := if r.index - 1 > 0 then r.index - 1 else 0;
      Recall(i, h[i])
    else if r.index == 0 then Recall(-1, "")
    else r
  }

  /** `n` presses of ArrowUp. */
  function OlderN(h: seq<string>, r: Recall, n: nat): (q: Recall)
    requires CursorOk(h, r.index)
    ensures CursorOk(h, q.index)
    decreases n
  {
    if n == 0 then r else OlderN(h, Older(h, r), n - 1)
  }

  /** `n` presses of ArrowDown. */
  function NewerN(h: seq<string>, r: Recall, n: nat): (q: Recall)
    requires CursorOk(h, r.index)
    ensures CursorOk(h, q.index)
    decreases n
  {
    if n == 0 then r else NewerN(h, Newer(h, r), n - 1)
  }

  /** From any position on a non-empty history, `n` presses of ArrowUp reach the entry
      `n` older, or the oldest entry if there are fewer; once there, further presses
      change nothing. */
  lemma {:induction false} OlderRepeated(h: seq<string>, r: Recall, n: nat)
    requires CursorOk(h, r.index) && |h| > 0 && n > 0
    ensures OlderN(h, r, n) == Recall(Min(r.index + n, |h| - 1), h[Min(r.index + n, |h| - 1)])
    decreases n
  {
    if n > 1 {
      OlderRepeated(h, Older(h, r), n - 1);
    }
  }

  /** From free text, as many presses as there are entries land on the oldest one,
      and pressing again stays there. */
  lemma OlderStopsAtOldest(h: seq<string>, typed: string, extra: nat)
    requires |h| > 0
    ensures OlderN(h, Recall(-1, typed), |h| + extra) == Recall(|h| - 1, h[|h| - 1])
  {
    OlderRepeated(h, Recall(-1, typed), |h| + extra);
  }

  /** From entry `k`, `k + 1` presses of ArrowDown return to empty free text. */
  lemma {:induction false} NewerReturnsToFreeText(h: seq<string>, r: Recall)
    requires CursorOk(h, r.index) && r.index >= 0
    ensures NewerN(h, r, r.index + 1) == Recall(-1, "")
    decreases r.index
  {
    if r.index > 0 {
      NewerReturnsToFreeText(h, Newer(h, r));
    }
  }

  /** Below the oldest entry, ArrowDown after ArrowUp puts the cursor back and shows
      that entry again; from free text it gives empty free text. A buffer edited
      since the last recall is not restored in either case. */
  lemma NewerUndoesOlder(h: seq<string>, r: Recall)
    requires CursorOk(h, r.index) && r.index < |h| - 1
    ensures r.index >= 0 ==> Newer(h, Older(h, r)) == Recall(r.index, h[r.index])
    ensures r.index == -1 ==> Newer(h, Older(h, r)) == Recall(-1, "")
  {
  }
}
