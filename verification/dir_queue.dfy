/** The bounded queue of pending turns that keyboard, swipe and D-pad input feed. */
module DirQueue {
  import opened Grid

  /** Most turns the queue holds (the source's QUEUE_MAX). */
  const QueueMax: int := 4

  /** The direction a new turn is checked against: the last queued one, or the current heading. */
  function LastDir(cur: Dir, q: seq<Dir>): (last: Dir)
    ensures last == ([cur] + q)[|q|]
  {
    if |q| > 0 then q[|q| - 1] else cur
  }

  /** No direction in `s` is the reverse of the one before it. */
  predicate NoReversal(s: seq<Dir>) {
    forall i :: 1 <= i < |s| ==> s[i] != Opp(s[i - 1])
  }

  /** The shared input rule: `d` is appended unless it reverses the last direction
      or the queue is full; otherwise the queue is left as it was. */
  function Enqueue(cur: Dir, q: seq<Dir>, d: Dir): (r: seq<Dir>)
    ensures r == q + [d] || r == q
    ensures r != q <==> d != Opp(LastDir(cur, q)) && |q| < QueueMax
    ensures |q| <= QueueMax ==> |r| <= QueueMax
  {
    if d != Opp(LastDir(cur, q)) && |q| < QueueMax then q + [d] else q
  }

  /** The direction a due tick applies: the front of the queue, or the current one if it is empty. */
  function Front(cur: Dir, q: seq<Dir>): (front: Dir)
    ensures |q| > 0 ==> [front] + q[1..] == q
    ensures |q| == 0 ==> front == cur
  {
    if |q| > 0 then q[0] else cur
  }

  /** The queue after a due tick: its front removed, if it has one. */
  function Rest(q: seq<Dir>): (r: seq<Dir>)
    ensures |q| > 0 ==> q == [q[0]] + r
    ensures |q| == 0 ==> r == []
  {
    if |q| > 0 then q[1..] else q
  }

  /** Enqueueing keeps `[cur] + queue` free of reversals. */
  lemma EnqueueKeepsNoReversal(cur: Dir, q: seq<Dir>, d: Dir)
    requires NoReversal([cur] + q)
    ensures NoReversal([cur] + Enqueue(cur, q, d))
  {
    var r := Enqueue(cur, q, d);
    if r != q {
      var s := [cur] + r;
      assert s == ([cur] + q) + [d];
      assert s[|s| - 2] == LastDir(cur, q);
    }
  }

  /** Moving the front of the queue into the current direction keeps the chain free of
      reversals, and the direction applied never reverses the one it replaces. */
  lemma ShiftKeepsNoReversal(cur: Dir, q: seq<Dir>)
    requires NoReversal([cur] + q)
    ensures NoReversal([Front(cur, q)] + Rest(q))
    ensures Front(cur, q) != Opp(cur)
  {
    if |q| > 0 {
      var s := [cur] + q;
      assert s[0] == cur && s[1] == q[0];
      assert s[1] != Opp(s[0]);
      assert [Front(cur, q)] + Rest(q) == s[1..];
    }
  }
}
