/**
  The bounded lists the worker keeps per job: `list.append(x)` followed by
  `list.pop(0)` when the list has grown past its capacity, the trim
  `list[-n:]`, and the decimation `[f for i, f in enumerate(l) if i % 10 == 0]`.
*/
module Fifo {

  /** `s[-n:]` for n > 0, and `s` itself when it is not longer than n. */
  function LastN<T>(s: seq<T>, n: nat): seq<T> {
    if |s| <= n then s else s[|s| - n..]
  }

  /** `q.append(x); if len(q) > cap: q.pop(0)`. */
  function Push<T>(q: seq<T>, x: T, cap: nat): seq<T> {
    if |q + [x]| > cap then (q + [x])[1..] else q + [x]
  }

  /** LastN keeps exactly the last min(|s|, n) elements, in their order. */
  lemma LastNSpec<T>(s: seq<T>, n: nat)
    ensures |LastN(s, n)| == if |s| < n then |s| else n
    ensures forall i :: 0 <= i < |LastN(s, n)| ==> LastN(s, n)[i] == s[|s| - |LastN(s, n)| + i]
  {
  }

  /**
    A push onto a list within capacity keeps it within capacity, puts the new
    element last, and drops exactly the oldest element when, and only when,
    the list was full.
  */
  lemma PushSpec<T>(q: seq<T>, x: T, cap: nat)
    requires 0 < cap && |q| <= cap
    ensures |Push(q, x, cap)| <= cap
    ensures Push(q, x, cap)[|Push(q, x, cap)| - 1] == x
    ensures |q| < cap ==> Push(q, x, cap) == q + [x]
    ensures |q| == cap ==> Push(q, x, cap) == q[1..] + [x]
  {
    if |q| == cap {
      assert (q + [x])[1..] == q[1..] + [x];
    }
  }

  /** Pushing onto the last n elements is taking the last n after appending. */
  lemma {:induction false} PushLastN<T>(s: seq<T>, x: T, n: nat)
    ensures Push(LastN(s, n), x, n) == LastN(s + [x], n)
  {
    var l := LastN(s, n);
    var t := s + [x];
    if |s| < n {
      assert l == s;
    } else if |s| == n {
      assert l == s;
      assert (s + [x])[1..] == t[|t| - n..];
    } else {
      assert l == s[|s| - n..];
      assert (l + [x])[1..] == t[|t| - n..];
    }
  }

  /** A list within the bound is its own last n elements. */
  lemma LastNOfShort<T>(s: seq<T>, n: nat)
    requires |s| <= n
    ensures LastN(s, n) == s
  {
  }

  /** Trimming to the last m after bounding to the last n (m <= n) is bounding to the last m. */
  lemma LastNOfLastN<T>(s: seq<T>, n: nat, m: nat)
    requires m <= n
    ensures LastN(LastN(s, n), m) == LastN(s, m)
  {
  }

  /** The entries at positions 0, 10, 20, ... of s, in order. */
  function EveryTenth<T>(s: seq<T>): (r: seq<T>)
    ensures |r| == (|s| + 9) / 10
    ensures forall i :: 0 <= i < |r| ==> r[i] == s[10 * i]
    decreases |s|
  {
    if |s| == 0 then []
    else if |s| <= 10 then [s[0]]
    else [s[0]] + EveryTenth(s[10..])
  }
}
