/** The reconnect loop of the reader thread (app3.py, reader_thread): the
    delay `backoff` between attempts to reach the scale. */
module Reconnect {
  const InitialBackoff: real := 2.0
  const MaxBackoff: real := 30.0
  const BackoffFactor: real := 1.5

  /** `min(30.0, backoff * 1.5)`: the delay after one more failure. It
      never exceeds the cap, and a positive delay grows until it reaches
      the cap. */
  function NextBackoff(b: real): (r: real)
    ensures r <= MaxBackoff
    ensures 0.0 < b ==> b < r || r == MaxBackoff
  {
    if MaxBackoff <= b * BackoffFactor then MaxBackoff else b * BackoffFactor
  }

  /** The delay slept after the `k`-th consecutive failure (counting from
      0) since the thread started or last connected. */
  function BackoffAfter(k: nat): (b: real)
    ensures InitialBackoff <= b <= MaxBackoff
  {
    if k == 0 then InitialBackoff else NextBackoff(BackoffAfter(k - 1))
  }

  /** One more failure never shortens the delay, within the bounds. */
  lemma NextBackoffGrows(b: real)
    requires InitialBackoff <= b <= MaxBackoff
    ensures b <= NextBackoff(b) <= MaxBackoff
  {
  }

  /** Consecutive failures give non-decreasing delays. */
  lemma {:induction false} BackoffMonotone(i: nat, j: nat)
    requires i <= j
    ensures BackoffAfter(i) <= BackoffAfter(j)
    decreases j - i
  {
    if i < j {
      BackoffMonotone(i, j - 1);
      NextBackoffGrows(BackoffAfter(j - 1));
    }
  }

  /** From the eighth consecutive failure on the delay is the cap:
      2 * 1.5^7 exceeds 30, 2 * 1.5^6 does not. */
  lemma {:induction false} BackoffSaturates(k: nat)
    ensures BackoffAfter(k) == MaxBackoff <==> k >= 7
  {
    assert BackoffAfter(6) == 22.78125 by {
      assert BackoffAfter(1) == 3.0;
      assert BackoffAfter(2) == 4.5;
      assert BackoffAfter(3) == 6.75;
      assert BackoffAfter(4) == 10.125;
      assert BackoffAfter(5) == 15.1875;
    }
    assert BackoffAfter(7) == MaxBackoff;
    if k >= 7 {
      BackoffMonotone(7, k);
    } else {
      BackoffMonotone(k, 6);
    }
  }

  /** What one pass of the outer `while True` found: no address to connect
      to, an exception from `connect`, or a connected socket. */
  datatype Attempt = NoAddress | ConnectFailed | Connected

  /** The delays slept after the first `k` consecutive failures, in
      order. */
  function Delays(k: nat): (ds: seq<real>)
    ensures |ds| == k
    ensures forall i :: 0 <= i < k ==> ds[i] == BackoffAfter(i)
  {
    if k == 0 then [] else Delays(k - 1) + [BackoffAfter(k - 1)]
  }

  /** The outer loop of the reader thread over the outcomes of its
      attempts. It sleeps `backoff` after every failure and grows it; a
      successful connect resets it to 2.0 and streams for good, since
      packet_stream swallows every receive error. Returns the delays slept,
      in order, the final backoff and whether streaming was reached. */
  method ReaderThread(attempts: seq<Attempt>) returns (sleeps: seq<real>, backoff: real, streaming: bool)
    ensures |sleeps| <= |attempts|
    ensures streaming <==> Connected in attempts
    ensures forall i :: 0 <= i < |sleeps| ==> sleeps[i] == BackoffAfter(i)
    ensures Connected !in attempts[..|sleeps|]
    ensures streaming ==> |sleeps| < |attempts| && attempts[|sleeps|] == Connected && backoff == InitialBackoff
    ensures !streaming ==> |sleeps| == |attempts| && backoff == BackoffAfter(|attempts|)
  {
    backoff := InitialBackoff;
    sleeps := [];
    var i := 0;
    while i < |attempts| && attempts[i] != Connected
      invariant 0 <= i <= |attempts|
      invariant sleeps == Delays(i)
      invariant Connected !in attempts[..i]
      invariant backoff == BackoffAfter(i)
    {
      assert attempts[..i + 1] == attempts[..i] + [attempts[i]];
      sleeps := sleeps + [backoff];
      backoff := NextBackoff(backoff);
      i := i + 1;
    }
    streaming := i < |attempts|;
    if streaming {
      backoff := InitialBackoff;
    } else {
      assert attempts[..i] == attempts;
    }
  }
}
