/** The adaptive download loop of payload_network_web.py over the byte counts of
    payload_network_base.py. */
module Download {
  import opened Bytes

  const BYTES_MIN := 10 * 1024
  const BYTES_MAX := 10 * 1024 * 1024
  const MAX_FAILURES := 3

  // ---------- The request size ----------

  /** What a request size without preset has to be, given the missing bytes. */
  ghost predicate IsRequestSize(size: nat, missing: int) {
    && (exists j: nat :: j <= 10 && size == 10240 * Pow2(j))
    && (size <= 10240 || size <= missing)
    && (size < 10485760 ==> missing < 2 * size)
  }

  /** The size is determined by the missing bytes. */
  lemma RequestSizeIsUnique(a: nat, b: nat, missing: int)
    requires IsRequestSize(a, missing) && IsRequestSize(b, missing)
    ensures a == b
  {
    if a < b {
      NoSmallerSize(a, b, missing);
    } else if b < a {
      NoSmallerSize(b, a, missing);
    }
  }

  lemma NoSmallerSize(a: nat, b: nat, missing: int)
    requires a < b && IsRequestSize(b, missing) && exists i: nat :: i <= 10 && a == BYTES_MIN * Pow2(i)
    ensures !IsRequestSize(a, missing)
  {
    hide Pow2;
    var i: nat :| i <= 10 && a == BYTES_MIN * Pow2(i);
    var j: nat :| j <= 10 && b == BYTES_MIN * Pow2(j);
    Powers();
    if i < j {
      DoublesBelow(i, j);
      if j < 10 {
        DoublesBelow(j, 10);
      }
    } else if j < i {
      DoublesBelow(j, i);
    }
    assert 2 * a <= b <= BYTES_MAX;
  }

  lemma {:induction false} DoublesBelow(i: nat, j: nat)
    requires i < j
    ensures 2 * Pow2(i) <= Pow2(j)
  {
    if i + 1 < j {
      DoublesBelow(i, j - 1);
    }
  }

  lemma Powers()
    ensures Pow2(0) == 1 && Pow2(10) == 1024 && BYTES_MAX == BYTES_MIN * Pow2(10)
  {
    assert Pow2(2) == 4 && Pow2(4) == 16 && Pow2(6) == 64 && Pow2(8) == 256;
  }

  class WebPayload {
    const payloadSize: Option<int>
    const presetSize: Option<nat>
    /** Bytes received and sent since the start, as the interface counts them. */
    var consumed: nat
    var requestCnt: nat
    var failCnt: nat

    constructor (payloadSize: Option<int>, presetSize: Option<nat>)
      ensures this.payloadSize == payloadSize && this.presetSize == presetSize
      ensures consumed == 0 && requestCnt == 0 && failCnt == 0
    {
      this.payloadSize, this.presetSize := payloadSize, presetSize;
      consumed, requestCnt, failCnt := 0, 0, 0;
    }

    /** A preset of zero counts as no preset. */
    predicate HasPreset() {
      presetSize.Some? && presetSize.value != 0
    }

    function MissingBytes(): int
      reads this`consumed
    {
      match payloadSize case None => 0 case Some(n) => n - consumed
    }

    predicate IsPayloadConsumed()
      reads this`consumed
    {
      match payloadSize case None => true case Some(n) => consumed >= n
    }

    method GetRequestSize() returns (size: nat)
      ensures HasPreset() ==> size == presetSize.value
      ensures !HasPreset() ==> IsRequestSize(size, MissingBytes())
    {
      if HasPreset() {
        return presetSize.value;
      }
      Powers();
      var missing := MissingBytes();
      var current := BYTES_MAX;
      ghost var j: nat := 10;
      while current > missing
        invariant j <= 10 && current == BYTES_MIN * Pow2(j)
        invariant current < BYTES_MAX ==> missing < 2 * current
        invariant j < 10 ==> missing > BYTES_MIN
        decreases j
      {
        if missing <= BYTES_MIN {
          assert BYTES_MIN == BYTES_MIN * Pow2(0);
          return BYTES_MIN;
        }
        assert j > 0;
        assert Pow2(j) == 2 * Pow2(j - 1);
        current := current / 2;
        j := j - 1;
      }
      size := current;
    }

    /** One request, for a network that answers with `reply`. */
    method MakeRequest(reply: Reply) returns (size: nat)
      modifies this`consumed, this`failCnt
      ensures HasPreset() ==> size == presetSize.value
      ensures !HasPreset() ==> IsRequestSize(size, old(MissingBytes()))
      ensures consumed == old(consumed) + reply.traffic
      ensures failCnt == if reply.success then 0 else old(failCnt) + 1
    {
      size := GetRequestSize();
      consumed := consumed + reply.traffic;
      if reply.success {
        failCnt := 0;
      } else {
        failCnt := failCnt + 1;
      }
    }

    /** `send_payload` against a network given by its replies. The loop ends for
        one of two reasons, or the replies run out, which `exhausted` reports. */
    method SendPayload(replies: seq<Reply>) returns (success: bool, exhausted: bool, sizes: seq<nat>)
      modifies this`consumed, this`requestCnt, this`failCnt
      ensures |sizes| <= |replies| && requestCnt == old(requestCnt) + |sizes|
      ensures consumed == old(consumed) + Traffic(replies[..|sizes|])
      ensures failCnt == FailuresAfter(old(failCnt), replies[..|sizes|])
      ensures success <==> failCnt <= MAX_FAILURES || |sizes| == 0
      ensures exhausted ==> |sizes| == |replies| && success && !IsPayloadConsumed()
      ensures !exhausted && success ==> IsPayloadConsumed()
      ensures sizes != [] ==> payloadSize.Some?
      ensures SizesOk(old(MissingBytes()), replies[..|sizes|], sizes)
      ensures RequestedInNeed(old(MissingBytes()), replies, |sizes|)
      ensures NoEarlierStop(old(failCnt), replies, |sizes|)
      ensures !HasPreset() && HonestNetwork(old(MissingBytes()), replies) && |replies| > RequestBound(old(MissingBytes()))
        ==> !exhausted
      ensures old(failCnt) == 0 ==> (!success <==> FourFailures(replies[..|sizes|]))
      ensures old(failCnt) == 0 ==> forall k :: 0 <= k < |sizes| ==> !FourFailures(replies[..k])
      ensures exhausted ==> payloadSize.Some? && consumed < payloadSize.value
      ensures success && !exhausted ==> payloadSize.None? || consumed >= payloadSize.value
      ensures payloadSize.Some? ==> old(MissingBytes()) == payloadSize.value - old(consumed)
    {
      hide IsRequestSize, RequestSizeOk, SizesOk, RequestedInNeed, NoEarlierStop, HonestNetwork;
      ghost var missing0, fail0 := MissingBytes(), failCnt;
      success, exhausted, sizes := true, false, [];
      var i := 0;
      LoopBegins(missing0, fail0, replies);
      while !IsPayloadConsumed()
        invariant 0 <= i == |sizes| <= |replies| && success && !exhausted
        invariant requestCnt == old(requestCnt) + i
        invariant consumed == old(consumed) + Traffic(replies[..i])
        invariant failCnt == FailuresAfter(fail0, replies[..i]) && (i > 0 ==> failCnt <= MAX_FAILURES)
        invariant i > 0 ==> payloadSize.Some?
        invariant SizesOk(missing0, replies[..i], sizes)
        invariant RequestedInNeed(missing0, replies, i) && NoEarlierStop(fail0, replies, i)
        decreases |replies| - i
      {
        if i == |replies| {
          assert replies[..i] == replies;
          UsedUpMeansFew(missing0, fail0, replies, sizes);
          FourFailuresEndIt(fail0, replies, |sizes|);
          exhausted := true;
          return;
        }
        requestCnt := requestCnt + 1;
        var size := MakeRequest(replies[i]);
        RequestSizeFits(size, missing0 - Traffic(replies[..i]));
        LoopGoesOn(missing0, fail0, replies, sizes, size);
        sizes := sizes + [size];
        i := i + 1;
        if failCnt > MAX_FAILURES {
          success := false;
          break;
        }
      }
      FourFailuresEndIt(fail0, replies, |sizes|);
    }

    /** The loop cannot use up more replies than its bound. */
    lemma UsedUpMeansFew(missing: int, before: nat, replies: seq<Reply>, sizes: seq<nat>)
      requires SizesOk(missing, replies, sizes)
      requires RequestedInNeed(missing, replies, |replies|) && NoEarlierStop(before, replies, |replies|)
      ensures !HasPreset() && HonestNetwork(missing, replies) ==> |replies| <= RequestBound(missing)
    {
      hide IsRequestSize, NoEarlierStop, Traffic, Successes;
      if !HasPreset() && HonestNetwork(missing, replies) {
        forall i | 0 <= i < |replies| ensures IsRequestSize(sizes[i], missing - Traffic(replies[..i])) {
          assert RequestSizeOk(sizes[i], missing - Traffic(replies[..i]));
        }
        LoopIsBounded(missing, before, replies, sizes);
      }
    }

    lemma RequestSizeFits(size: nat, missing: int)
      requires HasPreset() ==> size == presetSize.value
      requires !HasPreset() ==> IsRequestSize(size, missing)
      ensures RequestSizeOk(size, missing)
    {
    }

    lemma LoopBegins(missing: int, before: nat, replies: seq<Reply>)
      ensures replies[..0] == [] && SizesOk(missing, replies[..0], [])
      ensures RequestedInNeed(missing, replies, 0) && NoEarlierStop(before, replies, 0)
    {
    }

    lemma LoopGoesOn(missing: int, before: nat, replies: seq<Reply>, sizes: seq<nat>, size: nat)
      requires |sizes| < |replies|
      requires var i := |sizes|;
        && SizesOk(missing, replies[..i], sizes) && RequestSizeOk(size, missing - Traffic(replies[..i]))
        && RequestedInNeed(missing, replies, i) && missing > Traffic(replies[..i])
        && NoEarlierStop(before, replies, i) && (i > 0 ==> FailuresAfter(before, replies[..i]) <= MAX_FAILURES)
      ensures var i := |sizes|;
        && replies[..i + 1][..i] == replies[..i]
        && SizesOk(missing, replies[..i + 1], sizes + [size])
        && RequestedInNeed(missing, replies, i + 1) && NoEarlierStop(before, replies, i + 1)
    {
      hide IsRequestSize, RequestSizeOk;
      var i := |sizes|;
      forall k | 0 <= k < i ensures replies[..i + 1][..k] == replies[..i][..k] {
      }
    }

    /** Request `k` asks for a size that fits what is then missing. */
    ghost predicate SizesOk(missing: int, replies: seq<Reply>, sizes: seq<nat>) {
      |sizes| == |replies| &&
      forall k :: 0 <= k < |sizes| ==> RequestSizeOk(sizes[k], missing - Traffic(replies[..k]))
    }

    ghost predicate RequestSizeOk(size: nat, missing: int) {
      if HasPreset() then size == presetSize.value else IsRequestSize(size, missing)
    }
  }

  // ---------- The network ----------

  /** What one request meets: success or an exception, and the traffic meanwhile. */
  datatype Reply = Reply(success: bool, traffic: nat)

  function Traffic(replies: seq<Reply>): nat {
    if replies == [] then 0
    else Traffic(replies[..|replies| - 1]) + replies[|replies| - 1].traffic
  }

  function Successes(replies: seq<Reply>): nat {
    if replies == [] then 0
    else Successes(replies[..|replies| - 1]) + (if replies[|replies| - 1].success then 1 else 0)
  }

  /** `fail_cnt`: the length of the run of failures at the end. */
  function FailuresAfter(before: nat, replies: seq<Reply>): nat {
    if replies == [] then before
    else if replies[|replies| - 1].success then 0
    else FailuresAfter(before, replies[..|replies| - 1]) + 1
  }

  /** Every reply counts: its traffic whether it succeeds or fails, and one success
      if it succeeds. */
  lemma {:induction false} TrafficAdds(a: seq<Reply>, b: seq<Reply>)
    ensures Traffic(a + b) == Traffic(a) + Traffic(b) && Successes(a + b) == Successes(a) + Successes(b)
    ensures forall r: Reply :: Traffic([r]) == r.traffic && Successes([r]) == if r.success then 1 else 0
  {
    forall r: Reply ensures Traffic([r]) == r.traffic && Successes([r]) == if r.success then 1 else 0 {
      assert [r][..0] == [];
    }
    if b == [] {
      assert a + b == a;
    } else {
      assert (a + b)[..|a + b| - 1] == a + b[..|b| - 1];
      TrafficAdds(a, b[..|b| - 1]);
    }
  }

  /** Each of the first `n` requests is made while bytes are missing. */
  ghost predicate RequestedInNeed(missing: int, replies: seq<Reply>, n: nat)
    requires n <= |replies|
  {
    forall k :: 0 <= k < n ==> missing > Traffic(replies[..k])
  }

  /** No more than three failures in a row lie behind any request but the first. */
  ghost predicate NoEarlierStop(before: nat, replies: seq<Reply>, n: nat)
    requires n <= |replies|
  {
    forall k :: 0 < k < n ==> FailuresAfter(before, replies[..k]) <= MAX_FAILURES
  }

  /** The last four requests have all failed. */
  ghost predicate FourFailures(replies: seq<Reply>) {
    var n := |replies|;
    n >= 4 && !replies[n - 1].success && !replies[n - 2].success && !replies[n - 3].success && !replies[n - 4].success
  }

  /** The failure counter, when it starts at zero, passes its limit exactly with the
      fourth failure in a row. */
  lemma FourFailuresIff(replies: seq<Reply>)
    ensures FailuresAfter(0, replies) > MAX_FAILURES <==> FourFailures(replies)
  {
    var n := |replies|;
    FailuresOfRun(replies);
    if n >= 1 {
      FailuresOfRun(replies[..n - 1]);
    }
    if n >= 2 {
      assert replies[..n - 1][..n - 2] == replies[..n - 2];
      FailuresOfRun(replies[..n - 2]);
    }
    if n >= 3 {
      assert replies[..n - 2][..n - 3] == replies[..n - 3];
      FailuresOfRun(replies[..n - 3]);
    }
  }

  lemma FailuresOfRun(replies: seq<Reply>)
    ensures FailuresAfter(0, replies)
         == if replies == [] || replies[|replies| - 1].success then 0
            else FailuresAfter(0, replies[..|replies| - 1]) + 1
  {
  }

  lemma FourFailuresEndIt(before: nat, replies: seq<Reply>, n: nat)
    requires n <= |replies| && before == 0 ==> NoEarlierStop(before, replies, n)
    ensures n <= |replies| && before == 0 ==>
      && (FailuresAfter(before, replies[..n]) > MAX_FAILURES <==> FourFailures(replies[..n]))
      && forall k :: 0 <= k < n ==> !FourFailures(replies[..k])
  {
    if n <= |replies| && before == 0 {
      FourFailuresIff(replies[..n]);
      forall k | 0 <= k < n ensures !FourFailures(replies[..k]) {
        FourFailuresIff(replies[..k]);
      }
    }
  }

  // ---------- How many requests there can be ----------

  /** A run of the loop that starts without failures: no more than three failures
      in a row except at the very end. */
  ghost predicate FailuresBounded(replies: seq<Reply>) {
    forall i :: 0 <= i < |replies| ==> FailuresAfter(0, replies[..i]) <= MAX_FAILURES
  }

  lemma {:induction false} RequestsInTermsOfSuccesses(replies: seq<Reply>)
    requires FailuresBounded(replies)
    ensures |replies| <= 4 * Successes(replies) + FailuresAfter(0, replies)
    ensures FailuresAfter(0, replies) <= MAX_FAILURES + 1
  {
    if replies != [] {
      var n := |replies| - 1;
      var init := replies[..n];
      assert FailuresAfter(0, replies[..n]) <= MAX_FAILURES;
      forall i | 0 <= i < n ensures FailuresAfter(0, init[..i]) <= MAX_FAILURES {
        assert init[..i] == replies[..i];
      }
      RequestsInTermsOfSuccesses(init);
    }
  }

  /** At most four requests per success, and four more. */
  lemma RequestsBounded(replies: seq<Reply>)
    requires FailuresBounded(replies)
    ensures |replies| <= 4 * (Successes(replies) + 1)
  {
    RequestsInTermsOfSuccesses(replies);
  }

  /** Every success moves at least as many bytes as it asked for, and every
      request is made while bytes are missing. */
  ghost predicate Honest(missing: int, replies: seq<Reply>, sizes: seq<nat>)
    requires |sizes| == |replies|
  {
    && RequestedInNeed(missing, replies, |replies|)
    && (forall i :: 0 <= i < |replies| ==> IsRequestSize(sizes[i], missing - Traffic(replies[..i])))
    && (forall i :: 0 <= i < |replies| && replies[i].success ==> replies[i].traffic >= sizes[i])
  }

  /** The same as a promise of the network alone: a success moves at least the
      request size that belongs to what is then missing. */
  ghost predicate HonestNetwork(missing: int, replies: seq<Reply>) {
    forall i :: 0 <= i < |replies| && replies[i].success ==>
      MovesRequestSize(replies[i].traffic, missing - Traffic(replies[..i]))
  }

  ghost predicate MovesRequestSize(traffic: nat, missing: int) {
    forall size: nat :: IsRequestSize(size, missing) ==> traffic >= size
  }

  /** Four requests per 10 MB missing and 48 more. */
  function RequestBound(missing: int): nat {
    4 * ((if missing > 0 then missing / 10485760 else 0) + 12)
  }

  /** Requests that ask for more than half of what is missing, down to one. */
  function Halvings(missing: int): nat
    decreases missing
  {
    if missing <= 0 then 0
    else if missing <= BYTES_MIN then 1
    else 1 + Halvings(missing / 2)
  }

  lemma {:induction false} HalvingsMonotone(a: int, b: int)
    requires a <= b
    ensures Halvings(a) <= Halvings(b)
    decreases b
  {
    if a > BYTES_MIN {
      HalvingsMonotone(a / 2, b / 2);
    }
  }

  lemma {:induction false} HalvingsBounded(missing: int, j: nat)
    requires missing <= BYTES_MIN * Pow2(j)
    ensures Halvings(missing) <= j + 1
  {
    if missing > BYTES_MIN {
      assert j > 0;
      HalvingsBounded(missing / 2, j - 1);
    }
  }

  /** The most successes that `missing` bytes allow: one per full 10 MB, and at
      most eleven for the rest. */
  function SuccessBound(missing: int): nat {
    if missing >= BYTES_MAX then missing / BYTES_MAX + 11 else Halvings(missing)
  }

  lemma RestIsBounded(missing: int)
    requires missing < BYTES_MAX
    ensures Halvings(missing) <= 11
  {
    Powers();
    HalvingsBounded(missing, 10);
  }

  lemma SuccessBoundMonotone(a: int, b: int)
    requires a <= b
    ensures SuccessBound(a) <= SuccessBound(b)
  {
    if b < BYTES_MAX {
      HalvingsMonotone(a, b);
    } else if a < BYTES_MAX {
      RestIsBounded(a);
    }
  }

  /** A success uses up one unit of the bound. */
  lemma SuccessCosts(missing: int, size: nat, traffic: nat)
    requires missing > 0 && IsRequestSize(size, missing) && traffic >= size
    ensures 1 + SuccessBound(missing - traffic) <= SuccessBound(missing)
  {
    var rest := missing - traffic;
    AtMostCap(size, missing);
    if missing >= BYTES_MAX {
      if rest < BYTES_MAX {
        RestIsBounded(rest);
      }
    } else if missing > BYTES_MIN {
      HalvingsMonotone(rest, missing / 2);
    }
  }

  lemma AtMostCap(size: nat, missing: int)
    requires IsRequestSize(size, missing)
    ensures BYTES_MIN <= size <= BYTES_MAX && (missing >= BYTES_MAX ==> size == BYTES_MAX)
  {
    Powers();
    hide Pow2;
    var j: nat :| j <= 10 && size == BYTES_MIN * Pow2(j);
    if j < 10 {
      DoublesBelow(j, 10);
    }
  }

  lemma {:induction false} SuccessesBounded(missing: int, replies: seq<Reply>, sizes: seq<nat>, k: nat)
    requires |sizes| == |replies| && k <= |replies| && Honest(missing, replies, sizes)
    ensures Successes(replies[..k]) + SuccessBound(missing - Traffic(replies[..k])) <= SuccessBound(missing)
  {
    if k > 0 {
      SuccessesBounded(missing, replies, sizes, k - 1);
      assert replies[..k][..k - 1] == replies[..k - 1];
      var before := missing - Traffic(replies[..k - 1]);
      if replies[k - 1].success {
        SuccessCosts(before, sizes[k - 1], replies[k - 1].traffic);
      } else {
        SuccessBoundMonotone(before - replies[k - 1].traffic, before);
      }
    } else {
      assert replies[..0] == [];
    }
  }

  lemma {:induction false} FewerFailuresFromZero(before: nat, replies: seq<Reply>)
    ensures FailuresAfter(0, replies) <= FailuresAfter(before, replies)
  {
    if replies != [] {
      FewerFailuresFromZero(before, replies[..|replies| - 1]);
    }
  }

  /** Termination with a bound: on an honest network and without a preset size,
      the loop makes no more than four requests per 10 MB missing and 48 more,
      whatever failures came before. SendPayload uses it to show that it ends. */
  lemma LoopIsBounded(missing: int, before: nat, replies: seq<Reply>, sizes: seq<nat>)
    requires |sizes| == |replies| && Honest(missing, replies, sizes)
    requires NoEarlierStop(before, replies, |replies|)
    ensures |replies| <= 4 * (Successes(replies) + 1)
    ensures Successes(replies) <= (if missing > 0 then missing / BYTES_MAX else 0) + 11
  {
    hide Honest, NoEarlierStop, FailuresBounded, Successes, Traffic, Halvings, IsRequestSize;
    BoundedFromZero(before, replies);
    RequestsBounded(replies);
    SuccessesBounded(missing, replies, sizes, |replies|);
    assert replies[..|replies|] == replies;
    if missing < BYTES_MAX {
      RestIsBounded(missing);
    }
  }

  lemma BoundedFromZero(before: nat, replies: seq<Reply>)
    requires NoEarlierStop(before, replies, |replies|)
    ensures FailuresBounded(replies)
  {
    forall i | 0 <= i < |replies| ensures FailuresAfter(0, replies[..i]) <= MAX_FAILURES {
      if i > 0 {
        FewerFailuresFromZero(before, replies[..i]);
      } else {
        assert replies[..0] == [];
      }
    }
  }
}
