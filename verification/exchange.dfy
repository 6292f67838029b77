/**
 * `demoTransceiveBlocking`: one asynchronous RFAL data exchange made
 * synchronous by polling its status, with the RF worker serviced before
 * every poll, until the status is no longer `ERR_BUSY`.
 */
module Exchange {
  import opened Rfal
  import opened Trace

  /** What RFAL answers during one blocking exchange: the code of
      `rfalNfcDataExchangeStart`, then the successive codes of
      `rfalNfcDataExchangeGetStatus`. */
  datatype Answers = Answers(start: ReturnCode, polls: seq<ReturnCode>)

  /** The exchange finishes inside the answers given: either the start fails
      or some poll is not busy. */
  predicate Completes(a: Answers) {
    a.start != ErrNone || Ends(a.polls, ErrBusy)
  }

  /** Number of status polls the loop makes. */
  function PollCount(a: Answers): (n: nat)
    requires Completes(a)
    ensures a.start != ErrNone ==> n == 0
    ensures a.start == ErrNone ==> 1 <= n <= |a.polls| && a.polls[n - 1] != ErrBusy
    ensures a.start == ErrNone ==> forall j :: 0 <= j < n - 1 ==> a.polls[j] == ErrBusy
  {
    if a.start != ErrNone then 0 else FirstOther(a.polls, ErrBusy) + 1
  }

  /** The code the blocking exchange returns. */
  function Status(a: Answers): (r: ReturnCode)
    requires Completes(a)
    ensures a.start != ErrNone ==> r == a.start
    ensures a.start == ErrNone ==> r != ErrBusy && r in a.polls
  {
    if a.start != ErrNone then a.start else a.polls[PollCount(a) - 1]
  }

  /** The exchange completed successfully. */
  predicate Succeeds(a: Answers) {
    Completes(a) && Status(a) == ErrNone
  }

  /** The exchange completed with an error. */
  predicate Fails(a: Answers) {
    Completes(a) && Status(a) != ErrNone
  }

  /** One worker run and one status query. */
  const PollRound: seq<Call> := [Worker, ExchangeStatus]

  /** The calls one blocking exchange of `frame` makes. */
  function Calls(frame: seq<uint8>, a: Answers): (r: seq<Call>)
    requires Completes(a)
    ensures |r| == 1 + 2 * PollCount(a) && r[0] == ExchangeStart(frame)
  {
    [ExchangeStart(frame)] + Repeat(PollRound, PollCount(a))
  }

  /** After the start, an exchange only runs the worker and queries the
      status. */
  lemma CallsRounds(frame: seq<uint8>, a: Answers, x: Call)
    requires Completes(a)
    ensures x in Calls(frame, a)[1..] ==> x == Worker || x == ExchangeStatus
  {
    var r := Calls(frame, a);
    assert r[1..] == Repeat(PollRound, PollCount(a));
    RepeatMember(PollRound, PollCount(a), x);
  }

  lemma CallsStarts(frame: seq<uint8>, a: Answers, x: Call)
    requires Completes(a)
    ensures x in Calls(frame, a) && x.ExchangeStart? <==> x == ExchangeStart(frame)
  {
    var r := Calls(frame, a);
    assert r == [r[0]] + r[1..];
    CallsRounds(frame, a, x);
  }

  /** The C loop itself: start the exchange; if that succeeded, run the
      worker and query the status until it is not busy. */
  method TransceiveBlocking(frame: seq<uint8>, a: Answers) returns (err: ReturnCode, trace: seq<Call>)
    requires Completes(a)
    ensures a.start != ErrNone ==> err == a.start && trace == [ExchangeStart(frame)]
    ensures a.start == ErrNone ==> err != ErrBusy
    ensures a.start == ErrNone ==>
      (exists k :: 0 < k <= |a.polls| && err == a.polls[k - 1]
        && (forall j :: 0 <= j < k - 1 ==> a.polls[j] == ErrBusy)
        && trace == [ExchangeStart(frame)] + Repeat(PollRound, k))
    ensures err == Status(a) && trace == Calls(frame, a)
  {
    trace := [ExchangeStart(frame)];
    err := a.start;
    if err == ErrNone {
      var k := 0;
      err := ErrBusy;
      while err == ErrBusy
        invariant 0 <= k <= PollCount(a)
        invariant k == 0 <==> err == ErrBusy && trace == [ExchangeStart(frame)]
        invariant k > 0 ==> err == a.polls[k - 1]
        invariant trace == [ExchangeStart(frame)] + Repeat(PollRound, k)
        invariant forall j :: 0 <= j < k ==> a.polls[j] == ErrBusy || j == PollCount(a) - 1
        decreases PollCount(a) - k
      {
        RepeatSnoc(PollRound, k);
        trace := trace + PollRound;
        err := a.polls[k];
        k := k + 1;
      }
    }
  }

  lemma {:induction false} RepeatSnoc(block: seq<Call>, n: nat)
    ensures Repeat(block, n) + block == Repeat(block, n + 1)
  {
    if n > 0 {
      RepeatSnoc(block, n - 1);
      assert Repeat(block, n) + block == block + (Repeat(block, n - 1) + block);
    }
  }

  /** The frames a trace sends, in order. */
  function Sent(t: seq<Call>): (r: seq<seq<uint8>>)
    ensures |r| <= |t|
  {
    if t == [] then []
    else (if t[0].ExchangeStart? then [t[0].frame] else []) + Sent(t[1..])
  }

  lemma {:induction false} SentAppend(a: seq<Call>, b: seq<Call>)
    ensures Sent(a + b) == Sent(a) + Sent(b)
  {
    if a == [] {
      assert a + b == b;
    } else {
      assert (a + b)[1..] == a[1..] + b;
      SentAppend(a[1..], b);
    }
  }

  /** A frame is sent exactly when an exchange of it is started. */
  lemma {:induction false} SentMember(t: seq<Call>, f: seq<uint8>)
    ensures f in Sent(t) <==> ExchangeStart(f) in t
  {
    if t != [] {
      SentMember(t[1..], f);
      assert t == [t[0]] + t[1..];
    }
  }

  /** Filtering keeps every send of a frame. */
  lemma {:induction false} SentCount(t: seq<Call>, f: seq<uint8>)
    ensures multiset(Sent(t))[f] == multiset(t)[ExchangeStart(f)]
  {
    if t != [] {
      SentCount(t[1..], f);
      assert t == [t[0]] + t[1..];
    }
  }

  /** A trace that starts no exchange sends nothing. */
  lemma NothingSent(t: seq<Call>)
    requires forall x :: x in t ==> !x.ExchangeStart?
    ensures Sent(t) == []
  {
    if Sent(t) != [] {
      SentMember(t, Sent(t)[0]);
    }
  }

  /** A blocking exchange sends its frame once. */
  lemma CallsSent(frame: seq<uint8>, a: Answers)
    requires Completes(a)
    ensures Sent(Calls(frame, a)) == [frame]
  {
    var r := Calls(frame, a);
    forall x | x in r[1..]
      ensures !x.ExchangeStart?
    {
      CallsRounds(frame, a, x);
    }
    NothingSent(r[1..]);
    assert r == [r[0]] + r[1..];
    SentAppend([r[0]], r[1..]);
  }
}
