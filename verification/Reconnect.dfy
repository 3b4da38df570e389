/**
 Keeping a stream open: reconnecting with backoff, once with a new token after
 a 401, and giving up on what a retry cannot fix. Connections are given as how
 each went; the caller ending the stream is that list ending.
 */
module Reconnect {
  import opened Wrappers

  /** How one connection went: whether it went live, the status of the error that ended it (Some(0) for one without), how long it lasted, and whether a newer token was to be had. */
  datatype Connection = Connection(live: bool, status: Option<nat>, aged: bool, newToken: bool)

  datatype Message = Connecting(attempt: int) | Live | Retrying(attempt: int) | Failed

  /** Asking again would be answered the same way: any client error but 408 and 429. */
  predicate Final(status: Option<nat>) {
    status.Some? && 400 <= status.value < 500 && status.value != 408 && status.value != 429
  }

  predicate Unauthorized(status: Option<nat>) {
    status == Some(401)
  }

  /** The loop's variables, and what has been sent. */
  datatype Loop = Loop(attempt: int, refreshed: bool, failed: bool, out: seq<Message>)

  const START := Loop(0, false, false, [])

  function Sent(l: Loop, m: Message): Loop {
    l.(out := l.out + [m])
  }

  /** One turn of the loop. */
  function Turn(l: Loop, c: Connection): Loop {
    if l.failed then l
    else
      var asked := Sent(l, Connecting(l.attempt));
      var done := if c.live then Sent(asked, Live).(refreshed := false) else asked;
      if Unauthorized(c.status) && !done.refreshed && c.newToken then done.(refreshed := true)
      else if Final(c.status) then Sent(done, Failed).(failed := true)
      else
        var attempt := if c.aged then 0 else done.attempt;
        Sent(done, Retrying(attempt)).(attempt := attempt + 1)
  }

  function Run(cs: seq<Connection>): Loop {
    if cs == [] then START else Turn(Run(cs[..|cs| - 1]), cs[|cs| - 1])
  }

  method Stream(connections: seq<Connection>) returns (out: seq<Message>)
    ensures out == Run(connections).out
  {
    out := [];
    var refreshed := false;
    var attempt := 0;
    for i := 0 to |connections|
      invariant Run(connections[..i]) == Loop(attempt, refreshed, false, out)
    {
      var c := connections[i];
      assert connections[..i + 1][..i] == connections[..i];
      out := out + [Connecting(attempt)];
      if c.live {
        refreshed := false;
        out := out + [Live];
      }
      if Unauthorized(c.status) && !refreshed && c.newToken {
        refreshed := true;
        continue;
      } else if Final(c.status) {
        out := out + [Failed];
        FailedStays(connections, i + 1);
        return;
      }
      if c.aged {
        attempt := 0;
      }
      out := out + [Retrying(attempt)];
      attempt := attempt + 1;
    }
    assert connections[..|connections|] == connections;
  }

  lemma {:induction false} FailedStays(cs: seq<Connection>, i: nat)
    requires i <= |cs| && Run(cs[..i]).failed
    ensures Run(cs) == Run(cs[..i])
    decreases |cs|
  {
    if i < |cs| {
      assert cs[..|cs| - 1][..i] == cs[..i];
      FailedStays(cs[..|cs| - 1], i);
    } else {
      assert cs[..i] == cs;
    }
  }

  function Connects(out: seq<Message>): nat {
    if out == [] then 0 else Connects(out[..|out| - 1]) + if out[|out| - 1].Connecting? then 1 else 0
  }

  /** Each Retrying is a wait. */
  function Waits(out: seq<Message>): nat {
    if out == [] then 0 else Waits(out[..|out| - 1]) + if out[|out| - 1].Retrying? then 1 else 0
  }

  function Lives(out: seq<Message>): nat {
    if out == [] then 0 else Lives(out[..|out| - 1]) + if out[|out| - 1].Live? then 1 else 0
  }

  function Weight(m: Message): int {
    match m
    case Connecting(_) => 1
    case Live => -1
    case Retrying(_) => -1
    case Failed => 0
  }

  /** Connections so far, less those a wait or going live answers for. */
  function Owed(out: seq<Message>): int {
    if out == [] then 0
    else Owed(out[..|out| - 1]) + Weight(out[|out| - 1])
  }

  lemma {:induction false} OwedIs(out: seq<Message>)
    ensures Owed(out) == Connects(out) - Waits(out) - Lives(out)
  {
    if out != [] {
      OwedIs(out[..|out| - 1]);
    }
  }

  lemma OwedSnoc(out: seq<Message>, m: Message)
    ensures Owed(out + [m]) == Owed(out) + Weight(m)
  {
    assert (out + [m])[..|out|] == out;
  }

  /** Every connection but those a refresh or a failure ended was followed by a wait. */
  ghost predicate Paced(l: Loop) {
    l.attempt >= 0 && Owed(l.out) <= (if l.refreshed then 1 else 0) + (if l.failed then 1 else 0)
  }

  ghost predicate FailsLast(l: Loop) {
    forall i :: 0 <= i < |l.out| ==> (l.out[i].Failed? <==> l.failed && i == |l.out| - 1)
  }

  lemma TurnKeepsPace(l: Loop, c: Connection)
    requires Paced(l)
    ensures Paced(Turn(l, c))
  {
    if !l.failed {
      var asked := l.out + [Connecting(l.attempt)];
      OwedSnoc(l.out, Connecting(l.attempt));
      if c.live {
        OwedSnoc(asked, Live);
        EndKeepsPace(l, c, asked + [Live], Owed(asked + [Live]));
      } else {
        EndKeepsPace(l, c, asked, Owed(asked));
      }
    }
  }

  /** The end of a turn, from what had been sent by then. */
  lemma EndKeepsPace(l: Loop, c: Connection, sent: seq<Message>, owed: int)
    requires !l.failed && l.attempt >= 0 && owed == Owed(sent) <= if l.refreshed && !c.live then 2 else 1
    requires sent == l.out + [Connecting(l.attempt)] + if c.live then [Live] else []
    ensures Paced(Turn(l, c))
  {
    assert sent == if c.live then l.out + [Connecting(l.attempt)] + [Live] else l.out + [Connecting(l.attempt)];
    OwedSnoc(sent, Failed);
    OwedSnoc(sent, Retrying(if c.aged then 0 else l.attempt));
  }

  lemma TurnFailsLast(l: Loop, c: Connection)
    requires FailsLast(l)
    ensures FailsLast(Turn(l, c))
  {
  }

  lemma {:induction false} RunKeeps(cs: seq<Connection>)
    ensures Paced(Run(cs)) && FailsLast(Run(cs))
  {
    if cs != [] {
      RunKeeps(cs[..|cs| - 1]);
      TurnKeepsPace(Run(cs[..|cs| - 1]), cs[|cs| - 1]);
      TurnFailsLast(Run(cs[..|cs| - 1]), cs[|cs| - 1]);
    }
  }

  /** No server can make the client spin: however connections end, only going live or one refresh comes without a wait. */
  lemma NeverSpins(cs: seq<Connection>)
    ensures var out := Run(cs).out; Connects(out) <= Waits(out) + Lives(out) + 2
    ensures forall i :: 0 <= i < |Run(cs).out| && Run(cs).out[i].Failed? ==> i == |Run(cs).out| - 1
  {
    RunKeeps(cs);
    OwedIs(Run(cs).out);
  }

  /** Refused again with nothing live since, the stream ends for good. */
  lemma SecondRefusalIsFinal(cs: seq<Connection>, c: Connection, d: Connection)
    requires !Run(cs).failed && Unauthorized(c.status) && Unauthorized(d.status) && !d.live
    ensures Run(cs + [c, d]).failed
  {
    assert cs + [c, d] == cs + [c] + [d];
    assert (cs + [c] + [d])[..|cs| + 1] == cs + [c];
    assert (cs + [c])[..|cs|] == cs;
  }

  // Which connection does what, said of the connections alone.

  /** The i-th connection ends in a new token: a 401 with one to be had, and none taken since the stream last went live. */
  ghost predicate Refreshes(cs: seq<Connection>, i: int) {
    && 0 <= i < |cs| && cs[i].status == Some(401) && cs[i].newToken
    && forall j :: 0 <= j < i && Refreshes(cs, j) ==> exists k :: j < k <= i && cs[k].live
  }

  /** The i-th connection ends the stream: a client error that is not for waiting out, and no new token taken for it. */
  ghost predicate Ends(cs: seq<Connection>, i: int) {
    && 0 <= i < |cs| && cs[i].status.Some? && 400 <= cs[i].status.value < 500 && cs[i].status.value !in {408, 429}
    && !Refreshes(cs, i)
  }

  /** The connections a wait followed since a long one: the tries a delay goes by. */
  ghost function Tries(cs: seq<Connection>, n: nat): set<int>
    requires n <= |cs|
  {
    set j | 0 <= j < n && !Refreshes(cs, j) && forall k :: j < k < n && cs[k].aged ==> Refreshes(cs, k)
  }

  /** Whether a new token has been taken since the stream last went live. */
  ghost predicate Refreshed(cs: seq<Connection>, n: nat)
    requires n <= |cs|
  {
    exists j :: 0 <= j < n && Refreshes(cs, j) && forall k :: j < k < n ==> !cs[k].live
  }

  /** Where the loop is before the n-th connection. */
  ghost predicate IsAt(cs: seq<Connection>, n: nat, l: Loop)
    requires n <= |cs|
  {
    && (l.failed <==> exists i :: 0 <= i < n && Ends(cs, i))
    && (!l.failed ==> l.attempt == |Tries(cs, n)| && (l.refreshed <==> Refreshed(cs, n)))
  }

  lemma TriesOneMore(cs: seq<Connection>, n: nat)
    requires n < |cs|
    ensures |Tries(cs, n + 1)| == if Refreshes(cs, n) then |Tries(cs, n)| else if cs[n].aged then 1 else |Tries(cs, n)| + 1
  {
    forall j ensures j in Tries(cs, n + 1) <==>
                     (j == n && !Refreshes(cs, n)) || (j in Tries(cs, n) && (cs[n].aged ==> Refreshes(cs, n))) {
    }
    assert n !in Tries(cs, n);
    if Refreshes(cs, n) {
      assert Tries(cs, n + 1) == Tries(cs, n);
    } else if cs[n].aged {
      assert Tries(cs, n + 1) == {n};
    } else {
      assert Tries(cs, n + 1) == Tries(cs, n) + {n};
    }
  }

  /** The token rule, from whether one was taken before. */
  lemma RefreshesExactly(cs: seq<Connection>, n: nat)
    requires n < |cs|
    ensures Refreshes(cs, n) <==> Unauthorized(cs[n].status) && cs[n].newToken && (cs[n].live || !Refreshed(cs, n))
    ensures Refreshed(cs, n + 1) <==> Refreshes(cs, n) || (!cs[n].live && Refreshed(cs, n))
  {
    if j :| 0 <= j < n && Refreshes(cs, j) && forall k :: j < k < n ==> !cs[k].live {
      assert !cs[n].live ==> forall k :: j < k <= n ==> !cs[k].live;
    }
  }

  lemma {:induction false} LoopExactly(cs: seq<Connection>, n: nat)
    requires n <= |cs|
    ensures IsAt(cs, n, Run(cs[..n]))
  {
    if n == 0 {
      assert Tries(cs, 0) == {};
    } else {
      LoopExactly(cs, n - 1);
      assert cs[..n][..n - 1] == cs[..n - 1];
      OneMoreConnection(cs, n - 1, Run(cs[..n - 1]));
    }
  }

  lemma OneMoreConnection(cs: seq<Connection>, n: nat, l: Loop)
    requires n < |cs| && IsAt(cs, n, l)
    ensures IsAt(cs, n + 1, Turn(l, cs[n]))
  {
    TriesOneMore(cs, n);
    RefreshesExactly(cs, n);
    assert Ends(cs, n) <==> Final(cs[n].status) && !Refreshes(cs, n);
  }

  /**
   What the stream says of each connection: which try it is; live, if it went so;
   then nothing when a new token was taken, failed when it ended the stream, and
   otherwise that it will be tried again, the first time after a long connection.
   */
  lemma StreamExactly(cs: seq<Connection>, n: nat)
    requires n < |cs|
    ensures Run(cs[..n]).failed <==> exists i :: 0 <= i < n && Ends(cs, i)
    ensures var (before, after, tries) := (Run(cs[..n]).out, Run(cs[..n + 1]).out, |Tries(cs, n)|);
            after == if exists i :: 0 <= i < n && Ends(cs, i) then before
                     else before + [Connecting(tries)] + (if cs[n].live then [Live] else [])
                          + if Refreshes(cs, n) then [] else if Ends(cs, n) then [Failed] else [Retrying(if cs[n].aged then 0 else tries)]
  {
    LoopExactly(cs, n);
    RefreshesExactly(cs, n);
    assert cs[..n + 1][..n] == cs[..n];
    assert Ends(cs, n) <==> Final(cs[n].status) && !Refreshes(cs, n);
  }

  // Backoff, in milliseconds.

  const BASE_DELAY := 250
  const MAX_DELAY := 8000

  function Doubled(delay: nat, times: nat): nat
    decreases times
  {
    if times == 0 then delay else Doubled(2 * delay, times - 1)
  }

  function Delay(attempt: int): nat {
    if 0 <= attempt < 16 && Doubled(BASE_DELAY, attempt) < MAX_DELAY then Doubled(BASE_DELAY, attempt) else MAX_DELAY
  }

  function Times(delay: real, scale: real): (d: real)
    ensures 250.0 <= delay <= 8000.0 && 0.8 <= scale < 1.2 ==> 200.0 <= d < 9600.0
  {
    assert 250.0 <= delay <= 8000.0 && 0.8 <= scale < 1.2 ==> 200.0 <= delay * scale < 9600.0 by {
      if 250.0 <= delay <= 8000.0 && 0.8 <= scale < 1.2 {
        Scaled(delay, scale);
      }
    }
    delay * scale
  }

  function Backoff(attempt: int, jitter: real): real {
    Times(Delay(attempt) as real, 0.8 + 0.4 * jitter)
  }

  lemma {:induction false} DoubledGrows(delay: nat, m: nat, n: nat)
    requires m <= n
    ensures Doubled(delay, m) <= Doubled(delay, n)
    decreases n
  {
    if m > 0 {
      DoubledGrows(2 * delay, m - 1, n - 1);
    } else if n > 0 {
      DoubledGrows(2 * delay, 0, n - 1);
    }
  }

  /** Before jitter the delay never shortens as attempts go on; a wait stays within a fifth of the base and of the cap. */
  lemma BackoffIsBounded(attempt: nat, later: nat, jitter: real)
    requires attempt <= later && 0.0 <= jitter < 1.0
    ensures Delay(attempt) <= Delay(later)
    ensures 200.0 <= Backoff(attempt, jitter) < 9600.0
  {
    DoubledGrows(BASE_DELAY, attempt, later);
    DoubledGrows(BASE_DELAY, 0, attempt);
  }

  /** A later wait is the longer one whatever the jitter, exactly until the delay has reached its cap. */
  lemma WaitsLengthenExactly(attempt: nat, later: nat)
    requires attempt < later
    ensures (forall a, b :: 0.0 <= a < 1.0 && 0.0 <= b < 1.0 ==> Backoff(attempt, a) < Backoff(later, b)) <==> Delay(attempt) < MAX_DELAY
  {
    BackoffIsBounded(attempt, later, 0.0);
    if Delay(attempt) < MAX_DELAY {
      DelayDoubles(attempt);
      BackoffIsBounded(attempt + 1, later, 0.0);
      forall a, b | 0.0 <= a < 1.0 && 0.0 <= b < 1.0 ensures Backoff(attempt, a) < Backoff(later, b) {
        Longer(Delay(attempt) as real, 0.8 + 0.4 * a, Delay(later) as real, 0.8 + 0.4 * b);
      }
    } else {
      assert Backoff(attempt, 0.5) >= Backoff(later, 0.0);
    }
  }

  lemma DelayDoubles(attempt: nat)
    requires Delay(attempt) < MAX_DELAY
    ensures Delay(attempt + 1) == 2 * Delay(attempt)
  {
    DoubledAgain(BASE_DELAY, attempt);
    assert Doubled(BASE_DELAY, 3) == 2000 && Doubled(BASE_DELAY, 4) == 4000 && Doubled(BASE_DELAY, 5) == MAX_DELAY;
    if attempt >= 5 {
      DoubledGrows(BASE_DELAY, 5, attempt);
    } else if attempt <= 3 {
      DoubledGrows(BASE_DELAY, attempt, 3);
    }
  }

  lemma {:induction false} DoubledAgain(delay: nat, n: nat)
    ensures Doubled(delay, n + 1) == 2 * Doubled(delay, n)
    decreases n
  {
    if n > 0 {
      DoubledAgain(2 * delay, n - 1);
    }
  }

  lemma Longer(d: real, scale: real, e: real, other: real)
    requires d > 0.0 && e >= 2.0 * d && scale < 1.2 && 0.8 <= other
    ensures Times(d, scale) < Times(e, other)
  {
    Positive(d, 1.2 - scale);
    NonNegative(e, other - 0.8);
    Apart(d, 1.2, scale);
    Apart(e, other, 0.8);
  }

  lemma Positive(a: real, b: real)
    requires a > 0.0 && b > 0.0
    ensures a * b > 0.0
  {
  }

  lemma Apart(a: real, b: real, c: real)
    ensures a * (b - c) == a * b - a * c
  {
  }

  lemma NonNegative(a: real, b: real)
    requires a >= 0.0 && b >= 0.0
    ensures a * b >= 0.0
  {
  }

  lemma Scaled(d: real, scale: real)
    requires 250.0 <= d <= 8000.0 && 0.8 <= scale < 1.2
    ensures 200.0 <= d * scale < 9600.0
  {
    NonNegative(d - 250.0, scale);
    NonNegative(8000.0 - d, scale);
    assert d * scale == 250.0 * scale + (d - 250.0) * scale;
    var short := (8000.0 - d) * scale;
    assert short >= 0.0;
    assert d * scale == 8000.0 * scale - short;
    assert 8000.0 * scale < 9600.0;
  }
}
