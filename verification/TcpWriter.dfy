/** Writing a fixed amount of data to a TCP socket that takes what it has room for
    (simulation/examples/socket/socket-bound-tcp-static-routing.cc). */
module TcpWriter {

  const TOTAL_TX_BYTES: nat := 20000
  const WRITE_SIZE: nat := 1040

  function Min(a: int, b: int): int { if a < b then a else b }

  // What the socket answers in one round of the loop: the room it has when the loop asks for it and
  // when the size is chosen, and how much it is willing to take, which is negative for an error.
  datatype Answer = Answer(room: nat, roomAgain: nat, willing: int)

  // Unfinished: the loop is still running after the answers given.
  datatype Ending = Closed | Blocked | Unfinished

  class TcpSocket {
    var accepted: seq<int>
    var closed: bool

    constructor ()
      ensures accepted == [] && !closed
    {
      accepted, closed := [], false;
    }

    method Send(data: seq<int>, offset: nat, size: nat, willing: int) returns (amountSent: int)
      requires offset + size <= |data|
      modifies this`accepted
      ensures amountSent == (if willing < 0 then -1 else Min(willing, size))
      ensures accepted == old(accepted) + if amountSent < 0 then [] else data[offset..offset + amountSent]
    {
      if willing < 0 {
        return -1;
      }
      amountSent := Min(willing, size);
      accepted := accepted + data[offset..offset + amountSent];
    }

    method Close()
      modifies this`closed
      ensures closed
    {
      closed := true;
    }
  }

  // ---------- the stream ----------

  // The bytes from one position to another of the data repeated over and over.
  ghost function Stream(data: seq<int>, from: nat, to: nat): (s: seq<int>)
    requires |data| == WRITE_SIZE && from <= to
    ensures |s| == to - from
  {
    seq(to - from, k requires 0 <= k < to - from => data[(from + k) % WRITE_SIZE])
  }

  lemma StreamJoins(data: seq<int>, a: nat, b: nat, c: nat)
    requires |data| == WRITE_SIZE && a <= b <= c
    ensures Stream(data, a, b) + Stream(data, b, c) == Stream(data, a, c)
  {
  }

  // Whatever the data, m bytes from another position are what comes after the first n bytes.
  ghost predicate KeepsToStream(n: nat, c: nat, m: nat) {
    forall data: seq<int> | |data| == WRITE_SIZE ::
      Stream(data, 0, n) + Stream(data, c, c + m) == Stream(data, 0, n + m)
  }

  // They are exactly if there are none, or both positions are at the same place in the data.
  lemma ContinuesIffSamePlace(n: nat, c: nat, m: nat)
    ensures KeepsToStream(n, c, m) <==> m == 0 || n % WRITE_SIZE == c % WRITE_SIZE
  {
    if m == 0 || n % WRITE_SIZE == c % WRITE_SIZE {
      forall data: seq<int> | |data| == WRITE_SIZE
        ensures Stream(data, 0, n) + Stream(data, c, c + m) == Stream(data, 0, n + m)
      {
        StreamJoins(data, 0, n, n + m);
        SamePlace(data, n, c, m);
      }
    } else {
      var data := seq(WRITE_SIZE, k => k);
      var all := Stream(data, 0, n) + Stream(data, c, c + m);
      assert all[n] == c % WRITE_SIZE && Stream(data, 0, n + m)[n] == n % WRITE_SIZE;
    }
  }

  // With the same byte everywhere, as in a buffer that is never filled, there is no difference to see.
  lemma SameBytesKeepStream(b: int, n: nat, c: nat, m: nat)
    ensures var data := seq(WRITE_SIZE, _ => b);
      Stream(data, 0, n) + Stream(data, c, c + m) == Stream(data, 0, n + m)
  {
  }

  lemma SamePlace(data: seq<int>, n: nat, c: nat, m: nat)
    requires |data| == WRITE_SIZE && (m == 0 || n % WRITE_SIZE == c % WRITE_SIZE)
    ensures Stream(data, n, n + m) == Stream(data, c, c + m)
  {
    var a, b := Stream(data, n, n + m), Stream(data, c, c + m);
    forall k | 0 <= k < m
      ensures a[k] == b[k]
    {
      SamePlaceLater(n, c, k);
    }
  }

  lemma SamePlaceLater(n: nat, c: nat, k: nat)
    requires n % WRITE_SIZE == c % WRITE_SIZE
    ensures (n + k) % WRITE_SIZE == (c + k) % WRITE_SIZE
  {
    assert n + k == WRITE_SIZE * (n / WRITE_SIZE - c / WRITE_SIZE + (c + k) / WRITE_SIZE) + (c + k) % WRITE_SIZE;
  }

  // A slice that does not reach over the end of the data is a piece of the stream.
  lemma SliceOfStream(data: seq<int>, from: nat, n: nat)
    requires |data| == WRITE_SIZE && from % WRITE_SIZE + n <= WRITE_SIZE
    ensures data[from % WRITE_SIZE..from % WRITE_SIZE + n] == Stream(data, from, from + n)
  {
    var offset := from % WRITE_SIZE;
    var slice := data[offset..offset + n];
    forall k | 0 <= k < n
      ensures slice[k] == Stream(data, from, from + n)[k]
    {
      assert from + k == from / WRITE_SIZE * WRITE_SIZE + (offset + k);
      assert (from + k) % WRITE_SIZE == offset + k;
    }
  }

  // ---------- the loop on numbers ----------

  // What is offered stays within the data, the total and the room found, and reaches one of them.
  function ToWrite(current: nat, room: nat): (n: nat)
    requires current < TOTAL_TX_BYTES
    ensures n <= TOTAL_TX_BYTES - current && current % WRITE_SIZE + n <= WRITE_SIZE && n <= room
    ensures n == TOTAL_TX_BYTES - current || current % WRITE_SIZE + n == WRITE_SIZE || n == room
  {
    Min(Min(WRITE_SIZE - current % WRITE_SIZE, TOTAL_TX_BYTES - current), room)
  }

  // What the socket takes in a round that it does not refuse.
  function Taken(current: nat, a: Answer): (n: nat)
    requires current < TOTAL_TX_BYTES && a.willing >= 0
    ensures n <= TOTAL_TX_BYTES - current
  {
    Min(a.willing, ToWrite(current, a.roomAgain))
  }

  function Run(current: nat, answers: seq<Answer>): (nat, Ending)
    decreases |answers|
  {
    if current >= TOTAL_TX_BYTES then (current, Closed)
    else if answers == [] then (current, Unfinished)
    else if answers[0].room == 0 then (current, Closed)
    else if answers[0].willing < 0 then (current, Blocked)
    else Run(current + Taken(current, answers[0]), answers[1..])
  }

  // What one round of the loop makes of the answers that are left.
  lemma Round(current: nat, answers: seq<Answer>, round: nat)
    requires round <= |answers|
    ensures Run(current, answers[round..]) ==
      if current >= TOTAL_TX_BYTES then (current, Closed)
      else if round == |answers| then (current, Unfinished)
      else if answers[round].room == 0 then (current, Closed)
      else if answers[round].willing < 0 then (current, Blocked)
      else Run(current + Taken(current, answers[round]), answers[round + 1..])
  {
    if round < |answers| {
      assert answers[round..][1..] == answers[round + 1..];
    }
  }

  // The bytes counted after some calls of the callback.
  function AfterCallbacks(current: nat, callbacks: seq<seq<Answer>>): nat {
    if callbacks == [] then current else
      Run(AfterCallbacks(current, callbacks[..|callbacks| - 1]), callbacks[|callbacks| - 1]).0
  }

  // In this round the socket has room and takes something.
  predicate Takes(a: Answer) { a.room > 0 && a.roomAgain > 0 && a.willing > 0 }

  // In this round the loop neither ends nor is blocked by the socket.
  predicate GoesOn(a: Answer) { a.room > 0 && a.willing >= 0 }

  lemma {:induction false} NeverTooMuch(current: nat, answers: seq<Answer>)
    requires current <= TOTAL_TX_BYTES
    ensures current <= Run(current, answers).0 <= TOTAL_TX_BYTES
    decreases |answers|
  {
    if current < TOTAL_TX_BYTES && answers != [] && GoesOn(answers[0]) {
      NeverTooMuch(current + Taken(current, answers[0]), answers[1..]);
    }
  }

  // The bytes counted after j rounds that the loop goes on after.
  function CountAfter(current: nat, answers: seq<Answer>, j: nat): nat
    requires j <= |answers| && forall i :: 0 <= i < j ==> GoesOn(answers[i])
    decreases j
  {
    if j == 0 || current >= TOTAL_TX_BYTES then current else
      assert GoesOn(answers[0]);
      CountAfter(current + Taken(current, answers[0]), answers[1..], j - 1)
  }

  // The loop goes on after the first rounds, not all is written by then, and the buffer is full.
  ghost predicate FullAt(current: nat, answers: seq<Answer>, j: int) {
    && 0 <= j < |answers| && answers[j].room == 0
    && (forall i :: 0 <= i < j ==> GoesOn(answers[i]))
    && CountAfter(current, answers, j) < TOTAL_TX_BYTES
  }

  // The socket is closed too early exactly when its buffer is found full before all is written.
  lemma {:induction false} ClosedEarlyIffFull(current: nat, answers: seq<Answer>)
    requires current <= TOTAL_TX_BYTES
    ensures Run(current, answers).1.Closed? && Run(current, answers).0 < TOTAL_TX_BYTES <==>
      exists j :: FullAt(current, answers, j)
    decreases |answers|
  {
    if current < TOTAL_TX_BYTES && answers != [] {
      if GoesOn(answers[0]) {
        var next := current + Taken(current, answers[0]);
        ClosedEarlyIffFull(next, answers[1..]);
        forall j | 0 < j
          ensures FullAt(current, answers, j) <==> FullAt(next, answers[1..], j - 1)
        {
          FullLater(current, answers, j);
        }
        if j :| FullAt(next, answers[1..], j) {
          assert FullAt(current, answers, j + 1);
        }
      } else if answers[0].room == 0 {
        assert FullAt(current, answers, 0);
      }
    }
  }

  lemma FullLater(current: nat, answers: seq<Answer>, j: nat)
    requires current < TOTAL_TX_BYTES && answers != [] && GoesOn(answers[0]) && j > 0
    ensures FullAt(current, answers, j) <==> FullAt(current + Taken(current, answers[0]), answers[1..], j - 1)
  {
    var rest := answers[1..];
    assert forall i :: 0 <= i < |rest| ==> rest[i] == answers[i + 1];
    if j < |answers| && forall i :: 0 <= i < j - 1 ==> GoesOn(rest[i]) {
      assert forall i :: 0 <= i < j ==> i == 0 || answers[i] == rest[i - 1];
    }
    hide Taken;
  }

  // A socket that takes something each time gets everything, and is closed then.
  lemma {:induction false} AllWritten(current: nat, answers: seq<Answer>)
    requires current <= TOTAL_TX_BYTES && TOTAL_TX_BYTES - current <= |answers|
    requires forall a :: a in answers ==> Takes(a)
    ensures Run(current, answers) == (TOTAL_TX_BYTES, Closed)
    decreases |answers|
  {
    if current < TOTAL_TX_BYTES {
      assert answers[0] in answers && forall a :: a in answers[1..] ==> a in answers;
      AllWritten(current + Taken(current, answers[0]), answers[1..]);
    }
  }

  // In this round the socket has room for all the data, and takes what it is offered.
  predicate TakesAll(a: Answer) { a.room > 0 && a.roomAgain >= WRITE_SIZE && a.willing >= WRITE_SIZE }

  // Such a round goes on to the end of the data or to the total, whichever comes first.
  lemma RoundToEnd(current: nat, answers: seq<Answer>)
    requires current < TOTAL_TX_BYTES && answers != [] && TakesAll(answers[0])
    ensures var end := (current / WRITE_SIZE + 1) * WRITE_SIZE;
      Run(current, answers) == Run(if end < TOTAL_TX_BYTES then end else TOTAL_TX_BYTES, answers[1..])
  {
    assert current == current / WRITE_SIZE * WRITE_SIZE + current % WRITE_SIZE;
  }

  // With such rounds only, as many are enough as the data fits into the total, the last time partly.
  lemma {:induction false} WrittenInRounds(k: nat, answers: seq<Answer>)
    requires k * WRITE_SIZE < TOTAL_TX_BYTES + WRITE_SIZE && (|answers| + k) * WRITE_SIZE >= TOTAL_TX_BYTES
    requires forall a :: a in answers ==> TakesAll(a)
    ensures Run(Min(k * WRITE_SIZE, TOTAL_TX_BYTES), answers) == (TOTAL_TX_BYTES, Closed)
    decreases |answers|
  {
    var current := k * WRITE_SIZE;
    if current < TOTAL_TX_BYTES {
      assert answers != [] && answers[0] in answers && forall a :: a in answers[1..] ==> a in answers;
      RoundToEnd(current, answers);
      assert current / WRITE_SIZE == k;
      WrittenInRounds(k + 1, answers[1..]);
    }
  }

  // From the start 20 of them are enough, and 19 are not.
  lemma TwentyRounds(answers: seq<Answer>)
    requires forall a :: a in answers ==> TakesAll(a)
    ensures Run(0, answers) == (TOTAL_TX_BYTES, Closed) <==> |answers| >= 20
  {
    if |answers| >= 20 {
      WrittenInRounds(0, answers);
    } else {
      FewRounds(0, answers);
    }
  }

  lemma {:induction false} FewRounds(k: nat, answers: seq<Answer>)
    requires (|answers| + k) * WRITE_SIZE < TOTAL_TX_BYTES && forall a :: a in answers ==> TakesAll(a)
    ensures Run(k * WRITE_SIZE, answers) == ((|answers| + k) * WRITE_SIZE, Unfinished)
    decreases |answers|
  {
    if answers != [] {
      assert answers[0] in answers && forall a :: a in answers[1..] ==> a in answers;
      RoundToEnd(k * WRITE_SIZE, answers);
      assert k * WRITE_SIZE / WRITE_SIZE == k;
      FewRounds(k + 1, answers[1..]);
    }
  }

  // The socket refuses what it is offered after rounds that the loop goes on after.
  ghost predicate RefusedAt(current: nat, answers: seq<Answer>, j: int) {
    && 0 <= j < |answers| && answers[j].room > 0 && answers[j].willing < 0
    && (forall i :: 0 <= i < j ==> GoesOn(answers[i]))
    && CountAfter(current, answers, j) < TOTAL_TX_BYTES
  }

  // The loop is blocked exactly when the socket refuses, and still running exactly when it goes on
  // after all rounds and not all is written.
  lemma {:induction false} EndingIff(current: nat, answers: seq<Answer>)
    requires current <= TOTAL_TX_BYTES
    ensures Run(current, answers).1.Blocked? <==> exists j :: RefusedAt(current, answers, j)
    ensures Run(current, answers).1.Unfinished? <==>
      && (forall i :: 0 <= i < |answers| ==> GoesOn(answers[i]))
      && CountAfter(current, answers, |answers|) < TOTAL_TX_BYTES
    decreases |answers|
  {
    if current < TOTAL_TX_BYTES && answers != [] {
      if GoesOn(answers[0]) {
        var next, rest := current + Taken(current, answers[0]), answers[1..];
        EndingIff(next, rest);
        assert forall i :: 0 <= i < |rest| ==> rest[i] == answers[i + 1];
        forall j | 0 < j
          ensures RefusedAt(current, answers, j) <==> RefusedAt(next, rest, j - 1)
        {
          RefusedLater(current, answers, j);
        }
        if j :| RefusedAt(next, rest, j) {
          assert RefusedAt(current, answers, j + 1);
        }
        AllGoOn(answers);
      } else if answers[0].willing < 0 && answers[0].room > 0 {
        assert RefusedAt(current, answers, 0);
      }
    }
  }

  lemma AllGoOn(answers: seq<Answer>)
    requires answers != [] && GoesOn(answers[0])
    ensures (forall i :: 0 <= i < |answers| ==> GoesOn(answers[i])) <==>
      (forall i :: 0 <= i < |answers[1..]| ==> GoesOn(answers[1..][i]))
  {
    var rest := answers[1..];
    assert forall i :: 0 < i < |answers| ==> answers[i] == rest[i - 1];
  }

  lemma RefusedLater(current: nat, answers: seq<Answer>, j: nat)
    requires current < TOTAL_TX_BYTES && answers != [] && GoesOn(answers[0]) && j > 0
    ensures RefusedAt(current, answers, j) <==> RefusedAt(current + Taken(current, answers[0]), answers[1..], j - 1)
  {
    var rest := answers[1..];
    assert forall i :: 0 <= i < |rest| ==> rest[i] == answers[i + 1];
    if j < |answers| && forall i :: 0 <= i < j - 1 ==> GoesOn(rest[i]) {
      assert forall i :: 0 <= i < j ==> i == 0 || answers[i] == rest[i - 1];
    }
    hide Taken;
  }

  // In this round the socket has room, but takes nothing and refuses nothing.
  predicate TakesNothing(a: Answer) { a.room > 0 && (a.willing == 0 || (a.willing > 0 && a.roomAgain == 0)) }

  // A socket that has room but takes nothing keeps the loop running, however often it is asked.
  lemma {:induction false} NothingTakenNoEnd(current: nat, answers: seq<Answer>)
    requires current < TOTAL_TX_BYTES && forall a :: a in answers ==> TakesNothing(a)
    ensures Run(current, answers) == (current, Unfinished)
  {
    if answers != [] {
      assert answers[0] in answers && forall a :: a in answers[1..] ==> a in answers;
      NothingTakenNoEnd(current, answers[1..]);
    }
  }

  // The buffer is found full before the socket has taken anything.
  ghost predicate FullBeforeAny(answers: seq<Answer>) {
    answers != [] && (answers[0].room == 0 || (TakesNothing(answers[0]) && FullBeforeAny(answers[1..])))
  }

  // The socket is closed with nothing written exactly if its buffer is found full before that.
  lemma {:induction false} ClosedWithNothingWritten(answers: seq<Answer>)
    ensures Run(0, answers) == (0, Closed) <==> FullBeforeAny(answers)
  {
    if answers != [] && GoesOn(answers[0]) {
      var n := Taken(0, answers[0]);
      if n == 0 {
        ClosedWithNothingWritten(answers[1..]);
      } else {
        NeverTooMuch(n, answers[1..]);
      }
    }
  }

  // ---------- the program ----------

  class Program {
    const data: seq<int>
    var currentTxBytes: nat

    ghost predicate Valid()
      reads this
    {
      |data| == WRITE_SIZE && currentTxBytes <= TOTAL_TX_BYTES
    }

    constructor (data: seq<int>)
      requires |data| == WRITE_SIZE
      ensures Valid() && currentTxBytes == 0 && this.data == data
    {
      this.data := data;
      currentTxBytes := 0;
    }

    // What this socket has taken is the stream up to the bytes counted.
    ghost predicate InStep(socket: TcpSocket)
      requires Valid()
      reads this, socket
    {
      socket.accepted == Stream(data, 0, currentTxBytes)
    }

    method WriteUntilBufferFull(socket: TcpSocket, answers: seq<Answer>) returns (ending: Ending)
      requires Valid()
      modifies this`currentTxBytes, socket
      ensures Valid() && old(currentTxBytes) <= currentTxBytes
      ensures (currentTxBytes, ending) == Run(old(currentTxBytes), answers)
      ensures socket.accepted == old(socket.accepted) + Stream(data, old(currentTxBytes), currentTxBytes)
      ensures socket.closed == (old(socket.closed) || ending.Closed?)
      ensures old(InStep(socket)) ==> InStep(socket)
    {
      hide Stream, Run;
      assert answers[0..] == answers;
      var round := 0;
      ghost var start := currentTxBytes;
      while true
        invariant Valid() && start <= currentTxBytes && round <= |answers|
        invariant Run(start, answers) == Run(currentTxBytes, answers[round..])
        invariant socket.accepted == old(socket.accepted) + Stream(data, start, currentTxBytes)
        invariant socket.closed == old(socket.closed)
        decreases |answers| - round
      {
        Round(currentTxBytes, answers, round);
        if currentTxBytes >= TOTAL_TX_BYTES {
          break;
        }
        if round == |answers| {
          StreamJoins(data, 0, start, currentTxBytes);
          return Unfinished;
        }
        var answer := answers[round];
        if answer.room == 0 {
          break;
        }
        var left := TOTAL_TX_BYTES - currentTxBytes;
        var dataOffset := currentTxBytes % WRITE_SIZE;
        var toWrite := WRITE_SIZE - dataOffset;
        toWrite := Min(toWrite, left);
        toWrite := Min(toWrite, answer.roomAgain);
        var amountSent := socket.Send(data, dataOffset, toWrite, answer.willing);
        if amountSent < 0 {
          StreamJoins(data, 0, start, currentTxBytes);
          return Blocked;
        }
        SliceOfStream(data, currentTxBytes, amountSent);
        StreamJoins(data, start, currentTxBytes, currentTxBytes + amountSent);
        currentTxBytes := currentTxBytes + amountSent;
        round := round + 1;
      }
      StreamJoins(data, 0, start, currentTxBytes);
      socket.Close();
      ending := Closed;
    }

    // The bytes are counted from the start again.
    method StartFlow(socket: TcpSocket, answers: seq<Answer>) returns (ending: Ending)
      requires Valid()
      modifies this`currentTxBytes, socket
      ensures Valid() && (currentTxBytes, ending) == Run(0, answers)
      ensures socket.accepted == old(socket.accepted) + Stream(data, 0, currentTxBytes)
      ensures socket.closed == (old(socket.closed) || ending.Closed?)
      ensures old(socket.accepted) == [] ==> InStep(socket)
    {
      currentTxBytes := 0;
      ending := WriteUntilBufferFull(socket, answers);
    }

    // A whole flow: its start, then one call each time the socket has room again.
    method WholeFlow(socket: TcpSocket, first: seq<Answer>, callbacks: seq<seq<Answer>>)
      requires Valid() && socket.accepted == []
      modifies this`currentTxBytes, socket
      ensures Valid() && InStep(socket)
      ensures currentTxBytes == AfterCallbacks(Run(0, first).0, callbacks)
    {
      var _ := StartFlow(socket, first);
      for i := 0 to |callbacks|
        invariant Valid() && InStep(socket)
        invariant currentTxBytes == AfterCallbacks(Run(0, first).0, callbacks[..i])
      {
        assert callbacks[..i + 1][..i] == callbacks[..i];
        var _ := WriteUntilBufferFull(socket, callbacks[i]);
      }
      assert callbacks[..|callbacks|] == callbacks;
    }

    // The count is shared: a second flow sets it back, and the first socket is then served from where
    // the second flow has come to. That keeps to the first stream, whatever the data, exactly if
    // nothing is added or the two flows have come to the same place in the data; and as much has been
    // taken as is counted exactly if both flows have come equally far.
    method SecondFlowBetween(s1: TcpSocket, s2: TcpSocket, first: seq<Answer>, second: seq<Answer>, again: seq<Answer>)
      requires Valid() && s1 != s2 && s1.accepted == [] && s2.accepted == []
      modifies this`currentTxBytes, s1, s2
      ensures Valid()
      ensures var n, c := Run(0, first).0, Run(0, second).0;
        && currentTxBytes == Run(c, again).0
        && c <= currentTxBytes
        && s2.accepted == Stream(data, 0, c)
        && s1.accepted == Stream(data, 0, n) + Stream(data, c, currentTxBytes)
        && |s1.accepted| == n + currentTxBytes - c
        && (|s1.accepted| == currentTxBytes <==> n == c)
        && (KeepsToStream(n, c, currentTxBytes - c) <==> currentTxBytes == c || n % WRITE_SIZE == c % WRITE_SIZE)
    {
      var _ := StartFlow(s1, first);
      assert s1.accepted == Stream(data, 0, currentTxBytes);
      ghost var n := currentTxBytes;
      var _ := StartFlow(s2, second);
      assert s2.accepted == Stream(data, 0, currentTxBytes) && s1.accepted == Stream(data, 0, n);
      ghost var c := currentTxBytes;
      hide *;
      var _ := WriteUntilBufferFull(s1, again);
      ContinuesIffSamePlace(n, c, currentTxBytes - c);
    }

    // The first socket takes a byte and is full when the second flow starts, which finds its buffer
    // full at once. When the first socket has room again, it is given its first byte once more.
    method FirstByteAgain(s1: TcpSocket, s2: TcpSocket, takes: Answer, full: Answer)
      requires Valid() && s1 != s2 && s1.accepted == [] && s2.accepted == []
      requires full.room == 0 && takes.room > 0 && takes.roomAgain == 1 && takes.willing >= 1
      modifies this`currentTxBytes, s1, s2
      ensures Valid() && s1.accepted == [data[0], data[0]] && s2.accepted == [] && currentTxBytes == 1
    {
      OneByte(takes, full);
      SecondFlowBetween(s1, s2, [takes, full], [full], [takes]);
      hide Run;
      assert Stream(data, 0, 1) == [data[0]];
    }
  }

  lemma OneByte(takes: Answer, full: Answer)
    requires full.room == 0 && takes.room > 0 && takes.roomAgain == 1 && takes.willing >= 1
    ensures Run(0, [takes, full]) == (1, Closed) && Run(0, [full]) == (0, Closed) && Run(0, [takes]) == (1, Unfinished)
  {
    assert [takes, full][1..] == [full] && [takes][1..] == [];
    assert Run(1, [full]) == (1, Closed);
  }
}
