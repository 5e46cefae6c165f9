/**
  The partial-I/O loops of utils.c against every answer a kernel may give: short counts, zero,
  interruption, failure, in any order.
*/
module SocketIO {
  import opened Options
  import opened CStrings

  /** How the next read() or write() comes out: so many bytes, EINTR, or another error. */
  datatype Reply = Count(n: nat) | Interrupted | Failed

  /** How a loop ends: with a result, or still blocked in a call the kernel has not answered. */
  datatype Outcome = Ended(result: int, moved: nat) | Waiting(moved: nat)

  function Min(a: nat, b: nat): nat { if a < b then a else b }

  /** The loop for `count` bytes, of which `moved` are done, given the kernel's further replies. */
  function Transfer(replies: seq<Reply>, count: nat, moved: nat): Outcome
    decreases |replies|
  {
    if moved >= count then Ended(moved, moved)
    else if replies == [] then Waiting(moved)
    else
      match replies[0]
      case Count(n) =>
        if n == 0 then Ended(moved, moved)
        else Transfer(replies[1..], count, moved + Min(n, count - moved))
      case Interrupted => Transfer(replies[1..], count, moved)
      case Failed => Ended(-1, moved)
  }

  /** A connected socket: the replies to come, what was written to it, and the peer's byte stream. */
  class Socket {
    var replies: seq<Reply>
    var sent: seq<Byte>
    var received: nat
    const stream: nat -> Byte

    constructor (replies: seq<Reply>, stream: nat -> Byte)
      ensures this.replies == replies && sent == [] && received == 0 && this.stream == stream
    {
      this.replies := replies;
      this.sent := [];
      this.received := 0;
      this.stream := stream;
    }

    /** write(2): takes some prefix of the data. */
    method Write(data: seq<Byte>) returns (returnValue: int, interrupted: bool)
      requires replies != []
      modifies this`replies, this`sent
      ensures replies == old(replies)[1..]
      ensures match old(replies)[0]
              case Count(n) => returnValue == Min(n, |data|) && sent == old(sent) + data[..returnValue]
              case Interrupted => returnValue == -1 && interrupted && sent == old(sent)
              case Failed => returnValue == -1 && !interrupted && sent == old(sent)
    {
      var reply := replies[0];
      replies := replies[1..];
      interrupted := reply.Interrupted?;
      returnValue := -1;
      if reply.Count? {
        returnValue := Min(reply.n, |data|);
        sent := sent + data[..returnValue];
      }
    }

    /** read(2): puts some next bytes of the stream at `at` in the buffer. */
    method Read(buffer: array<Byte>, at: nat, count: nat) returns (returnValue: int, interrupted: bool)
      requires replies != [] && at + count <= buffer.Length
      modifies this`replies, this`received, buffer
      ensures replies == old(replies)[1..]
      ensures match old(replies)[0]
              case Count(n) =>
                && returnValue == Min(n, count) && received == old(received) + returnValue
                && (forall j: nat | at <= j < at + returnValue :: buffer[j] == stream(old(received) + j - at))
                && (forall j: nat | j < at || at + returnValue <= j < buffer.Length :: buffer[j] == old(buffer[j]))
              case Interrupted => returnValue == -1 && interrupted && received == old(received) && buffer[..] == old(buffer[..])
              case Failed => returnValue == -1 && !interrupted && received == old(received) && buffer[..] == old(buffer[..])
    {
      var reply := replies[0];
      replies := replies[1..];
      interrupted := reply.Interrupted?;
      returnValue := -1;
      if reply.Count? {
        var n := Min(reply.n, count);
        returnValue := n;
        for i := 0 to n
          invariant received == old(received) && replies == old(replies)[1..]
          invariant forall j: nat | at <= j < at + i :: buffer[j] == stream(received + j - at)
          invariant forall j: nat | j < at || at + i <= j < buffer.Length :: buffer[j] == old(buffer[j])
        {
          buffer[at + i] := stream(received + i);
        }
        received := received + n;
      }
    }
  }

  /**
    `write_all_to_socket`: what it sends is the front of the buffer, in order and without gaps;
    None while the kernel has not answered.
  */
  method WriteAll(socket: Socket, buffer: seq<Byte>, count: nat) returns (result: Option<int>)
    requires count <= |buffer|
    modifies socket`replies, socket`sent
    ensures var outcome := Transfer(old(socket.replies), count, 0);
            && outcome.moved <= count
            && socket.sent == old(socket.sent) + buffer[..outcome.moved]
            && result == if outcome.Ended? then Some(outcome.result) else None
  {
    var attempt: nat := 0;
    TransferMeaning(socket.replies, count, 0);
    while attempt < count
      invariant attempt <= count
      invariant Transfer(socket.replies, count, attempt) == Transfer(old(socket.replies), count, 0)
      invariant socket.sent == old(socket.sent) + buffer[..attempt]
      decreases |socket.replies|
    {
      if socket.replies == [] {
        return None;
      }
      var returnValue, interrupted := socket.Write(buffer[attempt..count]);
      if returnValue == 0 {
        break;
      } else if returnValue == -1 {
        if interrupted {
          continue;
        } else {
          return Some(-1);
        }
      }
      assert buffer[..attempt] + buffer[attempt..count][..returnValue] == buffer[..attempt + returnValue];
      attempt := attempt + returnValue;
    }
    return Some(attempt);
  }

  /** `read_all_from_socket`: the front of the buffer takes the next bytes of the stream, in order and without gaps. */
  method ReadAll(socket: Socket, buffer: array<Byte>, count: nat) returns (result: Option<int>)
    requires count <= buffer.Length
    modifies socket`replies, socket`received, buffer
    ensures var outcome := Transfer(old(socket.replies), count, 0);
            && outcome.moved <= count
            && socket.received == old(socket.received) + outcome.moved
            && (forall j: nat | j < outcome.moved :: buffer[j] == socket.stream(old(socket.received) + j))
            && (forall j: nat | outcome.moved <= j < buffer.Length :: buffer[j] == old(buffer[j]))
            && result == if outcome.Ended? then Some(outcome.result) else None
  {
    var amountRead: nat := 0;
    TransferMeaning(socket.replies, count, 0);
    while amountRead < count
      invariant amountRead <= count
      invariant Transfer(socket.replies, count, amountRead) == Transfer(old(socket.replies), count, 0)
      invariant socket.received == old(socket.received) + amountRead
      invariant forall j: nat | j < amountRead :: buffer[j] == socket.stream(old(socket.received) + j)
      invariant forall j: nat | amountRead <= j < buffer.Length :: buffer[j] == old(buffer[j])
      decreases |socket.replies|
    {
      if socket.replies == [] {
        return None;
      }
      var bytesRead, interrupted := socket.Read(buffer, amountRead, count - amountRead);
      if bytesRead < 0 {
        if interrupted {
          continue;
        } else {
          return Some(-1);
        }
      }
      if bytesRead == 0 {
        break;
      }
      amountRead := amountRead + bytesRead;
    }
    return Some(amountRead);
  }

  /** A non-negative result counts the bytes moved; it is short only behind a zero, and -1 only behind a failure. */
  lemma {:induction false} TransferMeaning(replies: seq<Reply>, count: nat, moved: nat)
    requires moved <= count
    ensures var outcome := Transfer(replies, count, moved);
            && moved <= outcome.moved <= count
            && (outcome.Ended? ==> outcome.result == outcome.moved || (outcome.result == -1 && Failed in replies))
            && (outcome.Ended? && 0 <= outcome.result < count ==> Count(0) in replies)
            && (outcome.Waiting? ==> outcome.moved < count && Failed !in replies && Count(0) !in replies)
    decreases |replies|
  {
    if moved < count && replies != [] && replies[0] != Count(0) && replies[0] != Failed {
      var next := if replies[0].Count? then moved + Min(replies[0].n, count - moved) else moved;
      TransferMeaning(replies[1..], count, next);
      assert replies == [replies[0]] + replies[1..];
    }
  }

  /** The replies without interruptions. */
  function Steady(replies: seq<Reply>): seq<Reply> {
    if replies == [] then []
    else (if replies[0].Interrupted? then [] else [replies[0]]) + Steady(replies[1..])
  }

  /** Interruptions make no difference. */
  lemma {:induction false} InterruptionsAreInvisible(replies: seq<Reply>, count: nat, moved: nat)
    ensures Transfer(Steady(replies), count, moved) == Transfer(replies, count, moved)
    decreases |replies|
  {
    if moved < count && replies != [] {
      var rest := Steady(replies[1..]);
      match replies[0]
      case Interrupted =>
        assert Steady(replies) == rest;
        InterruptionsAreInvisible(replies[1..], count, moved);
      case Failed =>
        assert Steady(replies)[0] == Failed;
      case Count(n) =>
        assert Steady(replies)[0] == Count(n) && Steady(replies)[1..] == rest;
        InterruptionsAreInvisible(replies[1..], count, moved + Min(n, count - moved));
    }
  }

  function Sum(replies: seq<Reply>): nat {
    if replies == [] then 0 else (if replies[0].Count? then replies[0].n else 0) + Sum(replies[1..])
  }

  /** How many replies come before the first zero or failure. */
  function Stop(replies: seq<Reply>): (k: nat)
    ensures k <= |replies|
  {
    if replies == [] || replies[0] == Count(0) || replies[0] == Failed then 0 else 1 + Stop(replies[1..])
  }

  /**
    The loops in closed form. Only the sum of the counts before the first zero or failure matters,
    not how it was portioned out; if it falls short, that reply decides the result.
  */
  lemma {:induction false} OnlyTheSumCounts(replies: seq<Reply>, count: nat, moved: nat)
    requires moved <= count
    ensures var k := Stop(replies);
            var total := moved + Sum(replies[..k]);
            Transfer(replies, count, moved) ==
              if total >= count then Ended(count, count)
              else if k == |replies| then Waiting(total)
              else Ended(if replies[k].Failed? then -1 else total, total)
    decreases |replies|
  {
    var k := Stop(replies);
    if k > 0 {
      assert replies[..k][0] == replies[0] && replies[..k][1..] == replies[1..][..k - 1];
      var next := if replies[0].Count? then moved + Min(replies[0].n, count - moved) else moved;
      OnlyTheSumCounts(replies[1..], count, next);
    }
  }
}
