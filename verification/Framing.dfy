/** Messages with a length header between gateway, relay and kernel
    (sandbox_runtime/kernel_server.py, sandbox_runtime/kernel_relay.py, app/executor.py). */
module Framing {
  import opened Basics

  type Byte = b: int | 0 <= b < 256

  const LIMIT: int := 0x1_0000_0000

  const MAX_MESSAGE: int := 100 * 1024 * 1024

  // ---------- The header ----------

  /** Four bytes, most significant first. */
  function Header(n: nat): (r: seq<Byte>)
    requires n < LIMIT
    ensures |r| == 4
  {
    [n / 0x100_0000, n / 0x1_0000 % 256, n / 256 % 256, n % 256]
  }

  function Length(h: seq<Byte>): (r: nat)
    requires |h| == 4
    ensures r < LIMIT
  {
    h[0] as int * 0x100_0000 + h[1] as int * 0x1_0000 + h[2] as int * 256 + h[3] as int
  }

  lemma HeaderRoundTrip(n: nat)
    requires n < LIMIT
    ensures Length(Header(n)) == n
  {
    assert n / 0x1_0000 == n / 256 / 256;
    assert n / 0x100_0000 == n / 0x1_0000 / 256;
  }

  function Frame(payload: seq<Byte>): seq<Byte>
    requires |payload| < LIMIT
  {
    Header(|payload|) + payload
  }

  // ---------- Reading, as functions of all the bytes that arrive ----------

  /** The exact read of a client: the body, or an error when the connection ends early. */
  function Unframe(input: seq<Byte>): Option<seq<Byte>> {
    if |input| < 4 then None
    else
      var n := Length(input[..4]);
      if |input| < 4 + n then None else Some(input[4..4 + n])
  }

  /** What the kernel makes of a connection: it hangs up without a word, complains, or serves. */
  datatype Received = HangUp | TooLarge | Request(body: seq<Byte>)

  function Receive(input: seq<Byte>): Received {
    if |input| < 4 then HangUp
    else
      var n := Length(input[..4]);
      if n > MAX_MESSAGE then TooLarge
      else if |input| < 4 + n || n == 0 then HangUp
      else Request(input[4..4 + n])
  }

  /** What the parent takes out of everything its child wrote into the pipe. */
  function FromPipe(raw: seq<Byte>): Option<seq<Byte>> {
    if |raw| < 4 then None else Some(raw[4..Min(4 + Length(raw[..4]), |raw|)])
  }

  lemma FrameParts(payload: seq<Byte>, rest: seq<Byte>)
    requires |payload| < LIMIT
    ensures var input := Frame(payload) + rest;
            && |input| >= 4 + |payload|
            && Length(input[..4]) == |payload|
            && input[4..4 + |payload|] == payload
  {
    var input := Frame(payload) + rest;
    assert input[..4] == Header(|payload|);
    HeaderRoundTrip(|payload|);
  }

  /** Whatever follows it, a framed message is read back exactly by the clients and the parent. */
  lemma FrameRoundTrip(payload: seq<Byte>, rest: seq<Byte>)
    requires |payload| < LIMIT
    ensures Unframe(Frame(payload) + rest) == Some(payload)
    ensures FromPipe(Frame(payload) + rest) == Some(payload)
  {
    FrameParts(payload, rest);
  }

  /** The kernel serves exactly the requests that are neither empty nor too large. */
  lemma ServedExactly(payload: seq<Byte>, rest: seq<Byte>)
    requires |payload| < LIMIT
    ensures Receive(Frame(payload) + rest) == Request(payload) <==> 0 < |payload| <= 100 * 1024 * 1024
    ensures Receive(Frame(payload) + rest).TooLarge? <==> |payload| > 100 * 1024 * 1024
    ensures Receive(Frame(payload) + rest).HangUp? <==> payload == []
  {
    FrameParts(payload, rest);
  }

  /** A connection or a pipe that ends inside a message: nobody serves it or takes it for
      complete, and the parent gets a proper part of it at most. */
  lemma CutShort(payload: seq<Byte>, n: nat)
    requires |payload| < LIMIT && n < 4 + |payload|
    ensures Unframe(Frame(payload)[..n]).None?
    ensures Receive(Frame(payload)[..n]) == if n >= 4 && |payload| > 100 * 1024 * 1024 then TooLarge else HangUp
    ensures FromPipe(Frame(payload)[..n]) == if n < 4 then None else Some(payload[..n - 4])
  {
    FrameParts(payload, []);
    var input := Frame(payload)[..n];
    assert Frame(payload) + [] == Frame(payload);
    if n >= 4 {
      assert input[..4] == Frame(payload)[..4];
      assert Min(4 + |payload|, n) == n;
      assert input[4..n] == payload[..n - 4];
    }
  }

  // ---------- The transport ----------

  /** One direction of a socket or a pipe: the bytes still to be received before the end. */
  class Channel {
    var pending: seq<Byte>

    constructor (pending: seq<Byte>)
      ensures this.pending == pending
    {
      this.pending := pending;
    }

    /** Some of the next bytes, as the transport cuts them; nothing only at the end. */
    method Recv(n: nat) returns (chunk: seq<Byte>)
      modifies this
      ensures chunk + pending == old(pending) && |chunk| <= n
      ensures n > 0 && old(pending) != [] ==> chunk != []
    {
      var most := Min(n, |pending|);
      var k: int :| 0 <= k <= most && (most > 0 ==> k > 0);
      chunk := pending[..k];
      pending := pending[k..];
    }

    /** Takes some of the data, all of it when it is short. */
    method Write(data: seq<Byte>) returns (n: nat)
      modifies this
      ensures n <= |data| && pending == old(pending) + data[..n]
      ensures data != [] ==> n > 0
      ensures |data| <= 4096 ==> n == |data|
    {
      n :| 0 <= n <= |data| && (data != [] ==> n > 0) && (|data| <= 4096 ==> n == |data|);
      pending := pending + data[..n];
    }

    method SendAll(data: seq<Byte>)
      modifies this
      ensures pending == old(pending) + data
    {
      pending := pending + data;
    }
  }

  /** `_recv_exact`: n bytes, or none if the connection ends before. */
  method RecvExact(sock: Channel, n: nat) returns (data: Option<seq<Byte>>)
    modifies sock
    ensures data == if |old(sock.pending)| < n then None else Some(old(sock.pending)[..n])
    ensures sock.pending == if |old(sock.pending)| < n then [] else old(sock.pending)[n..]
  {
    var got: seq<Byte> := [];
    while |got| < n
      invariant |got| <= n && got + sock.pending == old(sock.pending)
      decreases n - |got|
    {
      var chunk := sock.Recv(n - |got|);
      if chunk == [] {
        return None;
      }
      got := got + chunk;
    }
    assert old(sock.pending)[..n] == got;
    data := Some(got);
  }

  /** The first half of `handle_client`. */
  method ReceiveRequest(sock: Channel) returns (r: Received)
    modifies sock
    ensures r == Receive(old(sock.pending))
  {
    ghost var input := sock.pending;
    var header := RecvExact(sock, 4);
    if header.None? {
      return HangUp;
    }
    var n := Length(header.value);
    if n > MAX_MESSAGE {
      return TooLarge;
    }
    var raw := RecvExact(sock, n);
    if raw.None? || raw.value == [] {
      return HangUp;
    }
    assert input[4..][..n] == input[4..4 + n];
    r := Request(raw.value);
  }

  /** `_send_response`; a payload whose length does not fit in four bytes raises and sends nothing. */
  method SendFrame(sock: Channel, payload: seq<Byte>) returns (sent: bool)
    modifies sock
    ensures sent <==> |payload| < LIMIT
    ensures sock.pending == if sent then old(sock.pending) + Frame(payload) else old(sock.pending)
  {
    if |payload| >= LIMIT {
      return false;
    }
    sock.SendAll(Header(|payload|) + payload);
    return true;
  }

  /** The exchange of the relay and of the direct call: the request out, the response in. */
  method Exchange(out: Channel, back: Channel, request: seq<Byte>) returns (response: Option<seq<Byte>>)
    requires out != back
    modifies out, back
    ensures |request| < LIMIT ==> out.pending == old(out.pending) + Frame(request) && response == Unframe(old(back.pending))
    ensures |request| >= LIMIT ==> out.pending == old(out.pending) && response == None
  {
    ghost var input := back.pending;
    var sent := SendFrame(out, request);
    if !sent {
      return None;
    }
    var header := RecvExact(back, 4);
    if header.None? {
      return None;
    }
    var n := Length(header.value);
    response := RecvExact(back, n);
    if response.Some? {
      assert input[4..][..n] == input[4..4 + n];
    }
  }

  /** The child's side of the pipe: the header, then the payload in slices, each written as far
      as the pipe takes it. */
  method WriteResult(pipe: Channel, payload: seq<Byte>) returns (ok: bool)
    modifies pipe
    ensures ok <==> |payload| < LIMIT
    ensures pipe.pending == if ok then old(pipe.pending) + Frame(payload) else old(pipe.pending)
  {
    if |payload| >= LIMIT {
      return false;
    }
    var _ := pipe.Write(Header(|payload|));
    assert Header(|payload|)[..4] == Header(|payload|);
    var written := 0;
    while written < |payload|
      invariant 0 <= written <= |payload|
      invariant pipe.pending == old(pipe.pending) + Header(|payload|) + payload[..written]
      decreases |payload| - written
    {
      var slice := payload[written..Min(written + 65536, |payload|)];
      var n := pipe.Write(slice);
      assert slice[..n] == payload[written..written + n];
      assert payload[..written + n] == payload[..written] + payload[written..written + n];
      written := written + n;
    }
    assert payload[..written] == payload;
    return true;
  }

  /** The parent's side: reads until the end and keeps the chunks. */
  method ReadPipe(pipe: Channel) returns (body: Option<seq<Byte>>)
    modifies pipe
    ensures body == FromPipe(old(pipe.pending)) && pipe.pending == []
  {
    var chunks: seq<seq<Byte>> := [];
    while true
      invariant Concat(chunks) + pipe.pending == old(pipe.pending)
      decreases |pipe.pending|
    {
      var chunk := pipe.Recv(65536);
      if chunk == [] {
        break;
      }
      ConcatPlus(chunks, [chunk]);
      ConcatOne(chunk, []);
      chunks := chunks + [chunk];
    }
    var raw := Concat(chunks);
    assert raw + [] == raw;
    if |raw| >= 4 {
      var n := Length(raw[..4]);
      return Some(raw[4..Min(4 + n, |raw|)]);
    }
    return None;
  }
}
