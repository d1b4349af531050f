/**
 The two ends of a connection as mutable objects: the send queue under partial socket writes,
 the receive parser under arbitrary chunking, and any exchange between the two.
 */
module Connection {
  import opened Framing

  function Total(queue: seq<seq<byte>>): nat {
    if queue == [] then 0 else |queue[0]| + Total(queue[1..])
  }

  function Flat(queue: seq<seq<byte>>): seq<byte> {
    if queue == [] then [] else queue[0] + Flat(queue[1..])
  }

  lemma {:induction false} TotalSnoc(queue: seq<seq<byte>>, x: seq<byte>)
    ensures Total(queue + [x]) == Total(queue) + |x|
    ensures Flat(queue + [x]) == Flat(queue) + x
  {
    if queue == [] {
      assert queue + [x] == [x] && [x][1..] == [];
    } else {
      assert (queue + [x])[1..] == queue[1..] + [x];
      TotalSnoc(queue[1..], x);
    }
  }

  /** The fields of a send queue are consistent, and together with the bytes already sent
      the queue makes up `wire`. */
  ghost predicate Sending(queue: seq<seq<byte>>, offset: nat, size: int, pause: bool, limit: nat, sent: seq<byte>,
                          wire: seq<byte>) {
    && (forall i :: 0 <= i < |queue| ==> queue[i] != [])
    && (if queue == [] then offset == 0 else offset < |queue[0]|)
    && size == Total(queue)
    && (pause <==> size > limit)
    && offset <= |Flat(queue)| && sent + Flat(queue)[offset..] == wire
  }

  /** The socket takes part of the first entry. */
  lemma SendSome(queue: seq<seq<byte>>, offset: nat, size: int, pause: bool, limit: nat, sent: seq<byte>,
                 wire: seq<byte>, n: nat)
    requires queue != [] && Sending(queue, offset, size, pause, limit, sent, wire) && offset + n < |queue[0]|
    ensures Sending(queue, offset + n, size, pause, limit, sent + queue[0][offset..offset + n], wire)
  {
    var flat := Flat(queue);
    assert flat[offset..] == queue[0][offset..offset + n] + flat[offset + n..];
    assert sent + queue[0][offset..offset + n] + flat[offset + n..] == sent + flat[offset..];
  }

  /** The socket takes all that is left of the first entry. */
  lemma SendRest(queue: seq<seq<byte>>, offset: nat, size: int, pause: bool, limit: nat, sent: seq<byte>,
                 wire: seq<byte>)
    requires queue != [] && Sending(queue, offset, size, pause, limit, sent, wire)
    ensures var size' := size - |queue[0]|;
      Sending(queue[1..], 0, size', size' > limit, limit, sent + queue[0][offset..], wire)
  {
    var flat, rest := Flat(queue), Flat(queue[1..]);
    assert flat[offset..] == queue[0][offset..] + rest;
    assert rest[0..] == rest;
    assert sent + queue[0][offset..] + rest == sent + flat[offset..];
  }

  /** The queue after a push: its header, and its payload unless that is empty. */
  function Pushed(queue: seq<seq<byte>>, net: Network, m: Message): seq<seq<byte>>
    requires Encodable(m)
  {
    if m.payload == [] then queue + [HeaderBytes(net, m)] else queue + [HeaderBytes(net, m)] + [m.payload]
  }

  lemma PushedFlat(queue: seq<seq<byte>>, net: Network, m: Message)
    requires Encodable(m)
    ensures Flat(Pushed(queue, net, m)) == Flat(queue) + Serialize(net, m)
    ensures Total(Pushed(queue, net, m)) == Total(queue) + HEADER_SIZE + |m.payload|
  {
    hide HeaderBytes;
    hide Flat;
    hide Total;
    var header := HeaderBytes(net, m);
    TotalSnoc(queue, header);
    if m.payload != [] {
      TotalSnoc(queue + [header], m.payload);
      assert Flat(queue) + header + m.payload == Flat(queue) + (header + m.payload);
    } else {
      assert header + m.payload == header;
    }
  }

  lemma PushSends(queue: seq<seq<byte>>, offset: nat, size: int, pause: bool, limit: nat, sent: seq<byte>,
                  net: Network, ms: seq<Message>, m: Message)
    requires AllEncodable(ms) && Encodable(m) && Sending(queue, offset, size, pause, limit, sent, Wire(net, ms))
    ensures AllEncodable(ms + [m])
    ensures var size' := size + HEADER_SIZE + |m.payload|;
      Sending(Pushed(queue, net, m), offset, size', pause || size' > limit, limit, sent, Wire(net, ms + [m]))
  {
    hide Serialize;
    hide HeaderBytes;
    hide Wire;
    hide Flat;
    hide Total;
    PushedFlat(queue, net, m);
    PushedWire(net, ms, m);
    var flat, more := Flat(queue), Serialize(net, m);
    assert (flat + more)[offset..] == flat[offset..] + more;
    assert sent + flat[offset..] + more == sent + (flat[offset..] + more);
  }

  lemma PushedWire(net: Network, ms: seq<Message>, m: Message)
    requires AllEncodable(ms) && Encodable(m)
    ensures AllEncodable(ms + [m]) && Wire(net, ms + [m]) == Wire(net, ms) + Serialize(net, m)
  {
    hide Serialize;
    assert (ms + [m])[..|ms|] == ms;
  }

  /** Where sending of an entry begins, if the first was sent up to `from`. */
  function StartAt(from: nat, i: nat): nat {
    if i == 0 then from else 0
  }

  /** The socket took the first `k` entries whole. */
  ghost predicate Whole(queue: seq<seq<byte>>, from: nat, socket: nat -> int, k: nat) {
    k <= |queue| && forall i :: 0 <= i < k ==> socket(i) >= |queue[i]| - StartAt(from, i)
  }

  /** Of the next it took only as much as brings it to `offset`. */
  ghost predicate Took(queue: seq<seq<byte>>, from: nat, socket: nat -> int, k: nat, offset: nat) {
    && Whole(queue, from, socket, k)
    && (k < |queue| ==>
          && socket(k) < |queue[k]| - StartAt(from, k)
          && offset == StartAt(from, k) + (if socket(k) > 0 then socket(k) else 0))
  }

  lemma WholeNone(queue: seq<seq<byte>>, from: nat, socket: nat -> int)
    ensures Whole(queue, from, socket, 0) && StartAt(from, 0) == from
  {}

  lemma WholeMore(queue: seq<seq<byte>>, from: nat, socket: nat -> int, k: nat)
    requires Whole(queue, from, socket, k) && k < |queue| && socket(k) >= |queue[k]| - StartAt(from, k)
    ensures Whole(queue, from, socket, k + 1) && StartAt(from, k + 1) == 0
  {}

  lemma TookPart(queue: seq<seq<byte>>, from: nat, socket: nat -> int, k: nat)
    requires Whole(queue, from, socket, k) && k < |queue| && socket(k) < |queue[k]| - StartAt(from, k)
    ensures Took(queue, from, socket, k, StartAt(from, k) + if socket(k) > 0 then socket(k) else 0)
  {}

  lemma TookAll(queue: seq<seq<byte>>, from: nat, socket: nat -> int, offset: nat)
    requires Whole(queue, from, socket, |queue|)
    ensures Took(queue, from, socket, |queue|, offset)
  {}

  /** What is left of a queue after the socket took what it would. */
  ghost predicate Remains(was: seq<seq<byte>>, from: nat, socket: nat -> int, queue: seq<seq<byte>>, offset: nat) {
    var k := |was| - |queue|;
    k >= 0 && queue == was[k..] && Took(was, from, socket, k, offset)
  }

  /** Sending stops only where the socket takes less than is offered; a willing socket gets everything. */
  lemma WillingSocket(was: seq<seq<byte>>, from: nat, socket: nat -> int, queue: seq<seq<byte>>, offset: nat)
    requires Remains(was, from, socket, queue, offset)
    requires forall i :: 0 <= i < |was| ==> socket(i) >= |was[i]|
    ensures queue == []
  {}

  class Sender {
    const net: Network
    const limit: nat
    var queue: seq<seq<byte>>
    var offset: nat
    var size: int
    var pause: bool
    /** The stream handed to the socket so far. */
    var sent: seq<byte>
    ghost var pushed: seq<Message>

    ghost predicate Valid()
      reads this
    {
      AllEncodable(pushed) && Sending(queue, offset, size, pause, limit, sent, Wire(net, pushed))
    }

    constructor (net: Network, limit: nat)
      ensures Valid() && sent == [] && pushed == [] && this.net == net && this.limit == limit
    {
      this.net, this.limit := net, limit;
      queue, offset, size, pause := [], 0, 0, false;
      sent, pushed := [], [];
    }

    /** Hand queued bytes to the socket until it takes no more; `socket(i)` is what the
        `i`th call would accept. */
    method SocketSendData(socket: nat -> int) returns (sentSize: nat)
      requires Valid()
      modifies `queue, `offset, `size, `pause, `sent
      ensures Valid() && old(sent) <= sent && |sent| == |old(sent)| + sentSize
      ensures queue == [] ==> offset == 0 && size == 0
      ensures Remains(old(queue), old(offset), socket, queue, offset)
    {
      hide Sending;
      hide Wire;
      hide StartAt;
      hide Whole;
      hide Took;
      sentSize := 0;
      ghost var stopped := false;
      WholeNone(queue, offset, socket);
      var it := 0;
      ghost var wire := Wire(net, pushed);
      assert queue[0..] == queue;
      while it < |queue|
        invariant 0 <= it <= |queue| && queue == old(queue)
        invariant Sending(queue[it..], offset, size, pause, limit, sent, wire)
        invariant old(sent) <= sent && |sent| == |old(sent)| + sentSize
        invariant !stopped && offset == StartAt(old(offset), it) && Whole(queue, old(offset), socket, it)
        decreases |queue| - it
      {
        var data := queue[it];
        ghost var rest := queue[it..];
        SliceRest(queue, it);
        SendingFirst(rest, offset, size, pause, limit, sent, wire);
        assert |data| > offset;
        var accepted := socket(it);
        var n := if accepted > |data| - offset then |data| - offset else accepted;
        if n > 0 {
          ghost var before := sent;
          PrefixGrows(old(sent), sent, data[offset..offset + n]);
          sent := sent + data[offset..offset + n];
          sentSize := sentSize + n;
          if offset + n == |data| {
            SendRest(rest, offset, size, pause, limit, before, wire);
            assert data[offset..offset + n] == data[offset..];
            offset := 0;
            size := size - |data|;
            pause := size > limit;
            WholeMore(queue, old(offset), socket, it);
            it := it + 1;
          } else {
            TookPart(queue, old(offset), socket, it);
            stopped := true;
            SendSome(rest, offset, size, pause, limit, before, wire, n);
            offset := offset + n;
            break;
          }
        } else {
          TookPart(queue, old(offset), socket, it);
          stopped := true;
          break;
        }
      }
      if !stopped {
        TookAll(queue, old(offset), socket, offset);
      }
      SendingDrained(queue[it..], offset, size, pause, limit, sent, wire);
      if it == |queue| {
        assert offset == 0;
        assert size == 0;
      }
      queue := queue[it..];
    }

    method PushMessage(m: Message, socket: nat -> int) returns (sentSize: nat)
      requires Valid() && Encodable(m)
      modifies this
      ensures Valid() && pushed == old(pushed) + [m] && old(sent) <= sent
      ensures |sent| == |old(sent)| + sentSize
      ensures if old(queue) == [] then Remains(Pushed([], net, m), old(offset), socket, queue, offset)
              else queue == Pushed(old(queue), net, m) && offset == old(offset) && sentSize == 0
    {
      hide Sending;
      hide Wire;
      hide HeaderBytes;
      hide Remains;
      PushSends(queue, offset, size, pause, limit, sent, net, pushed, m);
      var optimistic := queue == [];
      size := size + HEADER_SIZE + |m.payload|;
      if size > limit {
        pause := true;
      }
      queue := queue + [HeaderBytes(net, m)];
      if m.payload != [] {
        queue := queue + [m.payload];
      }
      assert queue == Pushed(old(queue), net, m);
      hide Pushed;
      pushed := pushed + [m];
      sentSize := 0;
      if optimistic {
        sentSize := SocketSendData(socket);
      }
    }
  }

  lemma SliceRest(queue: seq<seq<byte>>, k: nat)
    requires k < |queue|
    ensures queue[k..][0] == queue[k] && queue[k..][1..] == queue[k + 1..]
  {}

  lemma PrefixGrows(a: seq<byte>, b: seq<byte>, c: seq<byte>)
    requires a <= b
    ensures a <= b + c
  {}

  lemma SendingFirst(queue: seq<seq<byte>>, offset: nat, size: int, pause: bool, limit: nat, sent: seq<byte>,
                     wire: seq<byte>)
    requires queue != [] && Sending(queue, offset, size, pause, limit, sent, wire)
    ensures offset < |queue[0]|
  {}

  lemma SendingDrained(queue: seq<seq<byte>>, offset: nat, size: int, pause: bool, limit: nat, sent: seq<byte>,
                       wire: seq<byte>)
    requires Sending(queue, offset, size, pause, limit, sent, wire)
    ensures queue == [] ==> offset == 0 && size == 0
  {}

  // ----- receiving

  /** A message being received. */
  datatype NetMessage = NetMessage(
    inData: bool, hdrbuf: seq<byte>, hdrPos: nat, hdr: Header, data: seq<byte>, dataPos: nat)
  {
    predicate Complete() { inData && hdr.size == dataPos }
  }

  function NewMessage(net: Network): NetMessage {
    NetMessage(false, seq(HEADER_SIZE, i => 0), 0,
      Header(Four(net.start), seq(12, i => 0), 0xFFFF_FFFF, [0, 0, 0, 0]), [], 0)
  }

  ghost predicate MsgOk(m: NetMessage) {
    && |m.hdrbuf| == HEADER_SIZE
    && if m.inData then
         && m.hdrPos == HEADER_SIZE && m.hdr == ParseHeader(m.hdrbuf) && !Oversized(m.hdr.size)
         && m.dataPos <= |m.data| <= m.hdr.size
       else m.hdrPos < HEADER_SIZE && m.dataPos == 0 && m.data == []
  }

  /** The bytes of the message received so far. */
  ghost function MsgBytes(m: NetMessage): seq<byte>
    requires MsgOk(m)
  {
    m.hdrbuf[..m.hdrPos] + m.data[..m.dataPos]
  }

  /** The receiver state with `m` under way or just completed. */
  ghost function WithMessage(done: seq<Received>, m: NetMessage): Rx
    requires MsgOk(m)
  {
    if m.Complete() then Rx(done + [Received(m.hdr, m.data)], [], false) else Rx(done, MsgBytes(m), false)
  }

  function Min(a: nat, b: nat): nat { if a < b then a else b }

  /** Write `piece` into `buffer` at `pos`. */
  function Write(buffer: seq<byte>, pos: nat, piece: seq<byte>): (r: seq<byte>)
    requires pos + |piece| <= |buffer|
    ensures |r| == |buffer| && r[..pos + |piece|] == buffer[..pos] + piece
  {
    buffer[..pos] + piece + buffer[pos + |piece|..]
  }

  function Resize(buffer: seq<byte>, n: nat): (r: seq<byte>)
    ensures |r| == n && (|buffer| <= n ==> r[..|buffer|] == buffer)
  {
    if n <= |buffer| then buffer[..n] else buffer + seq(n - |buffer|, i => 0)
  }

  /** Read header bytes; a negative count means the header is refused. */
  method ReadHeader(m: NetMessage, bytes: seq<byte>) returns (r: NetMessage, handled: int)
    requires MsgOk(m) && !m.inData && bytes != []
    ensures var n := Min(HEADER_SIZE - m.hdrPos, |bytes|);
      var p := m.hdrbuf[..m.hdrPos] + bytes[..n];
      if |p| < HEADER_SIZE then handled == n && MsgOk(r) && !r.inData && MsgBytes(r) == p
      else if ParseHeader(p).size > MAX_SIZE then handled == -1
      else
        && handled == n && r.inData && r.hdr == ParseHeader(p) && r.hdrbuf == p
        && r.hdrPos == HEADER_SIZE && r.data == [] && r.dataPos == 0
  {
    hide ParseHeader;
    var n := Min(HEADER_SIZE - m.hdrPos, |bytes|);
    r := m.(hdrbuf := Write(m.hdrbuf, m.hdrPos, bytes[..n]), hdrPos := m.hdrPos + n);
    handled := n;
    assert r.hdrbuf[..r.hdrPos] == m.hdrbuf[..m.hdrPos] + bytes[..n];
    if r.hdrPos < HEADER_SIZE {
      assert MsgBytes(r) == r.hdrbuf[..r.hdrPos];
      return;
    }
    assert r.hdrbuf[..HEADER_SIZE] == r.hdrbuf;
    r := r.(hdr := ParseHeader(r.hdrbuf));
    if r.hdr.size > MAX_SIZE {
      handled := -1;
      return;
    }
    r := r.(inData := true);
  }

  /** Read payload bytes, allocating at most 256 KiB ahead. */
  method ReadData(m: NetMessage, bytes: seq<byte>) returns (r: NetMessage, handled: nat)
    requires MsgOk(m) && m.inData && !m.Complete() && bytes != []
    ensures handled == Min(m.hdr.size - m.dataPos, |bytes|)
    ensures MsgOk(r) && r.inData && r.hdr == m.hdr && r.dataPos == m.dataPos + handled
    ensures MsgBytes(r) == MsgBytes(m) + bytes[..handled]
  {
    hide ParseHeader;
    handled := Min(m.hdr.size - m.dataPos, |bytes|);
    var data := m.data;
    if |data| < m.dataPos + handled {
      data := Resize(data, Min(m.hdr.size, m.dataPos + handled + 256 * 1024));
    }
    assert data[..m.dataPos] == m.data[..m.dataPos];
    r := m.(data := Write(data, m.dataPos, bytes[..handled]), dataPos := m.dataPos + handled);
    assert r.data[..r.dataPos] == m.data[..m.dataPos] + bytes[..handled];
    assert m.hdrbuf[..m.hdrPos] + (m.data[..m.dataPos] + bytes[..handled]) == MsgBytes(m) + bytes[..handled];
  }

  /** Let the message under way absorb what it can of `rest`. */
  method Absorb(m: NetMessage, rest: seq<byte>, ghost done: seq<Received>) returns (r: NetMessage, n: nat, ok: bool)
    requires MsgOk(m) && !m.Complete() && rest != []
    ensures ok ==> 0 < n <= |rest| && MsgOk(r) && Feed(Rx(done, MsgBytes(m), false), rest[..n]) == WithMessage(done, r)
    ensures !ok ==> Feed(Rx(done, MsgBytes(m), false), rest).failed
  {
    var handled: int;
    ghost var rx := Rx(done, MsgBytes(m), false);
    if !m.inData {
      assert MsgBytes(m) == m.hdrbuf[..m.hdrPos];
      r, handled := ReadHeader(m, rest);
      HeaderAbsorbed(m, rest, done);
    } else {
      r, handled := ReadData(m, rest);
      DataAbsorbed(m, rest[..handled], r, done);
    }
    if handled < 0 {
      return r, 0, false;
    }
    if r.inData && r.hdr.size > MAX_PROTOCOL_MESSAGE_LENGTH {
      return r, 0, false;
    }
    n, ok := handled, true;
    if r.inData && !m.inData {
      HeaderHeld(r, done);
    }
  }

  lemma HeaderAbsorbed(m: NetMessage, rest: seq<byte>, done: seq<Received>)
    requires MsgOk(m) && !m.inData && rest != []
    ensures var n := Min(HEADER_SIZE - m.hdrPos, |rest|);
      var p := m.hdrbuf[..m.hdrPos] + rest[..n];
      var rx := Rx(done, MsgBytes(m), false);
      if |p| < HEADER_SIZE then Feed(rx, rest[..n]) == Rx(done, p, false)
      else if Oversized(ParseHeader(p).size) then Feed(rx, rest).failed
      else Feed(rx, rest[..n]) == Holding(done, p)
  {
    hide ParseHeader;
    var n := Min(HEADER_SIZE - m.hdrPos, |rest|);
    var p := m.hdrbuf[..m.hdrPos] + rest[..n];
    var rx := Rx(done, MsgBytes(m), false);
    assert MsgBytes(m) == m.hdrbuf[..m.hdrPos];
    if |p| < HEADER_SIZE {
      FeedHeaderPart(rx, rest[..n]);
    } else {
      FeedHeaderEnd(rx, rest[..n]);
      if Oversized(ParseHeader(p).size) {
        assert rest == rest[..n] + rest[n..];
        FeedConcat(rx, rest[..n], rest[n..]);
        FeedFailed(Rx(done, p, true), rest[n..]);
      }
    }
  }

  lemma HeaderHeld(r: NetMessage, done: seq<Received>)
    requires r.inData && |r.hdrbuf| == HEADER_SIZE == r.hdrPos && r.hdr == ParseHeader(r.hdrbuf) && r.data == []
      && r.dataPos == 0
    requires !Oversized(r.hdr.size)
    ensures MsgOk(r) && Holding(done, r.hdrbuf) == WithMessage(done, r)
  {
    hide ParseHeader;
    assert r.hdrbuf[..HEADER_SIZE] == r.hdrbuf && r.hdrbuf[HEADER_SIZE..] == [];
    assert MsgBytes(r) == r.hdrbuf;
  }

  lemma DataAbsorbed(m: NetMessage, s: seq<byte>, r: NetMessage, done: seq<Received>)
    requires MsgOk(m) && m.inData && !m.Complete() && s != [] && m.dataPos + |s| <= m.hdr.size
    requires MsgOk(r) && r.inData && r.hdr == m.hdr && r.dataPos == m.dataPos + |s| && MsgBytes(r) == MsgBytes(m) + s
    ensures Feed(Rx(done, MsgBytes(m), false), s) == WithMessage(done, r)
  {
    hide ParseHeader;
    var rx := Rx(done, MsgBytes(m), false);
    assert m.hdrbuf[..m.hdrPos] == m.hdrbuf && r.hdrbuf[..r.hdrPos] == r.hdrbuf;
    assert MsgBytes(m)[..HEADER_SIZE] == m.hdrbuf && MsgBytes(r)[..HEADER_SIZE] == r.hdrbuf;
    assert (MsgBytes(m) + s)[..HEADER_SIZE] == m.hdrbuf;
    FeedData(rx, s);
    if r.Complete() {
      assert MsgBytes(r)[HEADER_SIZE..] == r.data;
    }
  }

  ghost function Done(ms: seq<NetMessage>): (r: seq<Received>)
    ensures |r| == |ms|
  {
    seq(|ms|, i requires 0 <= i < |ms| => Received(ms[i].hdr, ms[i].data))
  }

  /** Every message but perhaps the last is complete. */
  ghost predicate MessagesOk(ms: seq<NetMessage>) {
    && (forall i :: 0 <= i < |ms| ==> MsgOk(ms[i]))
    && (forall i :: 0 <= i < |ms| - 1 ==> ms[i].Complete())
  }

  ghost function AbsRx(ms: seq<NetMessage>): Rx
    requires MessagesOk(ms)
  {
    if ms == [] then Fresh else WithMessage(Done(ms[..|ms| - 1]), ms[|ms| - 1])
  }

  lemma StartMessage(ms: seq<NetMessage>, net: Network)
    requires MessagesOk(ms) && (ms != [] ==> ms[|ms| - 1].Complete())
    ensures MessagesOk(ms + [NewMessage(net)])
    ensures AbsRx(ms + [NewMessage(net)]) == AbsRx(ms) == Rx(Done(ms), [], false)
    ensures (ms + [NewMessage(net)])[..|ms|] == ms && MsgBytes(NewMessage(net)) == []
  {
    hide ParseHeader;
    assert Done(ms) == if ms == [] then [] else Done(ms[..|ms| - 1]) + [Received(ms[|ms| - 1].hdr, ms[|ms| - 1].data)];
  }

  class Receiver {
    const net: Network
    var messages: seq<NetMessage>

    ghost predicate Valid()
      reads this
    {
      MessagesOk(messages)
    }

    ghost function Abs(): Rx
      requires Valid()
      reads this
    {
      AbsRx(messages)
    }

    constructor (net: Network)
      ensures Valid() && Abs() == Fresh && this.net == net
    {
      this.net := net;
      messages := [];
    }

    /** Take in a chunk of any size; on refusal the connection is dropped. */
    method ReceiveMsgBytes(chunk: seq<byte>) returns (ok: bool, complete: bool)
      requires Valid()
      modifies `messages
      ensures ok <==> !Feed(old(Abs()), chunk).failed
      ensures ok ==> Valid() && Abs() == Feed(old(Abs()), chunk)
      ensures ok ==> (complete <==> |Abs().done| > |old(Abs()).done|)
    {
      hide Feed;
      hide MsgOk;
      hide MessagesOk;
      hide AbsRx;
      hide WithMessage;
      hide Done;
      ghost var target := Feed(Abs(), chunk);
      ghost var count := |Abs().done|;
      NotFailed(messages);
      complete := false;
      var rest := chunk;
      while rest != []
        invariant Valid() && Feed(Abs(), rest) == target && !Abs().failed
        invariant complete ==> |Abs().done| > count
        invariant !complete ==> |Abs().done| == count
        decreases |rest|
      {
        if messages == [] || messages[|messages| - 1].Complete() {
          StartMessage(messages, net);
          messages := messages + [NewMessage(net)];
        }
        var last := |messages| - 1;
        LastUnderWay(messages);
        var m, n, taken := Absorb(messages[last], rest, Done(messages[..last]));
        if !taken {
          return false, complete;
        }
        assert rest == rest[..n] + rest[n..];
        FeedConcat(Abs(), rest[..n], rest[n..]);
        ReplaceLast(messages, m);
        messages := messages[last := m];
        rest := rest[n..];
        if m.Complete() {
          complete := true;
        }
      }
      FeedNothing(Abs());
      ok := true;
    }
  }

  lemma NotFailed(ms: seq<NetMessage>)
    requires MessagesOk(ms)
    ensures !AbsRx(ms).failed
  {}

  lemma LastUnderWay(ms: seq<NetMessage>)
    requires MessagesOk(ms) && ms != [] && !ms[|ms| - 1].Complete()
    ensures var m := ms[|ms| - 1]; MsgOk(m) && AbsRx(ms) == Rx(Done(ms[..|ms| - 1]), MsgBytes(m), false)
  {}

  lemma ReplaceLast(ms: seq<NetMessage>, m: NetMessage)
    requires MessagesOk(ms) && ms != [] && !ms[|ms| - 1].Complete() && MsgOk(m)
    ensures var ms' := ms[|ms| - 1 := m];
      && MessagesOk(ms') && AbsRx(ms') == WithMessage(Done(ms[..|ms| - 1]), m) && !AbsRx(ms').failed
      && |AbsRx(ms').done| == |AbsRx(ms).done| + (if m.Complete() then 1 else 0)
  {
    assert ms[|ms| - 1 := m][..|ms| - 1] == ms[..|ms| - 1];
  }

  // ----- any exchange

  datatype Event = Push(m: Message, socket: nat -> int) | Send(socket: nat -> int) | Deliver(n: nat)

  /** Whatever is pushed, however the socket fragments it and however it is delivered, the
      receiver has exactly the messages whose last byte is among those delivered, in order. */
  method Exchange(sender: Sender, receiver: Receiver, events: seq<Event>) returns (arrived: nat)
    requires sender.Valid() && sender.sent == [] && sender.pushed == [] && receiver.Valid() && receiver.Abs() == Fresh
    requires forall i :: 0 <= i < |events| ==> events[i].Push? ==> Sendable(events[i].m)
    modifies sender, receiver
    ensures sender.Valid() && receiver.Valid() && AllSendable(sender.pushed)
    ensures arrived <= |sender.sent| && receiver.Abs() == Feed(Fresh, sender.sent[..arrived])
    ensures ExactlyArrived(sender.net, sender.pushed, arrived, receiver.Abs().done)
  {
    hide Feed;
    hide Sending;
    hide MessagesOk;
    hide AbsRx;
    hide Wire;
    hide ExactlyArrived;
    arrived := 0;
    assert sender.sent[..0] == [];
    FeedNothing(Fresh);
    for k := 0 to |events|
      invariant sender.Valid() && receiver.Valid() && AllSendable(sender.pushed)
      invariant arrived <= |sender.sent|
      invariant receiver.Abs() == Feed(Fresh, sender.sent[..arrived])
    {
      match events[k]
      case Push(m, socket) =>
        ghost var before := sender.sent;
        var _ := sender.PushMessage(m, socket);
        assert sender.sent[..arrived] == before[..arrived];
      case Send(socket) =>
        ghost var before := sender.sent;
        var _ := sender.SocketSendData(socket);
        assert sender.sent[..arrived] == before[..arrived];
      case Deliver(n) =>
        var to := Min(arrived + n, |sender.sent|);
        var chunk := sender.sent[arrived..to];
        Delivered(sender, arrived, to);
        var ok, _ := receiver.ReceiveMsgBytes(chunk);
        assert ok;
        arrived := to;
    }
    Delivered(sender, arrived, arrived);
  }

  lemma Delivered(sender: Sender, arrived: nat, to: nat)
    requires sender.Valid() && AllSendable(sender.pushed) && arrived <= to <= |sender.sent|
    ensures var rx := Feed(Fresh, sender.sent[..to]);
      && rx == Feed(Feed(Fresh, sender.sent[..arrived]), sender.sent[arrived..to])
      && !rx.failed && ExactlyArrived(sender.net, sender.pushed, to, rx.done)
  {
    hide Feed;
    hide Wire;
    assert sender.sent[..to] == sender.sent[..arrived] + sender.sent[arrived..to];
    FeedConcat(Fresh, sender.sent[..arrived], sender.sent[arrived..to]);
    assert sender.sent[..to] <= Wire(sender.net, sender.pushed);
    EndToEnd(sender.net, sender.pushed, sender.sent[..to]);
  }
}
