/**
 Message framing: how messages become a byte stream, and how a stream that arrives in
 arbitrary pieces becomes messages again.
 */
module Framing {

  type byte = x: int | 0 <= x < 256

  const HEADER_SIZE: nat := 24
  const MAX_SIZE: nat := 0x0200_0000
  const MAX_PROTOCOL_MESSAGE_LENGTH: nat := 4_000_000

  datatype Message = Message(command: seq<byte>, payload: seq<byte>)

  datatype Header = Header(start: seq<byte>, command: seq<byte>, size: nat, checksum: seq<byte>)

  /** The network's start bytes, and the first four bytes of the payload hash. */
  datatype Network = Network(start: (byte, byte, byte, byte), checksum: seq<byte> -> (byte, byte, byte, byte))

  function Four(t: (byte, byte, byte, byte)): (r: seq<byte>)
    ensures |r| == 4
  {
    [t.0, t.1, t.2, t.3]
  }

  // ----- headers

  /** A command in its 12-byte field: cut at a zero byte or at the end, padded with zeroes. */
  function Field(command: seq<byte>, n: nat): (r: seq<byte>)
    ensures |r| == n
    decreases n
  {
    if n == 0 then []
    else if command == [] || command[0] == 0 then [0] + Field([], n - 1)
    else [command[0]] + Field(command[1..], n - 1)
  }

  function Le32(x: nat): (r: seq<byte>)
    requires x < 0x1_0000_0000
    ensures |r| == 4
  {
    [x % 256, x / 256 % 256, x / 65536 % 256, x / 16777216]
  }

  function FromLe32(b: seq<byte>): nat
    requires |b| == 4
  {
    b[0] as int + 256 * b[1] as int + 65536 * b[2] as int + 16777216 * b[3] as int
  }

  lemma Le32RoundTrip(x: nat)
    requires x < 0x1_0000_0000
    ensures FromLe32(Le32(x)) == x
  {}

  function HeaderOf(net: Network, m: Message): Header {
    Header(Four(net.start), Field(m.command, 12), |m.payload|, Four(net.checksum(m.payload)))
  }

  /** The size field is 32 bits wide. */
  predicate Encodable(m: Message) {
    |m.payload| < 0x1_0000_0000
  }

  function HeaderBytes(net: Network, m: Message): (r: seq<byte>)
    requires Encodable(m)
    ensures |r| == HEADER_SIZE
  {
    Four(net.start) + Field(m.command, 12) + Le32(|m.payload|) + Four(net.checksum(m.payload))
  }

  function ParseHeader(b: seq<byte>): Header
    requires |b| == HEADER_SIZE
  {
    Header(b[..4], b[4..16], FromLe32(b[16..20]), b[20..24])
  }

  lemma HeaderRoundTrip(net: Network, m: Message)
    requires Encodable(m)
    ensures ParseHeader(HeaderBytes(net, m)) == HeaderOf(net, m)
  {
    hide Field;
    hide Le32;
    hide FromLe32;
    hide Four;
    Le32RoundTrip(|m.payload|);
    Slices(Four(net.start), Field(m.command, 12), Le32(|m.payload|), Four(net.checksum(m.payload)));
  }

  lemma Slices(a: seq<byte>, b: seq<byte>, c: seq<byte>, d: seq<byte>)
    requires |a| == 4 && |b| == 12 && |c| == 4 && |d| == 4
    ensures var s := a + b + c + d; s[..4] == a && s[4..16] == b && s[16..20] == c && s[20..24] == d
  {}

  // ----- the stream

  /** A message the protocol allows. */
  predicate Sendable(m: Message) {
    |m.payload| <= MAX_PROTOCOL_MESSAGE_LENGTH
  }

  predicate AllSendable(ms: seq<Message>) {
    forall i :: 0 <= i < |ms| ==> Sendable(ms[i])
  }

  predicate AllEncodable(ms: seq<Message>) {
    forall i :: 0 <= i < |ms| ==> Encodable(ms[i])
  }

  function Serialize(net: Network, m: Message): (r: seq<byte>)
    requires Encodable(m)
    ensures |r| == HEADER_SIZE + |m.payload|
  {
    HeaderBytes(net, m) + m.payload
  }

  function Wire(net: Network, ms: seq<Message>): seq<byte>
    requires AllEncodable(ms)
  {
    if ms == [] then [] else Wire(net, ms[..|ms| - 1]) + Serialize(net, ms[|ms| - 1])
  }

  // ----- receiving, one byte at a time

  datatype Received = Received(header: Header, payload: seq<byte>)

  /** The receiver: completed messages, the bytes of the one under way, and whether it gave up. */
  datatype Rx = Rx(done: seq<Received>, partial: seq<byte>, failed: bool)

  const Fresh := Rx([], [], false)

  predicate Oversized(size: nat) {
    size > MAX_SIZE || size > MAX_PROTOCOL_MESSAGE_LENGTH
  }

  function FeedByte(rx: Rx, b: byte): Rx {
    if rx.failed then rx else
      var p := rx.partial + [b];
      if |p| < HEADER_SIZE then rx.(partial := p)
      else
        var hdr := ParseHeader(p[..HEADER_SIZE]);
        if |p| == HEADER_SIZE && Oversized(hdr.size) then Rx(rx.done, p, true)
        else if |p| == HEADER_SIZE + hdr.size then Rx(rx.done + [Received(hdr, p[HEADER_SIZE..])], [], false)
        else rx.(partial := p)
  }

  function Feed(rx: Rx, s: seq<byte>): Rx {
    if s == [] then rx else FeedByte(Feed(rx, s[..|s| - 1]), s[|s| - 1])
  }

  lemma FeedNothing(rx: Rx)
    ensures Feed(rx, []) == rx
  {}

  /** How a stream is cut into pieces does not matter. */
  lemma {:induction false} FeedConcat(rx: Rx, a: seq<byte>, b: seq<byte>)
    ensures Feed(rx, a + b) == Feed(Feed(rx, a), b)
  {
    if b == [] {
      assert a + b == a;
    } else {
      var c := a + b;
      assert c[..|c| - 1] == a + b[..|b| - 1];
      FeedConcat(rx, a, b[..|b| - 1]);
    }
  }

  lemma {:induction false} FeedFailed(rx: Rx, s: seq<byte>)
    requires rx.failed
    ensures Feed(rx, s) == rx
  {
    if s != [] {
      FeedFailed(rx, s[..|s| - 1]);
    }
  }

  /** Bytes that do not complete the header just accumulate. */
  lemma {:induction false} FeedHeaderPart(rx: Rx, s: seq<byte>)
    requires !rx.failed && |rx.partial| + |s| < HEADER_SIZE
    ensures Feed(rx, s) == rx.(partial := rx.partial + s)
  {
    if s == [] {
      assert rx.partial + s == rx.partial;
    } else {
      FeedHeaderPart(rx, s[..|s| - 1]);
      assert rx.partial + s == rx.partial + s[..|s| - 1] + [s[|s| - 1]];
    }
  }

  /** What the receiver becomes when it holds a complete header of an allowed size and
      `p` bytes of the message in all. */
  function Holding(done: seq<Received>, p: seq<byte>): Rx
    requires |p| >= HEADER_SIZE
  {
    var hdr := ParseHeader(p[..HEADER_SIZE]);
    if |p| == HEADER_SIZE + hdr.size then Rx(done + [Received(hdr, p[HEADER_SIZE..])], [], false)
    else Rx(done, p, false)
  }

  /** Bytes that complete the header. */
  lemma FeedHeaderEnd(rx: Rx, s: seq<byte>)
    requires !rx.failed && |rx.partial| < HEADER_SIZE && |rx.partial| + |s| == HEADER_SIZE
    ensures var p := rx.partial + s;
      Feed(rx, s) == if Oversized(ParseHeader(p).size) then Rx(rx.done, p, true) else Holding(rx.done, p)
  {
    FeedHeaderPart(rx, s[..|s| - 1]);
    var p := rx.partial + s;
    assert p == rx.partial + s[..|s| - 1] + [s[|s| - 1]];
    assert p[..HEADER_SIZE] == p;
  }

  /** Payload bytes, up to the end of the message. */
  lemma {:induction false} FeedData(rx: Rx, s: seq<byte>)
    requires !rx.failed && |rx.partial| >= HEADER_SIZE
    requires |rx.partial| < HEADER_SIZE + ParseHeader(rx.partial[..HEADER_SIZE]).size
    requires 0 < |s| && |rx.partial| + |s| <= HEADER_SIZE + ParseHeader(rx.partial[..HEADER_SIZE]).size
    ensures Feed(rx, s) == Holding(rx.done, rx.partial + s)
  {
    var p := rx.partial + s;
    assert p[..HEADER_SIZE] == rx.partial[..HEADER_SIZE];
    assert p == rx.partial + s[..|s| - 1] + [s[|s| - 1]];
    if |s| > 1 {
      FeedData(rx, s[..|s| - 1]);
      assert (rx.partial + s[..|s| - 1])[..HEADER_SIZE] == rx.partial[..HEADER_SIZE];
    } else {
      assert s[..0] == [] && rx.partial + [] == rx.partial;
    }
  }

  // ----- sending and receiving compose

  function ReceivedOf(net: Network, m: Message): Received {
    Received(HeaderOf(net, m), m.payload)
  }

  function AllReceived(net: Network, ms: seq<Message>): (r: seq<Received>)
    ensures |r| == |ms|
  {
    seq(|ms|, i requires 0 <= i < |ms| => ReceivedOf(net, ms[i]))
  }

  /** A receiver between messages takes in a whole message. */
  lemma FeedMessage(net: Network, rx: Rx, m: Message)
    requires Sendable(m) && !rx.failed && rx.partial == []
    ensures Feed(rx, Serialize(net, m)) == Rx(rx.done + [ReceivedOf(net, m)], [], false)
  {
    var hb := HeaderBytes(net, m);
    HeaderRoundTrip(net, m);
    assert rx.partial + hb == hb && hb[..HEADER_SIZE] == hb;
    FeedHeaderEnd(rx, hb);
    FeedConcat(rx, hb, m.payload);
    if m.payload != [] {
      var mid := Rx(rx.done, hb, false);
      assert Feed(rx, hb) == mid;
      FeedData(mid, m.payload);
      var p := hb + m.payload;
      assert p[..HEADER_SIZE] == hb && p[HEADER_SIZE..] == m.payload;
    } else {
      assert hb + m.payload == hb;
    }
  }

  /** Part of a message completes nothing and does not fail. */
  lemma FeedMessagePart(net: Network, rx: Rx, m: Message, n: nat)
    requires Sendable(m) && !rx.failed && rx.partial == [] && n < |Serialize(net, m)|
    ensures var r := Feed(rx, Serialize(net, m)[..n]); r.done == rx.done && !r.failed
  {
    var hb := HeaderBytes(net, m);
    var s := Serialize(net, m)[..n];
    if n < HEADER_SIZE {
      FeedHeaderPart(rx, s);
    } else {
      var d := m.payload[..n - HEADER_SIZE];
      assert s == hb + d;
      HeaderRoundTrip(net, m);
      assert rx.partial + hb == hb && hb[..HEADER_SIZE] == hb;
      FeedHeaderEnd(rx, hb);
      FeedConcat(rx, hb, d);
      if d != [] {
        FeedData(Rx(rx.done, hb, false), d);
        assert (hb + d)[..HEADER_SIZE] == hb;
      }
    }
  }

  lemma AllReceivedNext(net: Network, ms: seq<Message>)
    ensures AllReceived(net, []) == []
    ensures ms != [] ==>
      AllReceived(net, ms) == AllReceived(net, ms[..|ms| - 1]) + [ReceivedOf(net, ms[|ms| - 1])]
  {
    hide ReceivedOf;
    hide AllSendable;
    hide AllEncodable;
    if ms != [] {
      var k := |ms| - 1;
      var r := AllReceived(net, ms[..k]);
      forall i | 0 <= i < k ensures AllReceived(net, ms)[i] == r[i] {
        assert ms[..k][i] == ms[i];
      }
    }
  }

  lemma {:induction false} FeedWire(net: Network, ms: seq<Message>)
    requires AllSendable(ms)
    ensures Feed(Fresh, Wire(net, ms)) == Rx(AllReceived(net, ms), [], false)
  {
    hide Feed;
    hide AllReceived;
    hide Serialize;
    AllReceivedNext(net, ms);
    FeedNothing(Fresh);
    if ms != [] {
      var k := |ms| - 1;
      FeedWire(net, ms[..k]);
      FeedConcat(Fresh, Wire(net, ms[..k]), Serialize(net, ms[k]));
      FeedMessage(net, Rx(AllReceived(net, ms[..k]), [], false), ms[k]);
    }
  }

  /** Bytes the first `j` messages take. */
  function WireSize(net: Network, ms: seq<Message>, j: nat): nat
    requires AllEncodable(ms) && j <= |ms|
  {
    |Wire(net, ms[..j])|
  }

  lemma {:induction false} WireSizeGrows(net: Network, ms: seq<Message>, j: nat, k: nat)
    requires AllEncodable(ms) && j <= k <= |ms|
    ensures WireSize(net, ms, j) <= WireSize(net, ms, k)
  {
    if j < k {
      assert ms[..k][..k - 1] == ms[..k - 1];
      WireSizeGrows(net, ms, j, k - 1);
    }
  }

  /** The messages received are exactly those whose last byte is among the first `n`, in order and
      unaltered. */
  ghost predicate ExactlyArrived(net: Network, ms: seq<Message>, n: nat, done: seq<Received>)
    requires AllEncodable(ms)
  {
    && |done| <= |ms| && done == AllReceived(net, ms[..|done|])
    && forall j :: 0 <= j <= |ms| ==> (j <= |done| <==> WireSize(net, ms, j) <= n)
  }

  lemma ArrivedAll(net: Network, ms: seq<Message>, k: nat, n: nat)
    requires AllEncodable(ms) && k <= |ms| && WireSize(net, ms, k) <= n
    requires k < |ms| ==> n < WireSize(net, ms, k + 1)
    ensures ExactlyArrived(net, ms, n, AllReceived(net, ms[..k]))
  {
    hide WireSize;
    forall j | 0 <= j <= |ms| ensures j <= k <==> WireSize(net, ms, j) <= n {
      if j <= k {
        WireSizeGrows(net, ms, j, k);
      } else {
        WireSizeGrows(net, ms, k + 1, j);
      }
    }
  }

  lemma ArrivedEarlier(net: Network, ms: seq<Message>, n: nat, done: seq<Received>)
    requires AllEncodable(ms) && ms != [] && n < WireSize(net, ms, |ms|)
    requires ExactlyArrived(net, ms[..|ms| - 1], n, done)
    ensures ExactlyArrived(net, ms, n, done)
  {
    hide Wire;
    hide AllReceived;
    var k := |ms| - 1;
    assert ms[..k][..|done|] == ms[..|done|];
    forall j | 0 <= j <= |ms| ensures j <= |done| <==> WireSize(net, ms, j) <= n {
      if j <= k {
        assert ms[..k][..j] == ms[..j];
        assert j <= |done| <==> WireSize(net, ms[..k], j) <= n;
      }
    }
  }

  /** Whatever part of the stream has arrived, cut up in any way, the completed messages are exactly
      those that have arrived whole, and nothing has failed. */
  lemma {:induction false} EndToEnd(net: Network, ms: seq<Message>, arrived: seq<byte>)
    requires AllSendable(ms) && arrived <= Wire(net, ms)
    ensures var rx := Feed(Fresh, arrived); !rx.failed && ExactlyArrived(net, ms, |arrived|, rx.done)
  {
    hide Feed;
    hide Serialize;
    hide ExactlyArrived;
    FeedNothing(Fresh);
    assert ms[..|ms|] == ms;
    if ms == [] {
      AllReceivedNext(net, ms);
      ArrivedAll(net, ms, 0, 0);
    } else {
      var k := |ms| - 1;
      var before := Wire(net, ms[..k]);
      if |arrived| <= |before| {
        assert arrived == Wire(net, ms)[..|arrived|] == before[..|arrived|];
        EndToEnd(net, ms[..k], arrived);
        ArrivedEarlier(net, ms, |arrived|, Feed(Fresh, arrived).done);
      } else {
        var n := |arrived| - |before|;
        var last := Serialize(net, ms[k]);
        assert arrived == before + last[..n];
        FeedWire(net, ms[..k]);
        FeedConcat(Fresh, before, last[..n]);
        if n < |last| {
          FeedMessagePart(net, Rx(AllReceived(net, ms[..k]), [], false), ms[k], n);
          ArrivedAll(net, ms, k, |arrived|);
        } else {
          assert arrived == Wire(net, ms);
          FeedWire(net, ms);
          ArrivedAll(net, ms, |ms|, |arrived|);
        }
      }
    }
  }

  // ----- what is refused

  /** The header of a message makes the receiver give up if and only if the payload exceeds 4,000,000 bytes. */
  lemma RefusesExactly(net: Network, rx: Rx, m: Message)
    requires Encodable(m) && !rx.failed && rx.partial == []
    ensures Feed(rx, HeaderBytes(net, m)).failed <==> |m.payload| > 4_000_000
    ensures |m.payload| > 4_000_000 ==> Feed(rx, Serialize(net, m)) == Rx(rx.done, HeaderBytes(net, m), true)
  {
    var hb := HeaderBytes(net, m);
    HeaderRoundTrip(net, m);
    assert rx.partial + hb == hb && hb[..HEADER_SIZE] == hb;
    FeedHeaderEnd(rx, hb);
    FeedConcat(rx, hb, m.payload);
    if |m.payload| > 4_000_000 {
      FeedFailed(Feed(rx, hb), m.payload);
    }
  }

  /** The first message over the limit, or the number of messages if there is none. */
  function FirstOversized(ms: seq<Message>): (k: nat)
    ensures k <= |ms| && (k < |ms| ==> |ms[k].payload| > 4_000_000)
    ensures forall i :: 0 <= i < k ==> |ms[i].payload| <= 4_000_000
  {
    if ms == [] then 0
    else
      var k := FirstOversized(ms[..|ms| - 1]);
      if k < |ms| - 1 || |ms[|ms| - 1].payload| > 4_000_000 then k else |ms|
  }

  /** Of any stream of messages exactly those before the first that exceeds 4,000,000 bytes are received, and
      the receiver gives up exactly if there is such a one. */
  lemma {:induction false} ReceivesUpToOversized(net: Network, ms: seq<Message>)
    requires AllEncodable(ms)
    ensures var k, rx := FirstOversized(ms), Feed(Fresh, Wire(net, ms));
      rx.done == AllReceived(net, ms[..k]) && (rx.failed <==> k < |ms|)
  {
    hide Feed;
    hide AllReceived;
    hide Serialize;
    var n := FirstOversized(ms);
    if n == |ms| {
      assert ms[..n] == ms;
      FeedWire(net, ms);
    } else {
      var k := |ms| - 1;
      var before := Wire(net, ms[..k]);
      FeedConcat(Fresh, before, Serialize(net, ms[k]));
      if n == k {
        FeedWire(net, ms[..k]);
        RefusesExactly(net, Rx(AllReceived(net, ms[..k]), [], false), ms[k]);
      } else {
        ReceivesUpToOversized(net, ms[..k]);
        assert FirstOversized(ms[..k]) == n && ms[..k][..n] == ms[..n];
        FeedFailed(Feed(Fresh, before), Serialize(net, ms[k]));
      }
    }
  }

  // ----- the layout of a header

  /** The command field holds the command up to its first zero byte and zeroes after that. */
  lemma {:induction false} FieldHolds(command: seq<byte>, n: nat, i: nat)
    requires i < n
    ensures Field(command, n)[i] == if i < |command| && 0 !in command[..i + 1] then command[i] else 0
    decreases n
  {
    if command == [] || command[0] == 0 {
      if i > 0 {
        FieldHolds([], n - 1, i - 1);
      }
      if i < |command| {
        assert command[..i + 1][0] == 0;
      }
    } else if i > 0 {
      FieldHolds(command[1..], n - 1, i - 1);
      if i < |command| {
        assert command[..i + 1] == [command[0]] + command[1..][..i];
      }
    }
  }

  /** Where the parts of a message header stand: the size is little-endian in bytes 16 to 19. */
  lemma HeaderLayout(net: Network, m: Message)
    requires Encodable(m)
    ensures var b := HeaderBytes(net, m);
      && b[0] == net.start.0 && b[1] == net.start.1 && b[2] == net.start.2 && b[3] == net.start.3
      && (forall i :: 0 <= i < 12 ==>
            b[4 + i] == if i < |m.command| && 0 !in m.command[..i + 1] then m.command[i] else 0)
      && b[16] as int + 0x100 * b[17] as int + 0x1_0000 * b[18] as int + 0x100_0000 * b[19] as int == |m.payload|
      && (b[20], b[21], b[22], b[23]) == net.checksum(m.payload)
  {
    var b := HeaderBytes(net, m);
    forall i | 0 <= i < 12
      ensures b[4 + i] == if i < |m.command| && 0 !in m.command[..i + 1] then m.command[i] else 0
    {
      FieldHolds(m.command, 12, i);
      assert b[4 + i] == Field(m.command, 12)[i];
    }
    hide Field;
    Le32RoundTrip(|m.payload|);
    assert b[16..20] == Le32(|m.payload|);
  }
}
