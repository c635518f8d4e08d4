/** Encrypted packets over a byte pipe that loses nothing. */
module ApCodec {
  import opened Bits
  import opened Chunks
  import opened Shannon
  import opened ShannonCipher
  import ShannonLaws

  const MAX_PAYLOAD: nat := 0xffff
  const MAC_LEN: nat := 4

  /** A nonce as the cipher takes it, most significant byte first. */
  function NonceBytes(n: u32): (b: seq<byte>)
    ensures |b| == 4
  {
    [ToByte(n / 0x100_0000), ToByte(n / 0x1_0000), ToByte(n / 0x100), ToByte(n)]
  }

  lemma NonceDigits(n: u32)
    ensures var b := NonceBytes(n);
      && FromByte(b[0]) == n / 0x100_0000 && FromByte(b[1]) == n / 0x1_0000 % 0x100
      && FromByte(b[2]) == n / 0x100 % 0x100 && FromByte(b[3]) == n % 0x100
  {
    hide ToByte, FromByte;
    ByteRoundTrip(n / 0x100_0000);
    ByteRoundTrip(n / 0x1_0000);
    ByteRoundTrip(n / 0x100);
    ByteRoundTrip(n);
  }

  /** The bytes of a nonce, as numbers and most significant first, make up the nonce. */
  lemma NonceNumber(n: u32)
    ensures var b := NonceBytes(n);
      0x100_0000 * FromByte(b[0]) + 0x1_0000 * FromByte(b[1]) + 0x100 * FromByte(b[2]) + FromByte(b[3]) == n
  {
    NonceDigits(n);
    hide NonceBytes, FromByte;
    var b := NonceBytes(n);
    FourDigits(n, FromByte(b[3]), FromByte(b[2]), FromByte(b[1]), FromByte(b[0]));
  }

  function LengthOf(hi: byte, lo: byte): (n: nat)
    ensures n <= MAX_PAYLOAD
  {
    FromByte(hi) * 256 + FromByte(lo)
  }

  /** Command byte, payload length most significant byte first, payload. */
  function Frame(cmd: byte, payload: seq<byte>): (f: seq<byte>)
    requires |payload| <= MAX_PAYLOAD
    ensures |f| == 3 + |payload|
  {
    [cmd, ToByte(|payload| / 256), ToByte(|payload| % 256)] + payload
  }

  /** What one packet puts on the wire: the enciphered frame, then its MAC. */
  function Packet(init: seq<word>, n: u32, cmd: byte, payload: seq<byte>): (p: seq<byte>)
    requires |init| == N && |payload| <= MAX_PAYLOAD
    ensures |p| == 3 + |payload| + MAC_LEN
  {
    var (s, frame) := Run(true, NonceState(init, NonceBytes(n)), Frame(cmd, payload));
    frame + Mac(s, MAC_LEN)
  }

  /** Every byte of a packet: the frame against the keystream of the nonce, and the MAC's four bytes. */
  lemma PacketByte(init: seq<word>, n: u32, cmd: byte, payload: seq<byte>, p: nat)
    requires |init| == N && |payload| <= MAX_PAYLOAD && p < 3 + |payload| + 4
    ensures var s, f := NonceState(init, NonceBytes(n)), Frame(cmd, payload);
      var k := ShannonLaws.MessageInputs(f);
      Packet(init, n, cmd, payload)[p] ==
        if p < |f| then XorByte(f[p], WriteLe(ShannonLaws.KeystreamWord(s.r, s.konst, k, p / 4 + 1))[p % 4])
        else WriteLe(ShannonLaws.KeystreamWord(ShannonLaws.MacStart(s, f), s.konst, [], 17))[p - |f|]
  {
    hide Run, Mac, NonceState, NonceBytes, Frame, XorByte, WriteLe, ShannonLaws.KeystreamWord, ShannonLaws.MacStart;
    var s, f := NonceState(init, NonceBytes(n)), Frame(cmd, payload);
    if p < |f| {
      ShannonLaws.StreamLaw(s, f, p);
    } else {
      ShannonLaws.MacLaw(s, f, MAC_LEN, p - |f|);
    }
  }

  datatype Received = Received(cmd: byte, payload: seq<byte>, rest: seq<byte>) | Failed

  /** The end of a packet: its MAC, after cipher state s. */
  function ReceiveMac(s: State, cmd: byte, payload: seq<byte>, data: seq<byte>): Received
    requires s.Valid()
  {
    if |data| < MAC_LEN || data[..MAC_LEN] != Mac(s, MAC_LEN) then Failed
    else Received(cmd, payload, data[MAC_LEN..])
  }

  /** The rest of a packet whose header has been read. */
  function ReceiveBody(s: State, cmd: byte, len: nat, data: seq<byte>): Received
    requires s.Valid()
  {
    if |data| < len then Failed
    else
      var (s', payload) := Run(false, s, data[..len]);
      ReceiveMac(s', cmd, payload, data[len..])
  }

  /** What one packet's worth of wire bytes is read as, and what is left of them. */
  function Receive(init: seq<word>, n: u32, data: seq<byte>): Received
    requires |init| == N
  {
    if |data| < 3 then Failed
    else
      var (s, hdr) := Run(false, NonceState(init, NonceBytes(n)), data[..3]);
      ReceiveBody(s, hdr[0], LengthOf(hdr[1], hdr[2]), data[3..])
  }

  /** A packet is read back as what was sent, whatever follows it. */
  lemma ReceivePacket(init: seq<word>, n: u32, cmd: byte, payload: seq<byte>, rest: seq<byte>)
    requires |init| == N && |payload| <= MAX_PAYLOAD
    ensures Receive(init, n, Packet(init, n, cmd, payload) + rest) == Received(cmd, payload, rest)
  {
    hide Run, Mac, NonceState, NonceBytes, ToByte, LengthOf;
    var s0 := NonceState(init, NonceBytes(n));
    var frame := Frame(cmd, payload);
    var (s, ct) := Run(true, s0, frame);
    var data := Packet(init, n, cmd, payload) + rest;
    var end := 3 + |payload|;
    FrameLength(cmd, payload);
    ReadInTwo(s0, frame);
    WireSlices(ct, Mac(s, MAC_LEN), rest, data);
  }

  /** A frame's first three bytes: the command, and the payload's length with its upper byte first. */
  lemma FrameLength(cmd: byte, payload: seq<byte>)
    requires |payload| <= MAX_PAYLOAD
    ensures var f := Frame(cmd, payload);
      && f[0] == cmd && FromByte(f[1]) == |payload| / 256 && FromByte(f[2]) == |payload| % 256
      && LengthOf(f[1], f[2]) == |payload| && f[3..] == payload
  {
    hide ToByte, FromByte;
    ByteRoundTrip(|payload| / 256);
    ByteRoundTrip(|payload| % 256);
  }

  /** The receiver deciphers three bytes, then the rest; the sender enciphered all at once. */
  lemma ReadInTwo(s0: State, frame: seq<byte>)
    requires s0.Valid() && |frame| >= 3
    ensures var (s, ct) := Run(true, s0, frame);
      var (s1, hdr) := Run(false, s0, ct[..3]);
      Run(false, s1, ct[3..]) == (s, frame[3..]) && hdr == frame[..3]
  {
    hide Run;
    var (s, ct) := Run(true, s0, frame);
    assert ct[..3] + ct[3..] == ct;
    RunInverse(s0, frame);
    RunSplit(false, s0, ct[..3], ct[3..]);
    var (s1, hdr) := Run(false, s0, ct[..3]);
    var (s2, body) := Run(false, s1, ct[3..]);
    SplitAt(hdr, body, frame);
  }

  lemma SplitAt<T>(a: seq<T>, b: seq<T>, c: seq<T>)
    requires a + b == c
    ensures a == c[..|a|] && b == c[|a|..]
  {
  }

  lemma WireSlices<T>(ct: seq<T>, mac: seq<T>, rest: seq<T>, data: seq<T>)
    requires data == (ct + mac) + rest && |ct| >= 3
    ensures data[..3] == ct[..3] && data[3..][..|ct| - 3] == ct[3..]
    ensures data[3..][|ct| - 3..][..|mac|] == mac && data[3..][|ct| - 3..][|mac|..] == rest
  {
  }

  datatype Message = Message(cmd: byte, payload: seq<byte>)

  predicate Sendable(messages: seq<Message>) {
    forall i :: 0 <= i < |messages| ==> |messages[i].payload| <= MAX_PAYLOAD
  }

  /** The nonce counter, modulo 2^32. */
  function NextNonce(n: u32): u32 {
    (n + 1) % 0x1_0000_0000
  }

  /** The wire bytes of a list of packets, with nonces counting up from n, modulo 2^32. */
  function Wire(init: seq<word>, n: u32, messages: seq<Message>): seq<byte>
    requires |init| == N && Sendable(messages)
    decreases |messages|
  {
    if messages == [] then []
    else Packet(init, n, messages[0].cmd, messages[0].payload) + Wire(init, NextNonce(n), messages[1..])
  }

  /** The nonce k packets on. */
  function NonceAfter(n: u32, k: nat): (m: u32)
    ensures m == (n + k) % 0x1_0000_0000
  {
    if k == 0 then n else NextNonce(NonceAfter(n, k - 1))
  }

  lemma {:induction false} NonceAfterNext(n: u32, k: nat)
    ensures NonceAfter(NextNonce(n), k) == NonceAfter(n, k + 1)
  {
    hide NextNonce;
    if k > 0 {
      NonceAfterNext(n, k - 1);
    }
  }

  /** The k-th packet of a list stands behind the packets before it, under the nonce k further on. */
  lemma {:induction false} WireAt(init: seq<word>, n: u32, messages: seq<Message>, k: nat)
    requires |init| == N && Sendable(messages) && k < |messages|
    ensures Wire(init, n, messages) == Wire(init, n, messages[..k])
      + (Packet(init, NonceAfter(n, k), messages[k].cmd, messages[k].payload)
         + Wire(init, NonceAfter(n, k + 1), messages[k + 1..]))
    decreases k
  {
    hide Packet, NextNonce, Wire, NonceAfter;
    var m := messages[0];
    WireFirst(init, n, messages);
    if k == 0 {
      NonceStart(n);
      NoWire(init, n, messages[..0]);
    } else {
      var next, rest := NextNonce(n), messages[1..];
      SliceShift(messages, k);
      WireFirst(init, n, messages[..k]);
      WireAt(init, next, rest, k - 1);
      NonceAfterNext(n, k);
      NonceAfterNext(n, k - 1);
      Assoc(Packet(init, n, m.cmd, m.payload), Wire(init, next, rest[..k - 1]),
            Packet(init, NonceAfter(n, k), messages[k].cmd, messages[k].payload)
            + Wire(init, NonceAfter(n, k + 1), messages[k + 1..]));
    }
  }

  lemma NonceStart(n: u32)
    ensures NonceAfter(n, 0) == n && NonceAfter(n, 1) == NextNonce(n)
  {
    hide NextNonce;
  }

  lemma NoWire(init: seq<word>, n: u32, messages: seq<Message>)
    requires |init| == N && messages == []
    ensures forall b :: Wire(init, n, messages) + b == b
  {
  }

  lemma SliceShift<T>(s: seq<T>, k: nat)
    requires 0 < k < |s|
    ensures s[1..][k - 1] == s[k] && s[1..][k..] == s[k + 1..]
    ensures s[..k][0] == s[0] && s[..k][1..] == s[1..][..k - 1]
  {
  }

  lemma WireFirst(init: seq<word>, n: u32, messages: seq<Message>)
    requires |init| == N && Sendable(messages) && messages != []
    ensures Wire(init, n, messages) ==
      Packet(init, n, messages[0].cmd, messages[0].payload) + Wire(init, NextNonce(n), messages[1..])
  {
    hide Packet, NextNonce;
  }

  datatype Inbox = Inbox(messages: seq<Message>, rest: seq<byte>) | Broken

  /** What count packets in a row are read as, each under the next nonce. */
  function ReceiveRun(init: seq<word>, n: u32, count: nat, data: seq<byte>): Inbox
    requires |init| == N
    decreases count
  {
    hide Receive, NextNonce;
    if count == 0 then Inbox([], data)
    else
      match Receive(init, n, data)
      case Failed => Broken
      case Received(cmd, payload, rest) =>
        match ReceiveRun(init, NextNonce(n), count - 1, rest)
        case Broken => Broken
        case Inbox(messages, rest') => Inbox([Message(cmd, payload)] + messages, rest')
  }

  /** Every list of packets is read back whole and in order, with no MAC refused, whatever follows on the wire. */
  lemma {:induction false} ReceiveWire(init: seq<word>, n: u32, messages: seq<Message>, tail: seq<byte>)
    requires |init| == N && Sendable(messages)
    ensures ReceiveRun(init, n, |messages|, Wire(init, n, messages) + tail) == Inbox(messages, tail)
    decreases |messages|
  {
    hide Receive, Packet, NextNonce;
    if messages == [] {
      assert Wire(init, n, messages) + tail == tail;
    } else {
      var m, rest := messages[0], Wire(init, NextNonce(n), messages[1..]) + tail;
      assert Wire(init, n, messages) + tail == Packet(init, n, m.cmd, m.payload) + rest;
      ReceivePacket(init, n, m.cmd, m.payload, rest);
      ReceiveWire(init, NextNonce(n), messages[1..], tail);
      assert [m] + messages[1..] == messages;
    }
  }

  // ---------------------------------------------------------------- the codec

  /** A byte pipe in memory, in the place of the socket. */
  class Pipe {
    var data: seq<byte>

    method SendAll(b: seq<byte>)
      modifies this
      ensures data == old(data) + b
    {
      data := data + b;
    }

    /** Takes n bytes; when there are fewer, the other end is gone and the rest is lost. */
    method RecvAll(n: nat) returns (ok: bool, b: seq<byte>)
      modifies this
      ensures ok <==> n <= |old(data)|
      ensures ok ==> b == old(data)[..n] && data == old(data)[n..]
      ensures !ok ==> data == []
    {
      if n <= |data| {
        b := data[..n];
        data := data[n..];
        return true, b;
      }
      data := [];
      return false, [];
    }
  }

  class Codec {
    const sendCipher: Cipher
    const recvCipher: Cipher
    const outgoing: Pipe
    const incoming: Pipe
    var sendNonce: u32
    var recvNonce: u32

    constructor (s: Cipher, r: Cipher, outgoing: Pipe, incoming: Pipe)
      ensures sendCipher == s && recvCipher == r && this.outgoing == outgoing && this.incoming == incoming
      ensures sendNonce == 0 && recvNonce == 0
    {
      this.sendCipher, this.recvCipher, this.outgoing, this.incoming := s, r, outgoing, incoming;
      this.sendNonce, this.recvNonce := 0, 0;
    }

    /** Enciphers one packet and puts it on the wire; too long a payload is refused. */
    method Send(cmd: byte, payload: seq<byte>) returns (ok: bool)
      requires sendCipher.Valid()
      modifies this`sendNonce, outgoing, sendCipher, sendCipher.R, sendCipher.CRC
      ensures sendCipher.Valid() && sendCipher.initR[..] == old(sendCipher.initR[..])
      ensures ok <==> |payload| <= 65535
      ensures ok ==> |outgoing.data| == |old(outgoing.data)| + 3 + |payload| + 4
      ensures ok ==> outgoing.data == old(outgoing.data) + Packet(sendCipher.initR[..], old(sendNonce), cmd, payload)
      ensures sendNonce == if ok then NextNonce(old(sendNonce)) else old(sendNonce)
      ensures !ok ==> outgoing.data == old(outgoing.data)
    {
      hide Packet, NextNonce;
      if |payload| > MAX_PAYLOAD {
        return false;
      }
      var nonce := sendNonce;
      sendNonce := NextNonce(sendNonce);
      var frame, mac := Seal(sendCipher, nonce, cmd, payload);
      outgoing.SendAll(frame);
      outgoing.SendAll(mac);
      return true;
    }

    /** Reads one packet: three bytes, then as many more as they say, then the MAC. */
    method Recv() returns (ok: bool, cmd: byte, payload: seq<byte>)
      requires recvCipher.Valid()
      modifies this`recvNonce, incoming, recvCipher, recvCipher.R, recvCipher.CRC
      ensures recvCipher.Valid() && recvCipher.initR[..] == old(recvCipher.initR[..])
      ensures recvNonce == NextNonce(old(recvNonce))
      ensures var r := Receive(recvCipher.initR[..], old(recvNonce), old(incoming.data));
        && (ok <==> r.Received?)
        && (ok ==> cmd == r.cmd && payload == r.payload && incoming.data == r.rest)
    {
      hide NextNonce, Run, Mac, NonceState, NonceBytes, LengthOf, ReceiveBody;
      recvCipher.Nonce(NonceBytes(recvNonce));
      recvNonce := NextNonce(recvNonce);
      var got, hdr := incoming.RecvAll(3);
      if !got {
        return false, 0, [];
      }
      hdr := Decipher(recvCipher, hdr);
      cmd := hdr[0];
      ok, payload := RecvBody(recvCipher, incoming, cmd, LengthOf(hdr[1], hdr[2]));
    }
  }

  /** Packets read before, and those still to be read. */
  function Joined(before: seq<Message>, r: Inbox): Inbox {
    match r
    case Broken => Broken
    case Inbox(messages, rest) => Inbox(before + messages, rest)
  }

  lemma ReceiveNext(before: seq<Message>, init: seq<word>, n: u32, count: nat, data: seq<byte>)
    requires |init| == N && count > 0
    ensures Joined(before, ReceiveRun(init, n, count, data)) ==
      match Receive(init, n, data)
      case Failed => Broken
      case Received(cmd, payload, rest) =>
        Joined(before + [Message(cmd, payload)], ReceiveRun(init, NextNonce(n), count - 1, rest))
  {
    hide Receive, NextNonce;
    var r := Receive(init, n, data);
    if r.Received? {
      var m, more := [Message(r.cmd, r.payload)], ReceiveRun(init, NextNonce(n), count - 1, r.rest);
      if more.Inbox? {
        assert before + (m + more.messages) == (before + m) + more.messages;
      }
    }
  }

  lemma ReceiveNone(before: seq<Message>, init: seq<word>, n: u32, data: seq<byte>)
    requires |init| == N
    ensures Joined(before, ReceiveRun(init, n, 0, data)) == Inbox(before, data)
  {
    assert before + [] == before;
  }

  lemma JoinedNothing(r: Inbox)
    ensures Joined([], r) == r
  {
    if r.Inbox? {
      assert [] + r.messages == r.messages;
    }
  }

  /** Sends packets one after another. */
  method SendEach(codec: Codec, messages: seq<Message>)
    requires codec.sendCipher.Valid() && Sendable(messages)
    modifies codec`sendNonce, codec.outgoing, codec.sendCipher, codec.sendCipher.R, codec.sendCipher.CRC
    ensures codec.sendCipher.Valid() && codec.sendCipher.initR[..] == old(codec.sendCipher.initR[..])
    ensures codec.outgoing.data ==
      old(codec.outgoing.data) + Wire(codec.sendCipher.initR[..], old(codec.sendNonce), messages)
  {
    hide Packet, NextNonce;
    ghost var init, all := codec.sendCipher.initR[..],
      codec.outgoing.data + Wire(codec.sendCipher.initR[..], codec.sendNonce, messages);
    assert messages[0..] == messages;
    for i := 0 to |messages|
      invariant codec.sendCipher.Valid() && codec.sendCipher.initR[..] == init
      invariant codec.outgoing.data + Wire(init, codec.sendNonce, messages[i..]) == all
    {
      WireNext(init, codec.sendNonce, messages[i..], codec.outgoing.data);
      assert messages[i..][0] == messages[i] && messages[i..][1..] == messages[i + 1..];
      var _ := codec.Send(messages[i].cmd, messages[i].payload);
    }
    WireNone(init, codec.sendNonce, messages[|messages|..], codec.outgoing.data);
  }

  lemma WireNext(init: seq<word>, n: u32, messages: seq<Message>, before: seq<byte>)
    requires |init| == N && Sendable(messages) && messages != []
    ensures before + Wire(init, n, messages) ==
      (before + Packet(init, n, messages[0].cmd, messages[0].payload)) + Wire(init, NextNonce(n), messages[1..])
  {
    hide Packet, NextNonce;
  }

  lemma WireNone(init: seq<word>, n: u32, messages: seq<Message>, before: seq<byte>)
    requires |init| == N && messages == []
    ensures before + Wire(init, n, messages) == before
  {
  }

  /** Receives so many packets, or stops at the first that fails. */
  method RecvEach(codec: Codec, count: nat) returns (ok: bool, messages: seq<Message>)
    requires codec.recvCipher.Valid()
    modifies codec`recvNonce, codec.incoming, codec.recvCipher, codec.recvCipher.R, codec.recvCipher.CRC
    ensures codec.recvCipher.Valid() && codec.recvCipher.initR[..] == old(codec.recvCipher.initR[..])
    ensures var r := ReceiveRun(codec.recvCipher.initR[..], old(codec.recvNonce), count, old(codec.incoming.data));
      (ok <==> r.Inbox?) && (ok ==> r == Inbox(messages, codec.incoming.data))
  {
    hide Receive, NextNonce, ReceiveRun;
    ghost var init := codec.recvCipher.initR[..];
    ghost var all := ReceiveRun(init, codec.recvNonce, count, codec.incoming.data);
    messages := [];
    JoinedNothing(all);
    for i := 0 to count
      invariant codec.recvCipher.Valid() && codec.recvCipher.initR[..] == init
      invariant Joined(messages, ReceiveRun(init, codec.recvNonce, count - i, codec.incoming.data)) == all
    {
      ReceiveNext(messages, init, codec.recvNonce, count - i, codec.incoming.data);
      var got, cmd, payload := codec.Recv();
      if !got {
        return false, messages;
      }
      messages := messages + [Message(cmd, payload)];
    }
    ReceiveNone(messages, init, codec.recvNonce, codec.incoming.data);
    ok := true;
  }

  /** A list sent by one codec comes out of another with the same key and nonce, and leaves the pipe empty. */
  method Transfer(sender: Codec, receiver: Codec, messages: seq<Message>) returns (ok: bool, received: seq<Message>)
    requires sender.sendCipher.Valid() && receiver.recvCipher.Valid() && Sendable(messages)
    requires sender.sendCipher.initR[..] == receiver.recvCipher.initR[..] && sender.sendNonce == receiver.recvNonce
    requires sender.outgoing == receiver.incoming && sender.outgoing.data == []
    requires sender != receiver && sender.sendCipher != receiver.recvCipher
    requires {sender.sendCipher.R, sender.sendCipher.CRC, sender.sendCipher.initR}
      !! {receiver.recvCipher.R, receiver.recvCipher.CRC, receiver.recvCipher.initR}
    modifies sender`sendNonce, sender.sendCipher, sender.sendCipher.R, sender.sendCipher.CRC, sender.outgoing
    modifies receiver`recvNonce, receiver.recvCipher, receiver.recvCipher.R, receiver.recvCipher.CRC
    ensures ok && received == messages && receiver.incoming.data == []
  {
    hide Wire, ReceiveRun;
    ghost var init, n := sender.sendCipher.initR[..], sender.sendNonce;
    SendEach(sender, messages);
    ReceiveWire(init, n, messages, []);
    assert Wire(init, n, messages) + [] == Wire(init, n, messages) == sender.outgoing.data;
    ok, received := RecvEach(receiver, |messages|);
  }

  /** The payload, if there is one, and the MAC. */
  method RecvBody(cipher: Cipher, incoming: Pipe, ghost cmd: byte, len: nat) returns (ok: bool, payload: seq<byte>)
    requires cipher.Valid()
    modifies incoming, cipher, cipher.R, cipher.CRC
    ensures cipher.Valid() && cipher.initR[..] == old(cipher.initR[..])
    ensures var r := ReceiveBody(old(cipher.Current()), cmd, len, old(incoming.data));
      && (ok <==> r.Received?)
      && (ok ==> cmd == r.cmd && payload == r.payload && incoming.data == r.rest)
  {
    hide Run, Mac, ReceiveMac;
    payload := [];
    if len > 0 {
      var got, bytes := incoming.RecvAll(len);
      if !got {
        return false, payload;
      }
      payload := Decipher(cipher, bytes);
    } else {
      RunNothing(cipher.Current(), incoming.data);
    }
    ok := RecvMac(cipher, incoming, cmd, payload);
  }

  method RecvMac(cipher: Cipher, incoming: Pipe, ghost cmd: byte, ghost payload: seq<byte>) returns (ok: bool)
    requires cipher.Valid()
    modifies incoming, cipher, cipher.R, cipher.CRC
    ensures cipher.Valid() && cipher.initR[..] == old(cipher.initR[..])
    ensures var r := ReceiveMac(old(cipher.Current()), cmd, payload, old(incoming.data));
      (ok <==> r.Received?) && (ok ==> r == Received(cmd, payload, incoming.data))
  {
    hide Mac;
    var got, mac := incoming.RecvAll(MAC_LEN);
    if !got {
      return false;
    }
    ok := cipher.CheckMac(mac);
  }

  lemma RunNothing(s: State, data: seq<byte>)
    requires s.Valid()
    ensures data[..0] == [] && data[0..] == data && Run(false, s, data[..0]) == (s, [])
  {
  }

  /** Deciphers bytes and goes on from the state they leave. */
  method Decipher(cipher: Cipher, bytes: seq<byte>) returns (plain: seq<byte>)
    requires cipher.Valid()
    modifies cipher, cipher.R, cipher.CRC
    ensures cipher.Valid() && cipher.initR[..] == old(cipher.initR[..])
    ensures (cipher.Current(), plain) == Run(false, old(cipher.Current()), bytes)
  {
    hide Run;
    var buf := new byte[|bytes|](i requires 0 <= i < |bytes| => bytes[i]);
    assert buf[..] == bytes;
    cipher.Process(false, buf);
    plain := buf[..];
  }

  /** Enciphers a frame under a nonce and draws its MAC. */
  method Seal(cipher: Cipher, nonce: u32, cmd: byte, payload: seq<byte>) returns (frame: seq<byte>, mac: seq<byte>)
    requires cipher.Valid() && |payload| <= MAX_PAYLOAD
    modifies cipher, cipher.R, cipher.CRC
    ensures cipher.Valid() && cipher.initR[..] == old(cipher.initR[..])
    ensures frame + mac == Packet(cipher.initR[..], nonce, cmd, payload)
  {
    hide Run, Mac, NonceState, NonceBytes, Frame;
    var bytes := Frame(cmd, payload);
    var buf := new byte[|bytes|](i requires 0 <= i < |bytes| => bytes[i]);
    assert buf[..] == bytes;
    cipher.Nonce(NonceBytes(nonce));
    cipher.Process(true, buf);
    var macBuf := new byte[MAC_LEN];
    cipher.Finish(macBuf);
    return buf[..], macBuf[..];
  }
}
