/** The frames of rpc.c and rpc_server.c: a header of six bytes, then the payload. */
module RpcFraming {
  import opened Crc32

  const HEADER_LENGTH: nat := 6

  /** strlen: where the first NUL byte stands. */
  function StrLen(s: seq<bv8>): (n: nat)
    requires 0 in s
    ensures n < |s| && s[n] == 0 && 0 !in s[..n]
  {
    if s[0] == 0 then 0 else
      assert s == [s[0]] + s[1..];
      assert s[..1 + StrLen(s[1..])] == [s[0]] + s[1..][..StrLen(s[1..])];
      1 + StrLen(s[1..])
  }

  /** A word in memory, least significant byte first. */
  function WordBytes(w: bv32): (b: seq<bv8>)
    ensures |b| == 4
  {
    [(w & 0xFF) as bv8, ((w >> 8) & 0xFF) as bv8, ((w >> 16) & 0xFF) as bv8, (w >> 24) as bv8]
  }

  function WordOf(b: seq<bv8>): bv32
    requires |b| >= 4
  {
    (b[0] as bv32) | ((b[1] as bv32) << 8) | ((b[2] as bv32) << 16) | ((b[3] as bv32) << 24)
  }

  /** An unsigned short in memory; a longer length is cut to 16 bits. */
  function LengthBytes(n: nat): (b: seq<bv8>)
    ensures |b| == 2
  {
    [(n % 256) as bv8, (n / 256 % 256) as bv8]
  }

  function LengthOf(b: seq<bv8>): (n: nat)
    requires |b| >= 2
  {
    b[0] as int + b[1] as int * 256
  }

  lemma WordRoundTrip(w: bv32)
    ensures WordOf(WordBytes(w)) == w
  {
  }

  lemma NextByteValue(b: bv8)
    requires b as int < 255
    ensures (b + 1) as int == b as int + 1
  {
  }

  lemma {:induction false} SomeByte(n: nat) returns (b: bv8)
    requires n < 256
    ensures b as int == n
  {
    b := 0;
    if n > 0 {
      var a := SomeByte(n - 1);
      NextByteValue(a);
      b := a + 1;
    }
  }

  lemma ByteAgain(b: bv8)
    ensures (b as int) as bv8 == b
  {
  }

  lemma SmallByte(n: nat)
    requires n < 256
    ensures (n as bv8) as int == n
  {
    var b := SomeByte(n);
    ByteAgain(b);
  }

  lemma LengthRoundTrip(n: nat)
    ensures LengthOf(LengthBytes(n)) == n % 65536
  {
    SmallByte(n % 256);
    SmallByte(n / 256 % 256);
    assert n / 256 / 256 == n / 65536;
  }

  function Header(payload: seq<bv8>): (h: seq<bv8>)
    ensures |h| == HEADER_LENGTH
  {
    WordBytes(Checksum(payload)) + LengthBytes(|payload|)
  }

  function Frame(payload: seq<bv8>): seq<bv8> {
    Header(payload) + payload
  }

  /** rpc_header_encode, for a request that is a C string in memory. */
  method HeaderEncode(table: array<bv32>, request: seq<bv8>) returns (header: seq<bv8>)
    requires IsTable(table[..]) && 0 in request
    ensures header == Header(request[..StrLen(request)])
  {
    var length := StrLen(request);
    var crc := CalcCrc32(table, request[..length]);
    header := WordBytes(crc) + LengthBytes(length);
  }

  /** rpc_check_packet */
  method CheckPacket(table: array<bv32>, payload: seq<bv8>, crc32: bv32) returns (r: int)
    requires IsTable(table[..])
    ensures r == if Checksum(payload) == crc32 then 0 else -1
  {
    var checksum := CalcCrc32(table, payload);
    if checksum != crc32 {
      return -1;
    }
    return 0;
  }

  /** Why a receiver stops: the stream has ended, a checksum is wrong, or the assertion on a payload's length fails. */
  datatype End = Closed | Corrupt | Asserted

  datatype Received =
    | Stops(why: End)
    | Payload(payload: seq<bv8>, rest: seq<bv8>)

  /**
   * recv: at most the `n` bytes that are asked for and the `most` that have arrived, and what is left behind them. None
   * at all means that the other side has closed the connection, or an error.
   */
  function Recv(stream: seq<bv8>, n: nat, most: nat): (r: (seq<bv8>, seq<bv8>))
    ensures r.0 + r.1 == stream && |r.0| == Least(n, most, |stream|)
  {
    var k := Least(n, most, |stream|);
    (stream[..k], stream[k..])
  }

  function Least(a: nat, b: nat, c: nat): (m: nat)
    ensures m <= a && m <= b && m <= c && m in {a, b, c}
  {
    if a <= b && a <= c then a else if b <= c then b else c
  }

  /**
   * Reads one frame off the stream with two calls that give at most `a` and `b` bytes, into a header that is all zeros
   * before; only no bytes at all are told from a whole header.
   */
  function Receive(stream: seq<bv8>, a: nat, b: nat): (r: Received)
    ensures r.Payload? ==> |stream| == Least(HEADER_LENGTH, a, |stream|) + |r.payload| + |r.rest|
    ensures r.Payload? ==> |r.rest| < |stream|
  {
    var (got, behind) := Recv(stream, HEADER_LENGTH, a);
    if got == [] then Stops(Closed)
    else
      var header := got + Zeros(HEADER_LENGTH - |got|);
      var length := LengthOf(header[4..6]);
      var (payload, rest) := Recv(behind, length, b);
      if |payload| != length then Stops(Asserted)
      else if WordOf(header[..4]) != Checksum(payload) then Stops(Corrupt)
      else Payload(payload, rest)
  }

  /** The byte of a word at each place in memory. */
  lemma WordPlaces(w: bv32)
    ensures var b := WordBytes(w);
      && b[0] as bv32 == w & 0xFF && b[1] as bv32 == (w >> 8) & 0xFF
      && b[2] as bv32 == (w >> 16) & 0xFF && b[3] as bv32 == w >> 24
  {
  }

  /**
   * What a frame looks like on the wire: four bytes of the checksum and two of the length, cut to 16 bits, each with
   * the lowest byte first, and then the payload.
   */
  lemma OnTheWire(payload: seq<bv8>)
    ensures var f, crc := Frame(payload), Checksum(payload);
      && |f| == 6 + |payload| && f[6..] == payload
      && f[0] as bv32 == crc & 0xFF && f[1] as bv32 == (crc >> 8) & 0xFF
      && f[2] as bv32 == (crc >> 16) & 0xFF && f[3] as bv32 == crc >> 24
      && f[4] as int == |payload| % 256 && f[5] as int == |payload| / 256 % 256
  {
    hide Checksum, WordBytes;
    var crc := Checksum(payload);
    WordPlaces(crc);
    SmallByte(|payload| % 256);
    SmallByte(|payload| / 256 % 256);
    var f, w, l := Frame(payload), WordBytes(crc), LengthBytes(|payload|);
    assert f[0] == w[0] && f[1] == w[1] && f[2] == w[2] && f[3] == w[3] && f[4] == l[0] && f[5] == l[1];
  }

  lemma HeaderParts(payload: seq<bv8>, body: seq<bv8>, a: nat)
    requires a >= HEADER_LENGTH
    ensures var s := Header(payload) + body;
      var (got, behind) := Recv(s, HEADER_LENGTH, a);
      var header := got + Zeros(HEADER_LENGTH - |got|);
      && s != [] && WordOf(header[..4]) == Checksum(payload) && LengthOf(header[4..6]) == |payload| % 65536
        && behind == body
  {
    hide WordOf, LengthOf;
    var s := Header(payload) + body;
    var (got, behind) := Recv(s, HEADER_LENGTH, a);
    assert got == Header(payload) && behind == body;
    assert got + Zeros(0) == got;
    assert got[..4] == WordBytes(Checksum(payload)) && got[4..6] == LengthBytes(|payload|);
    WordRoundTrip(Checksum(payload));
    LengthRoundTrip(|payload|);
  }

  /**
   * A frame is received as the payload that was sent exactly if that is shorter than 65536 bytes and the two calls give
   * the whole header and the whole payload.
   */
  lemma FrameRoundTrip(payload: seq<bv8>, rest: seq<bv8>, a: nat, b: nat)
    ensures Receive(Frame(payload) + rest, a, b) == Payload(payload, rest)
      <==> |payload| < 65536 && a >= HEADER_LENGTH && b >= |payload|
  {
    hide Checksum, Header, WordOf, LengthOf, Zeros;
    assert Frame(payload) + rest == Header(payload) + (payload + rest);
    if a >= HEADER_LENGTH {
      HeaderParts(payload, payload + rest, a);
      var (got, behind) := Recv(payload + rest, |payload| % 65536, b);
      assert |payload| % 65536 == |payload| && b >= |payload| ==> got == payload && behind == rest;
    }
  }

  lemma NoBytes()
    ensures Checksum([]) == 0
  {
  }

  lemma WordIsZero(a: bv8, b: bv8, c: bv8, d: bv8)
    ensures (a as bv32) | ((b as bv32) << 8) | ((c as bv32) << 16) | ((d as bv32) << 24) == 0
      <==> a == 0 && b == 0 && c == 0 && d == 0
  {
  }

  lemma ByteIsZero(a: bv8)
    ensures a as int == 0 <==> a == 0
  {
  }

  predicate AllZero(s: seq<bv8>) {
    forall i :: 0 <= i < |s| ==> s[i] == 0
  }

  /** The two fields of a header of which only the front has arrived. */
  lemma PaddedFields(tail: seq<bv8>)
    requires 0 < |tail| < HEADER_LENGTH
    ensures var h := tail + Zeros(HEADER_LENGTH - |tail|);
      && (WordOf(h[..4]) == 0 <==> AllZero(if |tail| == 5 then tail[..4] else tail))
      && LengthOf(h[4..6]) == if |tail| == 5 then tail[4] as int else 0
  {
    var h := tail + Zeros(HEADER_LENGTH - |tail|);
    assert h[4] == (if |tail| == 5 then tail[4] else 0) && h[5] == 0;
    assert h[4..6] == [h[4], h[5]] && h[..4] == [h[0], h[1], h[2], h[3]];
    PaddedWord(tail);
    WordIsZero(h[0], h[1], h[2], h[3]);
  }

  lemma PaddedWord(tail: seq<bv8>)
    requires 0 < |tail| < HEADER_LENGTH
    ensures var h := tail + Zeros(HEADER_LENGTH - |tail|);
      h[0] == 0 && h[1] == 0 && h[2] == 0 && h[3] == 0 <==> AllZero(if |tail| == 5 then tail[..4] else tail)
  {
    var h, t := tail + Zeros(HEADER_LENGTH - |tail|), if |tail| == 5 then tail[..4] else tail;
    assert forall i :: 0 <= i < 4 ==> h[i] == if i < |t| then t[i] else 0;
  }

  /**
   * Where the first call gives one to five bytes, these are not told from a whole header. They are taken for the frame
   * of an empty request exactly if they are all zero; otherwise the checksum is wrong, unless the fifth byte asks for a
   * payload: then the assertion fails exactly if the second call gives fewer bytes than that.
   */
  lemma ShortHeader(stream: seq<bv8>, a: nat, b: nat)
    requires var g := Least(HEADER_LENGTH, a, |stream|); 0 < g < HEADER_LENGTH
    ensures var g := Least(HEADER_LENGTH, a, |stream|);
      if g < 5 || stream[4] == 0 then
        Receive(stream, a, b) == if AllZero(stream[..g]) then Payload([], stream[g..]) else Stops(Corrupt)
      else Receive(stream, a, b) == Stops(Asserted) <==> Least(stream[4] as int, b, |stream| - 5) < stream[4] as int
  {
    hide Checksum, WordOf, LengthOf, Zeros;
    var (got, behind) := Recv(stream, HEADER_LENGTH, a);
    NoBytes();
    PaddedFields(got);
    if |got| == 5 {
      ByteIsZero(got[4]);
      assert got == got[..4] + [got[4]];
    }
  }

  /** So do one to five bytes at the end of a stream. */
  lemma StrayBytes(tail: seq<bv8>, a: nat, b: nat)
    requires 0 < |tail| < HEADER_LENGTH && a >= |tail|
    ensures Receive(tail, a, b) ==
      if AllZero(tail) then Payload([], [])
      else if |tail| == 5 && tail[4] != 0 then Stops(Asserted)
      else Stops(Corrupt)
  {
    hide Receive;
    ShortHeader(tail, a, b);
    assert tail[..|tail|] == tail;
    if |tail| == 5 {
      ByteIsZero(tail[4]);
    }
  }

  /** The receiver's loop, whose calls give at most `gives(t)`, `gives(t + 1)`, ... bytes, and why it stops. */
  function ReceiveAll(stream: seq<bv8>, gives: nat -> nat, t: nat): (r: (seq<seq<bv8>>, End))
    decreases |stream|
  {
    match Receive(stream, gives(t), gives(t + 1))
    case Stops(why) => ([], why)
    case Payload(p, rest) => var (ps, why) := ReceiveAll(rest, gives, t + 2); ([p] + ps, why)
  }

  function Frames(payloads: seq<seq<bv8>>): seq<bv8> {
    if payloads == [] then [] else Frame(payloads[0]) + Frames(payloads[1..])
  }

  lemma FramesStep(payloads: seq<seq<bv8>>)
    requires payloads != []
    ensures Frames(payloads) == Frame(payloads[0]) + Frames(payloads[1..])
  {
  }

  lemma ReceiveAllStep(stream: seq<bv8>, gives: nat -> nat, t: nat, payload: seq<bv8>, rest: seq<bv8>)
    requires Receive(stream, gives(t), gives(t + 1)) == Payload(payload, rest)
    ensures var r := ReceiveAll(rest, gives, t + 2); ReceiveAll(stream, gives, t) == ([payload] + r.0, r.1)
  {
  }

  lemma HeadAndRest<T>(s: seq<T>)
    requires s != []
    ensures [s[0]] + s[1..] == s
  {
  }

  /** Every call gives all that it is asked for. */
  ghost predicate Whole(payloads: seq<seq<bv8>>, gives: nat -> nat, t: nat) {
    forall i :: 0 <= i < |payloads| ==>
      |payloads[i]| < 65536 && gives(t + 2 * i) >= HEADER_LENGTH && gives(t + 2 * i + 1) >= |payloads[i]|
  }

  lemma WholeStep(payloads: seq<seq<bv8>>, gives: nat -> nat, t: nat)
    requires Whole(payloads, gives, t) && payloads != []
    ensures |payloads[0]| < 65536 && gives(t) >= HEADER_LENGTH && gives(t + 1) >= |payloads[0]|
    ensures Whole(payloads[1..], gives, t + 2)
  {
    var p := payloads[0];
    assert gives(t + 2 * 0) >= HEADER_LENGTH && gives(t + 2 * 0 + 1) >= |p|;
    forall i | 0 <= i < |payloads[1..]|
      ensures |payloads[1..][i]| < 65536 && gives(t + 2 + 2 * i) >= HEADER_LENGTH
      ensures gives(t + 2 + 2 * i + 1) >= |payloads[1..][i]|
    {
      var q := payloads[i + 1];
      assert t + 2 * (i + 1) == t + 2 + 2 * i;
    }
  }

  /**
   * Concatenated frames split back into the payloads that were sent, and the receiver stops behind them for the reason
   * it has to stop for there: at the end of the stream, because it has ended.
   */
  lemma {:induction false} StreamRoundTrip(payloads: seq<seq<bv8>>, tail: seq<bv8>, gives: nat -> nat, t: nat, why: End)
    requires Whole(payloads, gives, t)
    requires var u := t + 2 * |payloads|; Receive(tail, gives(u), gives(u + 1)) == Stops(why)
    ensures ReceiveAll(Frames(payloads) + tail, gives, t) == (payloads, why) && (tail == [] ==> why == Closed)
    decreases |payloads|
  {
    hide Receive, ReceiveAll, Frame, Frames, Whole;
    NothingReceived(gives(t + 2 * |payloads|), gives(t + 2 * |payloads| + 1));
    if payloads == [] {
      NoFrames(tail, gives, t, why);
    } else {
      WholeStep(payloads, gives, t);
      FramesStep(payloads);
      var rest := Frames(payloads[1..]) + tail;
      assert Frames(payloads) + tail == Frame(payloads[0]) + rest;
      assert t + 2 * |payloads| == t + 2 + 2 * |payloads[1..]|;
      FrameRoundTrip(payloads[0], rest, gives(t), gives(t + 1));
      ReceiveAllStep(Frames(payloads) + tail, gives, t, payloads[0], rest);
      StreamRoundTrip(payloads[1..], tail, gives, t + 2, why);
      HeadAndRest(payloads);
    }
  }

  lemma NoFrames(tail: seq<bv8>, gives: nat -> nat, t: nat, why: End)
    requires Receive(tail, gives(t), gives(t + 1)) == Stops(why)
    ensures ReceiveAll(Frames([]) + tail, gives, t) == ([], why)
  {
    hide Receive;
    assert Frames([]) + tail == tail;
  }

  lemma NothingReceived(a: nat, b: nat)
    ensures Receive([], a, b) == Stops(Closed)
  {
    hide Checksum, WordOf, LengthOf, Zeros;
  }

  /**
   * A payload that is damaged inside four consecutive bytes on the way is refused: for its checksum if it arrives as a
   * whole, and by the assertion if not.
   */
  lemma DamageIsRefused(before: seq<bv8>, w: seq<bv8>, v: seq<bv8>, after: seq<bv8>, rest: seq<bv8>, a: nat, b: nat)
    requires |w| == |v| <= 4 && w != v && |before + w + after| < 65536 && a >= HEADER_LENGTH
    ensures Receive(Header(before + w + after) + (before + v + after) + rest, a, b)
      == Stops(if b >= |before + v + after| then Corrupt else Asserted)
  {
    hide Checksum, Header, WordOf, LengthOf, Zeros;
    var sent, got := before + w + after, before + v + after;
    assert Header(sent) + got + rest == Header(sent) + (got + rest);
    HeaderParts(sent, got + rest, a);
    assert b >= |got| ==> Recv(got + rest, |sent|, b).0 == got;
    FourBytesAreSeen(before, w, v, after);
  }

  lemma {:induction false} FirstNul(s: seq<bv8>, n: nat)
    requires n < |s| && s[n] == 0 && 0 !in s[..n]
    ensures StrLen(s) == n
  {
    if n > 0 {
      assert s[0] in s[..n];
      assert s == [s[0]] + s[1..];
      assert s[..n] == [s[0]] + s[1..][..n - 1];
      FirstNul(s[1..], n - 1);
    }
  }

  /** A request in memory is received as the same C string once the receiver has terminated it. */
  lemma RequestRoundTrip(request: seq<bv8>, rest: seq<bv8>, a: nat, b: nat)
    requires 0 in request
    ensures var text := request[..StrLen(request)];
      && (Receive(Frame(text) + rest, a, b) == Payload(text, rest)
          <==> |text| < 65536 && a >= HEADER_LENGTH && b >= |text|)
      && StrLen(text + [0]) == |text|
  {
    hide Receive, Frame;
    var text := request[..StrLen(request)];
    FrameRoundTrip(text, rest, a, b);
    assert (text + [0])[..|text|] == text;
    FirstNul(text + [0], |text|);
  }

  /** One turn of the loop of rpc_handle, up to the check of the payload. */
  method ReceiveFrame(table: array<bv32>, stream: seq<bv8>, a: nat, b: nat) returns (r: Received)
    requires IsTable(table[..])
    ensures r == Receive(stream, a, b)
  {
    hide Checksum, WordOf, LengthOf, Zeros;
    var (got, behind) := Recv(stream, HEADER_LENGTH, a);
    if |got| == 0 {
      return Stops(Closed);
    }
    var header := got + Zeros(HEADER_LENGTH - |got|);
    var crc32, length := WordOf(header[..4]), LengthOf(header[4..6]);
    var (payload, rest) := Recv(behind, length, b);
    if |payload| != length {
      return Stops(Asserted);
    }
    var checksum := CalcCrc32(table, payload);
    if crc32 != checksum {
      return Stops(Corrupt);
    }
    return Payload(payload, rest);
  }

  /** The loop of rpc_handle, without the answers it sends. */
  method Serve(table: array<bv32>, stream: seq<bv8>, gives: nat -> nat) returns (requests: seq<seq<bv8>>, why: End)
    requires IsTable(table[..])
    ensures (requests, why) == ReceiveAll(stream, gives, 0)
  {
    hide Receive;
    var left, t := stream, 0;
    requests := [];
    assert [] + ReceiveAll(left, gives, 0).0 == ReceiveAll(left, gives, 0).0;
    while true
      invariant var r := ReceiveAll(left, gives, t); ReceiveAll(stream, gives, 0) == (requests + r.0, r.1)
      decreases |left|
    {
      var r := ReceiveFrame(table, left, gives(t), gives(t + 1));
      if r.Stops? {
        assert requests + [] == requests;
        return requests, r.why;
      }
      ghost var more := ReceiveAll(r.rest, gives, t + 2).0;
      assert requests + ([r.payload] + more) == requests + [r.payload] + more;
      requests := requests + [r.payload];
      left, t := r.rest, t + 2;
    }
  }
}
